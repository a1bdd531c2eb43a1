/** The employee form of the single-page client and its `validate` check:
    five independent tests, one per field, each recording a fixed message
    under the field's key when it fails. */
module FormValidation {
  import opened Text

  datatype Field = Name | Dob | Phone | Email | DepartmentId

  /** The form as its five inputs hold it; every value is a string, the
      department included (the value of the selected option). */
  datatype Form = Form(name: string, dob: string, phone: string, email: string, departmentId: string)
  {
    function Get(f: Field): string {
      match f
      case Name => name
      case Dob => dob
      case Phone => phone
      case Email => email
      case DepartmentId => departmentId
    }

    /** The form with one field replaced (`{ ...form, [field]: value }`). */
    function With(f: Field, v: string): (r: Form)
      ensures r.Get(f) == v
      ensures forall g :: g != f ==> r.Get(g) == Get(g)
    {
      match f
      case Name => this.(name := v)
      case Dob => this.(dob := v)
      case Phone => this.(phone := v)
      case Email => this.(email := v)
      case DepartmentId => this.(departmentId := v)
    }
  }

  /** The blank form the client starts from and resets to. */
  const EmptyForm := Form("", "", "", "", "")

  // ---------------------------------------------------------------------
  // The phone pattern ^\d{10,15}$
  // ---------------------------------------------------------------------

  /** Whole-string match of the bounded repetition \d{lo,hi}: each step
      consumes one digit, at most hi steps are allowed, and the end anchor
      accepts only once at least lo digits have been consumed. */
  predicate DigitRun(s: string, lo: nat, hi: nat)
    decreases |s|
  {
    if s == [] then lo == 0
    else hi > 0 && IsAsciiDigit(s[0]) && DigitRun(s[1..], if lo > 0 then lo - 1 else 0, hi - 1)
  }

  /** The pattern the phone field is tested against. */
  predicate PhoneRegex(s: string) {
    DigitRun(s, 10, 15)
  }

  /** The same test read off character by character: 10 to 15 characters,
      all of them ASCII digits. */
  predicate PhoneValid(s: string) {
    10 <= |s| <= 15 && AllDigits(s)
  }

  lemma {:induction false} DigitRunIff(s: string, lo: nat, hi: nat)
    ensures DigitRun(s, lo, hi) <==> lo <= |s| <= hi && AllDigits(s)
    decreases |s|
  {
    if s != [] {
      var lo' := if lo > 0 then lo - 1 else 0;
      if hi > 0 {
        DigitRunIff(s[1..], lo', hi - 1);
        if AllDigits(s[1..]) && IsAsciiDigit(s[0]) {
          forall k | 0 <= k < |s| ensures IsAsciiDigit(s[k]) {
            if k > 0 { assert s[k] == s[1..][k - 1]; }
          }
        }
        if AllDigits(s) {
          assert IsAsciiDigit(s[0]);
          forall k | 0 <= k < |s| - 1 ensures IsAsciiDigit(s[1..][k]) {
            assert s[1..][k] == s[k + 1];
          }
        }
      }
    }
  }

  lemma PhoneValidIffRegex(s: string)
    ensures PhoneValid(s) <==> PhoneRegex(s)
  {
    DigitRunIff(s, 10, 15);
  }

  // ---------------------------------------------------------------------
  // The email pattern ^\S+@\S+\.\S+$
  // ---------------------------------------------------------------------

  /** \S+ matching a whole piece: at least one non-whitespace character. */
  predicate NonSpaceRun(s: string) {
    s != [] && NoWhitespace(s)
  }

  /** The pattern as a regular language: the string splits as a@b.c with
      each of a, b and c a non-empty run of non-whitespace characters. */
  ghost predicate EmailRegex(s: string) {
    exists a, b, c :: NonSpaceRun(a) && NonSpaceRun(b) && NonSpaceRun(c) && s == a + "@" + b + "." + c
  }

  /** The same test read off by positions: no whitespace anywhere, an '@'
      with at least one character before it, and a later '.' with at least
      one character between them and at least one after it. */
  predicate EmailValid(s: string) {
    && NoWhitespace(s)
    && exists i, j :: 1 <= i && i + 2 <= j <= |s| - 2 && s[i] == '@' && s[j] == '.'
  }

  lemma EmailRegexOfSplit(s: string, i: int, j: int)
    requires NoWhitespace(s)
    requires 1 <= i && i + 2 <= j <= |s| - 2 && s[i] == '@' && s[j] == '.'
    ensures EmailRegex(s)
  {
    var a, b, c := s[..i], s[i + 1..j], s[j + 1..];
    assert s == a + "@" + b + "." + c;
    assert NonSpaceRun(a) && NonSpaceRun(b) && NonSpaceRun(c) by {
      forall k | 0 <= k < |a| ensures a[k] == s[k] { }
      forall k | 0 <= k < |b| ensures b[k] == s[i + 1 + k] { }
      forall k | 0 <= k < |c| ensures c[k] == s[j + 1 + k] { }
    }
  }

  lemma SplitOfEmailRegex(s: string, a: string, b: string, c: string)
    requires NonSpaceRun(a) && NonSpaceRun(b) && NonSpaceRun(c)
    requires s == a + "@" + b + "." + c
    ensures EmailValid(s)
  {
    var i, j := |a|, |a| + 1 + |b|;
    assert s[i] == '@' && s[j] == '.';
    forall k | 0 <= k < |s| ensures !IsWhitespace(s[k]) {
      if k < i {
        assert s[k] == a[k];
      } else if i < k < j {
        assert s[k] == b[k - i - 1];
      } else if j < k {
        assert s[k] == c[k - j - 1];
      }
    }
  }

  lemma EmailValidIffRegex(s: string)
    ensures EmailValid(s) <==> EmailRegex(s)
  {
    if EmailValid(s) {
      var i, j :| 1 <= i && i + 2 <= j <= |s| - 2 && s[i] == '@' && s[j] == '.';
      EmailRegexOfSplit(s, i, j);
    }
    if EmailRegex(s) {
      var a, b, c :| NonSpaceRun(a) && NonSpaceRun(b) && NonSpaceRun(c) && s == a + "@" + b + "." + c;
      SplitOfEmailRegex(s, a, b, c);
    }
  }

  // ---------------------------------------------------------------------
  // validate
  // ---------------------------------------------------------------------

  /** What each field must satisfy, in the terms the checks are written in:
      the name is not blank once trimmed, the date and the department are
      not the empty string, the phone and the email match their patterns. */
  ghost predicate Accepted(form: Form, f: Field) {
    match f
    case Name => Trim(form.name) != ""
    case Dob => form.dob != ""
    case Phone => PhoneRegex(form.phone)
    case Email => EmailRegex(form.email)
    case DepartmentId => form.departmentId != ""
  }

  const AllFields: set<Field> := {Name, Dob, Phone, Email, DepartmentId}

  ghost predicate FormAccepted(form: Form) {
    forall f :: Accepted(form, f)
  }

  /** The message recorded under a failing field. */
  function ErrorMessage(f: Field): string {
    match f
    case Name => "Name is required"
    case Dob => "Date of birth is required"
    case Phone => "Phone must be 10-15 digits"
    case Email => "Email is invalid"
    case DepartmentId => "Please select a department"
  }

  /** One of the five checks, as `validate` performs it on the form. */
  predicate FieldPasses(form: Form, f: Field) {
    match f
    case Name => !AllWhitespace(form.name)
    case Dob => form.dob != ""
    case Phone => PhoneValid(form.phone)
    case Email => EmailValid(form.email)
    case DepartmentId => form.departmentId != ""
  }

  lemma FieldPassesIffAccepted(form: Form)
    ensures forall f :: FieldPasses(form, f) <==> Accepted(form, f)
  {
    TrimEmptyIffAllWhitespace(form.name);
    PhoneValidIffRegex(form.phone);
    EmailValidIffRegex(form.email);
  }

  /** The error map `validate` builds: all five checks run, and the keys
      are exactly the fields that fail, each with its own message. */
  function ValidationErrors(form: Form): (errs: map<Field, string>)
    ensures forall f :: f in errs <==> !Accepted(form, f)
    ensures forall f :: f in errs ==> errs[f] == ErrorMessage(f)
  {
    var errs := map f | f in AllFields && !FieldPasses(form, f) :: ErrorMessage(f);
    assert forall f :: f in errs <==> !FieldPasses(form, f) by {
      forall f ensures f in AllFields {
        assert f.Name? || f.Dob? || f.Phone? || f.Email? || f.DepartmentId?;
      }
    }
    FieldPassesIffAccepted(form);
    errs
  }

  /** `validate` returns true (no key in the error map) exactly when every
      field is accepted. */
  lemma NoErrorsIffAccepted(form: Form)
    ensures |ValidationErrors(form)| == 0 <==> FormAccepted(form)
    ensures ValidationErrors(form) == map[] <==> FormAccepted(form)
  {
  }

  /** The blank form fails all five checks. */
  lemma EmptyFormFailsEveryField()
    ensures ValidationErrors(EmptyForm).Keys == {Name, Dob, Phone, Email, DepartmentId}
  {
  }

  lemma PhoneExamples()
    ensures !PhoneRegex("12345")
    ensures PhoneRegex("1234567890")
  {
    PhoneValidIffRegex("12345");
    PhoneValidIffRegex("1234567890");
  }

  lemma EmailExamples()
    ensures !EmailRegex("a@b")
    ensures EmailRegex("a@b.com")
  {
    EmailValidIffRegex("a@b");
    EmailRegexOfSplit("a@b.com", 1, 3);
  }

  /** A complete sample submission passes, and the department "0" counts
      as present: only the empty string is rejected. */
  lemma SampleFormAccepted(department: string)
    requires department == "1" || department == "0"
    ensures ValidationErrors(Form("Alice", "1990-05-01", "5551234567", "a@x.com", department)) == map[]
  {
    var form := Form("Alice", "1990-05-01", "5551234567", "a@x.com", department);
    assert FieldPasses(form, Name) by {
      assert !IsWhitespace(form.name[0]);
    }
    assert FieldPasses(form, Email) by {
      assert form.email[1] == '@' && form.email[3] == '.';
    }
    assert FieldPasses(form, Phone) && FieldPasses(form, Dob) && FieldPasses(form, DepartmentId);
    assert forall f :: FieldPasses(form, f) by {
      forall f ensures FieldPasses(form, f) {
        assert f.Name? || f.Dob? || f.Phone? || f.Email? || f.DepartmentId?;
      }
    }
    FieldPassesIffAccepted(form);
    NoErrorsIffAccepted(form);
  }
}
