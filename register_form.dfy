/** The registration form of the client: the per-field rules `validate`
    applies, the client's own password pattern, and the `handleSubmit` gate. */
module RegisterForm {
  import opened JsString
  import opened Constants

  datatype FormField = Name | Email | Password | ConfirmPassword

  /** `Object.keys(formData)`, in the order the state object lists them. */
  const Fields: seq<FormField> := [Name, Email, Password, ConfirmPassword]

  datatype FormData = FormData(name: string, email: string, password: string, confirmPassword: string)

  /** `formData[field]` */
  function Value(form: FormData, f: FormField): string {
    match f
    case Name => form.name
    case Email => form.email
    case Password => form.password
    case ConfirmPassword => form.confirmPassword
  }

  /** `{ ...prev, [field]: value }` */
  function SetValue(form: FormData, f: FormField, v: string): (r: FormData)
    ensures Value(r, f) == v
    ensures forall g :: g != f ==> Value(r, g) == Value(form, g)
  {
    match f
    case Name => form.(name := v)
    case Email => form.(email := v)
    case Password => form.(password := v)
    case ConfirmPassword => form.(confirmPassword := v)
  }

  // ---------------------------------------------------------------------
  // REGEX_PATTERNS.PASSWORD = /^(?=.*[A-Z])(?=.*\d)[A-Za-z\d@$!%*?&]{8,}$/
  // (REGEX_PATTERNS.EMAIL is the server's pattern, character for character:
  // it is `IsEmail` of the constants.)

  /** `[A-Za-z\d@$!%*?&]`: unlike the server's class it admits '*' and not '#'. */
  predicate FrontPasswordChar(c: char) {
    || IsLower(c) || IsUpper(c) || IsDigit(c)
    || c == '@' || c == '$' || c == '!' || c == '%' || c == '*' || c == '?' || c == '&'
  }

  ghost predicate FrontPasswordRegex(s: string) {
    && Lookahead(s, UpperLetter) && Lookahead(s, DecimalDigit)
    && |s| >= 8 && forall i :: 0 <= i < |s| ==> FrontPasswordChar(s[i])
  }

  /** `REGEX_PATTERNS.PASSWORD.test(s)` */
  predicate IsFrontPassword(s: string) {
    && |s| >= 8 && (forall i :: 0 <= i < |s| ==> FrontPasswordChar(s[i]))
    && Has(s, UpperLetter) && Has(s, DecimalDigit)
  }

  lemma FrontPasswordDecision(s: string)
    ensures IsFrontPassword(s) <==> FrontPasswordRegex(s)
  {
    if IsFrontPassword(s) {
      forall k | k == UpperLetter || k == DecimalDigit ensures Lookahead(s, k) {
        var i :| 0 <= i < |s| && InClass(s[i], k);
        forall j | 0 <= j < i ensures !IsLineTerminator(s[j]) {
          assert FrontPasswordChar(s[j]);
        }
      }
    }
  }

  /** The two password rules disagree in both directions. */
  lemma PasswordRulesDiffer()
    ensures IsFrontPassword("Abcd123*") && !IsComplexPassword("Abcd123*")
    ensures !IsFrontPassword("Abcd123#") && IsComplexPassword("Abcd123#")
  {
    var p := "Abcd123*";
    assert InClass(p[0], UpperLetter) && InClass(p[4], DecimalDigit);
    assert !PasswordChar(p[7]);
    var q := "Abcd123#";
    assert InClass(q[1], LowerLetter) && InClass(q[0], UpperLetter);
    assert InClass(q[4], DecimalDigit) && InClass(q[7], Symbol);
    assert !FrontPasswordChar(q[7]);
  }

  /** A password the server accepts passes the client's rule too unless it
      holds a '#'. */
  lemma ServerPasswordPassesClient(s: string)
    requires IsComplexPassword(s) && '#' !in s
    ensures IsFrontPassword(s)
  {
    forall i | 0 <= i < |s| ensures FrontPasswordChar(s[i]) {
      assert PasswordChar(s[i]) && s[i] != '#';
    }
  }

  // ---------------------------------------------------------------------
  // validate

  const NameRequired := "Name is required"
  const NameHasDigit := "Name cannot contain numbers"
  const EmailInvalid := "Invalid email address"
  const PasswordTooWeak := "Password must be at least 8 characters, include a number and uppercase letter"
  const ConfirmMismatch := "Passwords do not match"

  /** What each field must satisfy for its error to be cleared. */
  predicate FieldOk(f: FormField, v: string, password: string) {
    match f
    case Name => !AllSpace(v) && !Has(v, DecimalDigit)
    case Email => IsEmail(v)
    case Password => IsFrontPassword(v)
    case ConfirmPassword => v == password
  }

  /** The message `validate` stores for `field` given its value and the
      password currently in the form. */
  function FieldError(f: FormField, v: string, password: string): (r: string)
    ensures r == "" <==> FieldOk(f, v, password)
    ensures f == Name ==> (r == NameRequired <==> AllSpace(v))
    ensures f == Name ==> (r == NameHasDigit <==> !AllSpace(v) && Has(v, DecimalDigit))
    ensures f == ConfirmPassword ==> (r == "" <==> v == password)
  {
    match f
    case Name =>
      if Trim(v) == "" then NameRequired
      else if Has(v, DecimalDigit) then NameHasDigit
      else ""
    case Email => if IsEmail(v) then "" else EmailInvalid
    case Password => if IsFrontPassword(v) then "" else PasswordTooWeak
    case ConfirmPassword => if v == password then "" else ConfirmMismatch
  }

  /** `validate(field, value)`: a copy of the errors with one entry rewritten. */
  function Validate(errors: map<FormField, string>, f: FormField, v: string, password: string): (r: map<FormField, string>)
    ensures f in r && r[f] == FieldError(f, v, password)
    ensures forall g :: g != f ==> (g in r <==> g in errors)
    ensures forall g :: g != f && g in errors ==> r[g] == errors[g]
  {
    errors[f := FieldError(f, v, password)]
  }

  /** `Object.values(errors).some((error) => error)` */
  predicate HasErrors(errors: map<FormField, string>) {
    exists f :: f in errors && errors[f] != ""
  }

  /** Every field passes its rule. */
  predicate FormValid(form: FormData) {
    forall f :: FieldOk(f, Value(form, f), form.password)
  }

  // ---------------------------------------------------------------------
  // handleSubmit

  /** One `validate` call of `handleSubmit`: `setErrors({...errors, [name]: msg})`
      builds the new state from the rendered `errors` and replaces the whole
      state, so the state the previous call set is not read. */
  function StaleStep(rendered: map<FormField, string>, current: map<FormField, string>, form: FormData, f: FormField)
    : map<FormField, string>
  {
    Validate(rendered, f, Value(form, f), form.password)
  }

  /** The state after the calls on `fs`, one after another, starting from the
      rendered `errors`. */
  function StaleRound(errors: map<FormField, string>, form: FormData, fs: seq<FormField>): map<FormField, string>
    decreases |fs|
  {
    if fs == [] then errors
    else StaleStep(errors, StaleRound(errors, form, fs[..|fs| - 1]), form, fs[|fs| - 1])
  }

  /** Only the last call survives: the round is the last field's `validate`
      applied to the rendered `errors`, and every other field keeps the entry
      it had when the page was rendered. */
  lemma StaleRoundLast(errors: map<FormField, string>, form: FormData, fs: seq<FormField>)
    requires fs != []
    ensures var f := fs[|fs| - 1];
      StaleRound(errors, form, fs) == Validate(errors, f, Value(form, f), form.password)
    ensures forall g :: g != fs[|fs| - 1] ==>
      (g in StaleRound(errors, form, fs) <==> g in errors)
      && (g in errors ==> StaleRound(errors, form, fs)[g] == errors[g])
  {
  }

  /** What `handleSubmit` sets `errors` to, and whether it posts: the decision
      reads the `errors` of the render, not the ones just computed. */
  function SubmitAsWritten(form: FormData, errors: map<FormField, string>): (r: (map<FormField, string>, bool))
    ensures r.1 <==> !HasErrors(errors)
    ensures forall g :: g != ConfirmPassword ==> (g in r.0 <==> g in errors)
    ensures forall g :: g != ConfirmPassword && g in errors ==> r.0[g] == errors[g]
    ensures ConfirmPassword in r.0 && (r.0[ConfirmPassword] == "" <==> form.confirmPassword == form.password)
  {
    (StaleRound(errors, form, Fields), !HasErrors(errors))
  }

  /** A fresh form submitted untouched is posted, although every field fails. */
  lemma UntouchedFormIsPosted()
    ensures SubmitAsWritten(FormData("", "", "", ""), map[]).1
    ensures forall f :: !FieldOk(f, Value(FormData("", "", "", ""), f), "") || f == ConfirmPassword
  {
    assert !IsEmail("");
  }

  /** Each call folded into the previous one's result, as a functional state
      update `setErrors((prev) => ...)` would do. */
  function ValidateAll(errors: map<FormField, string>, form: FormData, fs: seq<FormField>): (r: map<FormField, string>)
    ensures forall g :: g in r <==> g in errors || g in fs
    ensures forall g :: g in fs ==> r[g] == FieldError(g, Value(form, g), form.password)
    ensures forall g :: g !in fs && g in errors ==> r[g] == errors[g]
    decreases |fs|
  {
    if fs == [] then errors
    else
      var prev := ValidateAll(errors, form, fs[..|fs| - 1]);
      assert forall g :: g in fs <==> g in fs[..|fs| - 1] || g == fs[|fs| - 1] by {
        assert fs == fs[..|fs| - 1] + [fs[|fs| - 1]];
      }
      Validate(prev, fs[|fs| - 1], Value(form, fs[|fs| - 1]), form.password)
  }

  /** `Object.keys(formData)` names every field of the form. */
  lemma EveryFieldListed(g: FormField)
    ensures g in Fields
  {
    assert Fields[0] == Name && Fields[1] == Email && Fields[2] == Password && Fields[3] == ConfirmPassword;
  }

  /** `handleSubmit` deciding on the errors it has just computed. */
  function SubmitChecked(form: FormData, errors: map<FormField, string>): (r: (map<FormField, string>, bool))
    ensures forall g :: g in r.0 && r.0[g] == FieldError(g, Value(form, g), form.password)
    ensures r.1 <==> FormValid(form)
  {
    var checked := ValidateAll(errors, form, Fields);
    assert forall g :: g in Fields by {
      forall g ensures g in Fields {
        EveryFieldListed(g);
      }
    }
    (checked, !HasErrors(checked))
  }

  /** With the check in place the untouched form is held back. */
  lemma UntouchedFormIsHeldBack()
    ensures !SubmitChecked(FormData("", "", "", ""), map[]).1
  {
    assert !FieldOk(Email, "", "") by { assert !IsEmail(""); }
  }

  /** One more field validated extends the fold by one call. */
  lemma ValidateAllStep(errors: map<FormField, string>, form: FormData, fs: seq<FormField>, i: nat)
    requires i < |fs|
    ensures ValidateAll(errors, form, fs[..i + 1])
            == Validate(ValidateAll(errors, form, fs[..i]), fs[i], Value(form, fs[i]), form.password)
  {
    assert fs[..i + 1][..i] == fs[..i];
  }

  /** The `forEach` over the fields with each `validate` building on the
      previous one's result. */
  method ValidateEach(errors: map<FormField, string>, form: FormData) returns (r: map<FormField, string>)
    ensures r == ValidateAll(errors, form, Fields)
  {
    r := errors;
    var i := 0;
    while i < |Fields|
      invariant 0 <= i <= |Fields|
      invariant r == ValidateAll(errors, form, Fields[..i])
    {
      var f := Fields[i];
      ValidateAllStep(errors, form, Fields, i);
      r := Validate(r, f, Value(form, f), form.password);
      i := i + 1;
    }
    assert Fields[..|Fields|] == Fields;
  }

  /** The component's state, as far as the form logic goes. `posted` lists
      the bodies handed to `axios.post`. */
  class RegisterPage {
    var form: FormData
    var errors: map<FormField, string>
    var posted: seq<FormData>

    constructor ()
      ensures form == FormData("", "", "", "") && errors == map[] && posted == []
    {
      form := FormData("", "", "", "");
      errors := map[];
      posted := [];
    }

    /** `handleChange(field)(event)`: store the value, validate it against
        the password of the form as rendered. */
    method HandleChange(f: FormField, v: string)
      modifies this
      ensures form == SetValue(old(form), f, v)
      ensures errors == Validate(old(errors), f, v, old(form).password)
      ensures unchanged(`posted)
    {
      var password := form.password;
      form := SetValue(form, f, v);
      errors := Validate(errors, f, v, password);
    }

    /** `handleSubmit` as written: the `forEach` calls `validate` on each
        field, each call computing from the rendered `errors`; the last
        `setErrors` wins, and the decision reads the rendered `errors`. */
    method HandleSubmit()
      modifies this
      ensures (errors, |posted| > |old(posted)|) == SubmitAsWritten(old(form), old(errors))
      ensures posted == old(posted) + (if SubmitAsWritten(old(form), old(errors)).1 then [old(form)] else [])
      ensures unchanged(`form)
    {
      var rendered := errors;
      var pending := errors;
      var i := 0;
      while i < |Fields|
        invariant 0 <= i <= |Fields|
        invariant pending == StaleRound(rendered, form, Fields[..i])
      {
        var f := Fields[i];
        assert Fields[..i + 1][..i] == Fields[..i];
        pending := Validate(rendered, f, Value(form, f), form.password);
        i := i + 1;
      }
      assert Fields[..|Fields|] == Fields;
      errors := pending;
      var hasErrors := exists g :: g in rendered && rendered[g] != "";
      if !hasErrors {
        posted := posted + [form];
      }
    }

    /** `handleSubmit` with each call folded into the last and the decision
        taken on the result. */
    method HandleSubmitChecked()
      modifies this
      ensures (errors, |posted| > |old(posted)|) == SubmitChecked(old(form), old(errors))
      ensures posted == old(posted) + (if FormValid(old(form)) then [old(form)] else [])
      ensures unchanged(`form)
    {
      var pending := ValidateEach(errors, form);
      var hasErrors := HasErrors(pending);
      errors := pending;
      if !hasErrors {
        posted := posted + [form];
      }
    }
  }
}
