/** The shared constants of the back end: the two validation patterns, the
    status-code table and the response messages. */
module Constants {
  import opened JsString

  /** The status-code table. */
  datatype StatusCode = Ok | Created | BadRequest | Unauthorized | Conflict | ServerError

  function Code(s: StatusCode): (n: int)
    ensures 200 <= n < 600
    ensures n < 300 <==> s == Ok || s == Created
  {
    match s
    case Ok => 200
    case Created => 201
    case BadRequest => 400
    case Unauthorized => 401
    case Conflict => 409
    case ServerError => 500
  }

  /** No two entries of the table share a number. */
  lemma CodesDistinct(a: StatusCode, b: StatusCode)
    ensures Code(a) == Code(b) ==> a == b
  {
  }

  /** The `MESSAGES` table, one entry per wording; `Text` gives the wording. */
  datatype Message =
    | RequiredFields | InvalidEmail | PasswordMismatch | WeakPassword | UserExists
    | UserCreated | LoginRequired | InvalidCredentials | ServerErrorMessage

  function Text(m: Message): string {
    match m
    case RequiredFields => "All fields are required"
    case InvalidEmail => "Invalid email format"
    case PasswordMismatch => "Passwords do not match"
    case WeakPassword => "Password must be at least 8 characters long and include uppercase, lowercase, number, and special character"
    case UserExists => "User already registered"
    case UserCreated => "User registered successfully"
    case LoginRequired => "Email and password are required"
    case InvalidCredentials => "Invalid email or password"
    case ServerErrorMessage => "Server error"
  }

  function LoginSuccess(name: string): (m: string)
    ensures |m| == |name| + 8 && m[..8] == "Welcome " && m[8..] == name
  {
    "Welcome " + name
  }

  // ---------------------------------------------------------------------
  // REGEX.EMAIL = /^[^\s@]+@[^\s@]+\.[^\s@]+$/

  /** `[^\s@]` */
  predicate EmailChar(c: char) {
    !IsSpace(c) && c != '@'
  }

  /** `[^\s@]+` matching `s[lo..hi]`: the caller keeps `lo < hi`. */
  predicate EmailRange(s: string, lo: int, hi: int) {
    forall i :: lo <= i < hi && 0 <= i < |s| ==> EmailChar(s[i])
  }

  /** The anchored pattern matches `s` with its '@' at `a` and its escaped '.' at `d`. */
  predicate EmailMatchAt(s: string, a: int, d: int) {
    && 0 < a && a + 1 < d && d + 1 < |s| && s[a] == '@' && s[d] == '.'
    && EmailRange(s, 0, a) && EmailRange(s, a + 1, d) && EmailRange(s, d + 1, |s|)
  }

  /** What the regular expression accepts: some way of placing the '@' and the '.'. */
  ghost predicate EmailRegex(s: string) {
    exists a, d :: EmailMatchAt(s, a, d)
  }

  /** After position `a` there is a '.' with a character on either side of it. */
  predicate DotAfter(s: string, a: nat) {
    exists d :: a + 1 < d < |s| - 1 && s[d] == '.'
  }

  /** `REGEX.EMAIL.test(s)`, decided by locating the first '@'. */
  predicate IsEmail(s: string) {
    match IndexOf(s, '@')
    case None => false
    case Some(a) => 0 < a && NoSpace(s) && (forall i :: a < i < |s| ==> s[i] != '@') && DotAfter(s, a)
  }

  /** The decision procedure accepts exactly the strings the pattern matches. */
  lemma EmailDecision(s: string)
    ensures IsEmail(s) <==> EmailRegex(s)
  {
    if IsEmail(s) {
      var a := IndexOf(s, '@').value;
      var d :| a + 1 < d < |s| - 1 && s[d] == '.';
      forall i | 0 <= i < a ensures s[i] != '@' {
        assert s[..a][i] == s[i];
      }
      assert EmailMatchAt(s, a, d);
    }
    if EmailRegex(s) {
      var a, d :| EmailMatchAt(s, a, d);
      IndexOfAt(s, a);
      assert s[d] == '.';
    }
  }

  /** The first '@' is at `a` when `s[a]` is one and none comes before it. */
  lemma IndexOfAt(s: string, a: nat)
    requires a < |s| && s[a] == '@' && forall i :: 0 <= i < a ==> s[i] != '@'
    ensures IndexOf(s, '@') == Some(a)
  {
    assert '@' !in s[..a];
  }

  /** An accepted address holds exactly one '@' and no white space. */
  lemma EmailOneAt(s: string)
    requires IsEmail(s)
    ensures Count(s, '@') == 1 && NoSpace(s)
  {
    var a := IndexOf(s, '@').value;
    assert s == s[..a] + [s[a]] + s[a + 1..];
    CountConcat(s[..a] + [s[a]], s[a + 1..], '@');
    CountConcat(s[..a], [s[a]], '@');
  }

  /** An accepted address is `local@domain` with a non-empty local part and a
      domain holding a '.' that has a non-empty run on either side. */
  lemma EmailParts(s: string)
    requires IsEmail(s)
    ensures exists a, d :: 0 < a && a + 1 < d < |s| - 1 && s[a] == '@' && s[d] == '.'
  {
    EmailDecision(s);
  }

  // ---------------------------------------------------------------------
  // REGEX.PASSWORD_COMPLEXITY =
  //   /^(?=.*[a-z])(?=.*[A-Z])(?=.*\d)(?=.*[@$!%?#&])[A-Za-z\d@$!%?#&]{8,}$/

  datatype CharClass = LowerLetter | UpperLetter | DecimalDigit | Symbol

  /** `[@$!%?#&]` */
  predicate IsSymbol(c: char) {
    c == '@' || c == '$' || c == '!' || c == '%' || c == '?' || c == '#' || c == '&'
  }

  /** `[a-z]`, `[A-Z]`, `\d`, `[@$!%?#&]` */
  predicate InClass(c: char, k: CharClass) {
    match k
    case LowerLetter => IsLower(c)
    case UpperLetter => IsUpper(c)
    case DecimalDigit => IsDigit(c)
    case Symbol => IsSymbol(c)
  }

  /** `(?=.*[k])` at the start of `s`: `.*` cannot step over a line terminator. */
  ghost predicate Lookahead(s: string, k: CharClass) {
    exists i :: 0 <= i < |s| && InClass(s[i], k)
      && forall j :: 0 <= j < i ==> !IsLineTerminator(s[j])
  }

  /** `[A-Za-z\d@$!%?#&]` */
  predicate PasswordChar(c: char) {
    IsLower(c) || IsUpper(c) || IsDigit(c) || IsSymbol(c)
  }

  /** What the pattern accepts, lookahead by lookahead. */
  ghost predicate PasswordRegex(s: string) {
    && Lookahead(s, LowerLetter) && Lookahead(s, UpperLetter)
    && Lookahead(s, DecimalDigit) && Lookahead(s, Symbol)
    && |s| >= 8 && forall i :: 0 <= i < |s| ==> PasswordChar(s[i])
  }

  predicate Has(s: string, k: CharClass) {
    exists i :: 0 <= i < |s| && InClass(s[i], k)
  }

  /** `REGEX.PASSWORD_COMPLEXITY.test(s)` */
  predicate IsComplexPassword(s: string) {
    && |s| >= 8 && (forall i :: 0 <= i < |s| ==> PasswordChar(s[i]))
    && Has(s, LowerLetter) && Has(s, UpperLetter) && Has(s, DecimalDigit) && Has(s, Symbol)
  }

  /** Inside a string made of pattern characters every lookahead is a plain
      "contains", so the decision procedure agrees with the pattern. */
  lemma PasswordDecision(s: string)
    ensures IsComplexPassword(s) <==> PasswordRegex(s)
  {
    if IsComplexPassword(s) {
      forall k ensures Lookahead(s, k) {
        var i :| 0 <= i < |s| && InClass(s[i], k);
        forall j | 0 <= j < i ensures !IsLineTerminator(s[j]) {
          assert PasswordChar(s[j]);
        }
      }
    }
  }

  /** Spaces and '*' can never appear in an accepted password. */
  lemma PasswordRejectsSpaceAndStar(s: string, i: int)
    requires IsComplexPassword(s) && 0 <= i < |s|
    ensures s[i] != ' ' && s[i] != '*'
  {
    assert PasswordChar(s[i]);
  }

  lemma PasswordExamples()
    ensures IsComplexPassword("Abcd1234!")
    ensures !IsComplexPassword("abc")
  {
    var p := "Abcd1234!";
    assert InClass(p[1], LowerLetter) && InClass(p[0], UpperLetter);
    assert InClass(p[4], DecimalDigit) && InClass(p[8], Symbol);
  }
}
