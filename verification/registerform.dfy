/** The sign-up page's client-side rules (parking-frontend Register.js): the
    password-strength meter with its colour and label, and the form check
    that runs before anything is sent. Text lengths are counted in chars. */
module RegisterForm {
  import opened Base

  // ------------------------------------------------------------ char classes

  predicate IsLowerAscii(c: char) { 'a' <= c <= 'z' }
  predicate IsUpperAscii(c: char) { 'A' <= c <= 'Z' }
  /** `\d` and `[0-9]`: ASCII digits only. */
  predicate IsAsciiDigit(c: char) { '0' <= c <= '9' }
  /** The class `[@$!%*?&]`. */
  predicate IsSpecial(c: char) {
    c == '@' || c == '$' || c == '!' || c == '%' || c == '*' || c == '?' || c == '&'
  }
  /** `[a-zA-Z0-9_]`. */
  predicate IsWordChar(c: char) {
    IsLowerAscii(c) || IsUpperAscii(c) || IsAsciiDigit(c) || c == '_'
  }

  /** JavaScript's `\s`: the ASCII blanks, no-break space, the Unicode
      space separators, the line and paragraph separators and the BOM. */
  predicate IsJsSpace(c: char) {
    c == '\t' || c == '\n' || c == '\U{000B}' || c == '\U{000C}' || c == '\r' || c == ' ' ||
    c == '\U{00A0}' || c == '\U{1680}' || ('\U{2000}' <= c <= '\U{200A}') ||
    c == '\U{2028}' || c == '\U{2029}' || c == '\U{202F}' || c == '\U{205F}' ||
    c == '\U{3000}' || c == '\U{FEFF}'
  }

  predicate HasLower(s: string) { exists i :: 0 <= i < |s| && IsLowerAscii(s[i]) }
  predicate HasUpper(s: string) { exists i :: 0 <= i < |s| && IsUpperAscii(s[i]) }
  predicate HasDigit(s: string) { exists i :: 0 <= i < |s| && IsAsciiDigit(s[i]) }
  predicate HasSpecial(s: string) { exists i :: 0 <= i < |s| && IsSpecial(s[i]) }

  // ---------------------------------------------------------- strength meter

  /** The five criteria the meter scores. */
  datatype Criterion = Length | Lower | Upper | Digit | Special

  predicate Meets(pwd: string, c: Criterion) {
    match c
    case Length => |pwd| >= 8
    case Lower => HasLower(pwd)
    case Upper => HasUpper(pwd)
    case Digit => HasDigit(pwd)
    case Special => HasSpecial(pwd)
  }

  /** Every criterion, once. */
  const CRITERIA: seq<Criterion> := [Length, Lower, Upper, Digit, Special]

  /** How many of `cs` the password meets. */
  function {:induction false} CountMet(pwd: string, cs: seq<Criterion>): (n: nat)
    ensures n <= |cs|
    ensures n == |cs| <==> forall i :: 0 <= i < |cs| ==> Meets(pwd, cs[i])
    decreases |cs|
  {
    if cs == [] then 0
    else
      var rest := CountMet(pwd, cs[1..]);
      assert forall i :: 1 <= i < |cs| ==> cs[i] == cs[1..][i - 1];
      (if Meets(pwd, cs[0]) then 1 else 0) + rest
  }

  /** Meeting every listed criterion is meeting every criterion. */
  lemma AllListed(pwd: string)
    ensures (forall i :: 0 <= i < |CRITERIA| ==> Meets(pwd, CRITERIA[i])) <==> (forall c :: Meets(pwd, c))
  {
    if forall i :: 0 <= i < |CRITERIA| ==> Meets(pwd, CRITERIA[i]) {
      assert Meets(pwd, CRITERIA[0]) && Meets(pwd, CRITERIA[1]) && Meets(pwd, CRITERIA[2]);
      assert Meets(pwd, CRITERIA[3]) && Meets(pwd, CRITERIA[4]);
      forall c ensures Meets(pwd, c) {
        if c == Length { assert c == CRITERIA[0]; }
        else if c == Lower { assert c == CRITERIA[1]; }
        else if c == Upper { assert c == CRITERIA[2]; }
        else if c == Digit { assert c == CRITERIA[3]; }
        else { assert c == CRITERIA[4]; }
      }
    }
  }

  function Points(b: bool): nat { if b then 20 else 0 }

  /** The count over the full list, one criterion at a time. */
  lemma CountFive(pwd: string)
    ensures 20 * CountMet(pwd, CRITERIA) == Points(|pwd| >= 8) + Points(HasLower(pwd)) + Points(HasUpper(pwd))
                                          + Points(HasDigit(pwd)) + Points(HasSpecial(pwd))
  {
    var c4: seq<Criterion> := [Special];
    var c3: seq<Criterion> := [Digit, Special];
    var c2: seq<Criterion> := [Upper, Digit, Special];
    var c1: seq<Criterion> := [Lower, Upper, Digit, Special];
    assert c4[1..] == [];
    assert c3[1..] == c4;
    assert c2[1..] == c3;
    assert c1[1..] == c2;
    assert CRITERIA[1..] == c1;
  }

  /** `getStrength(pwd)`: 20 points for each criterion met. */
  function GetStrength(pwd: string): (strength: nat)
    ensures strength == 20 * CountMet(pwd, CRITERIA)
    ensures strength <= 100
    ensures strength == 100 <==> forall c :: Meets(pwd, c)
  {
    var strength := Points(|pwd| >= 8) + Points(HasLower(pwd)) + Points(HasUpper(pwd))
                  + Points(HasDigit(pwd)) + Points(HasSpecial(pwd));
    AllListed(pwd);
    CountFive(pwd);
    strength
  }

  datatype Color = Error | Warning | Success

  /** `getColor()`: error below 50, warning below 75, success otherwise. */
  function GetColor(strength: int): (c: Color)
    ensures c == Error <==> strength < 50
    ensures c == Success <==> strength >= 75
  {
    if strength < 50 then Error
    else if strength < 75 then Warning
    else Success
  }

  datatype Label = VeryWeak | Weak | Good | Strong | Excellent

  /** The label's position on the scale, weakest first. */
  function Rank(l: Label): nat {
    match l
    case VeryWeak => 0
    case Weak => 1
    case Good => 2
    case Strong => 3
    case Excellent => 4
  }

  /** The text shown after "Password strength: ". */
  function LabelText(l: Label): string {
    match l
    case VeryWeak => "Very Weak"
    case Weak => "Weak"
    case Good => "Good"
    case Strong => "Strong"
    case Excellent => "Excellent"
  }

  /** `getLabel()`: thresholds 40, 60, 80 and 100. */
  function GetLabel(strength: int): (l: Label)
    ensures l == Excellent <==> strength >= 100
    ensures l == VeryWeak <==> strength < 40
  {
    if strength < 40 then VeryWeak
    else if strength < 60 then Weak
    else if strength < 80 then Good
    else if strength < 100 then Strong
    else Excellent
  }

  /** A stronger score never gets a weaker label or colour. */
  lemma MeterMonotone(s: int, t: int)
    requires s <= t
    ensures Rank(GetLabel(s)) <= Rank(GetLabel(t))
    ensures GetColor(s) == Success ==> GetColor(t) == Success
    ensures GetColor(t) == Error ==> GetColor(s) == Error
  {
  }

  /** What the meter shows for each number of criteria met: none or one is
      "Very Weak" in red, two "Weak" in red, three "Good" in amber, four
      "Strong" and five "Excellent" in green. */
  lemma MeterByCount(pwd: string)
    ensures var n := CountMet(pwd, CRITERIA); var l := GetLabel(GetStrength(pwd)); var c := GetColor(GetStrength(pwd));
      && (n <= 1 ==> l == VeryWeak && c == Error)
      && (n == 2 ==> l == Weak && c == Error)
      && (n == 3 ==> l == Good && c == Warning)
      && (n == 4 ==> l == Strong && c == Success)
      && (n == 5 ==> l == Excellent && c == Success)
  {
  }

  /** The indicator: nothing for an empty password, otherwise the bar
      value, its colour and its label. */
  function Indicator(pwd: string): (r: Option<(nat, Color, Label)>)
    ensures r.None? <==> pwd == []
    ensures r.Some? ==> r.value.0 == GetStrength(pwd) && r.value.1 == GetColor(r.value.0)
                        && r.value.2 == GetLabel(r.value.0)
  {
    if pwd == [] then None
    else
      var s := GetStrength(pwd);
      Some((s, GetColor(s), GetLabel(s)))
  }


  // ------------------------------------------------------------- form check

  datatype Form = Form(username: string, email: string, password: string, confirmPassword: string)

  /** `/^[^\s@]+@[^\s@]+\.[^\s@]+$/`: one '@' at `i` after a non-empty
      part, and a '.' at `j` with text on both sides in what follows;
      every other char is neither '@' nor a blank. */
  predicate EmailPattern(e: string) {
    exists i, j :: 0 < i && i + 1 < j && j + 1 < |e| && e[i] == '@' && e[j] == '.' &&
      forall k :: 0 <= k < |e| && k != i ==> e[k] != '@' && !IsJsSpace(e[k])
  }

  /** The checks `validateForm` makes, in the order it makes them. */
  datatype Problem =
    | EmptyField | UsernameTooShort | UsernameChars | InvalidEmail
    | PasswordTooShort | NoLowercase | NoUppercase | NoDigit | NoSpecial
    | PasswordsDiffer | TermsNotAccepted

  function Order(p: Problem): nat {
    match p
    case EmptyField => 0
    case UsernameTooShort => 1
    case UsernameChars => 2
    case InvalidEmail => 3
    case PasswordTooShort => 4
    case NoLowercase => 5
    case NoUppercase => 6
    case NoDigit => 7
    case NoSpecial => 8
    case PasswordsDiffer => 9
    case TermsNotAccepted => 10
  }

  /** Whether the form exhibits problem `p`, each judged on its own. */
  predicate Has(f: Form, agreeTerms: bool, p: Problem) {
    match p
    case EmptyField => f.username == [] || f.email == [] || f.password == [] || f.confirmPassword == []
    case UsernameTooShort => |f.username| < 3
    case UsernameChars => !(|f.username| > 0 && forall k :: 0 <= k < |f.username| ==> IsWordChar(f.username[k]))
    case InvalidEmail => !EmailPattern(f.email)
    case PasswordTooShort => |f.password| < 8
    case NoLowercase => !HasLower(f.password)
    case NoUppercase => !HasUpper(f.password)
    case NoDigit => !HasDigit(f.password)
    case NoSpecial => !HasSpecial(f.password)
    case PasswordsDiffer => f.password != f.confirmPassword
    case TermsNotAccepted => !agreeTerms
  }

  /** The message `setError` receives for each problem. */
  function Message(p: Problem): string {
    match p
    case EmptyField => "Please fill in all fields"
    case UsernameTooShort => "Username must be at least 3 characters long"
    case UsernameChars => "Username can only contain letters, numbers, and underscores"
    case InvalidEmail => "Please provide a valid email address"
    case PasswordTooShort => "Password must be at least 8 characters long"
    case NoLowercase => "Password must contain at least one lowercase letter"
    case NoUppercase => "Password must contain at least one uppercase letter"
    case NoDigit => "Password must contain at least one digit"
    case NoSpecial => "Password must contain at least one special character (@$!%*?&)"
    case PasswordsDiffer => "Passwords do not match"
    case TermsNotAccepted => "Please agree to the terms and conditions"
  }

  /** `validateForm()`: `None` when the form may be sent, otherwise the
      first problem found; its message is what the page shows. */
  function ValidateForm(f: Form, agreeTerms: bool): (r: Option<Problem>)
    ensures r.None? <==> forall p :: !Has(f, agreeTerms, p)
    ensures r.Some? ==> Has(f, agreeTerms, r.value)
    ensures r.Some? ==> forall p :: Order(p) < Order(r.value) ==> !Has(f, agreeTerms, p)
  {
    if Has(f, agreeTerms, EmptyField) then Some(EmptyField)
    else if Has(f, agreeTerms, UsernameTooShort) then Some(UsernameTooShort)
    else if Has(f, agreeTerms, UsernameChars) then Some(UsernameChars)
    else if Has(f, agreeTerms, InvalidEmail) then Some(InvalidEmail)
    else if Has(f, agreeTerms, PasswordTooShort) then Some(PasswordTooShort)
    else if Has(f, agreeTerms, NoLowercase) then Some(NoLowercase)
    else if Has(f, agreeTerms, NoUppercase) then Some(NoUppercase)
    else if Has(f, agreeTerms, NoDigit) then Some(NoDigit)
    else if Has(f, agreeTerms, NoSpecial) then Some(NoSpecial)
    else if Has(f, agreeTerms, PasswordsDiffer) then Some(PasswordsDiffer)
    else if Has(f, agreeTerms, TermsNotAccepted) then Some(TermsNotAccepted)
    else None
  }

  /** An accepted form scores full marks on the meter. */
  lemma AcceptedIsExcellent(f: Form, agreeTerms: bool)
    requires ValidateForm(f, agreeTerms).None?
    ensures GetStrength(f.password) == 100
    ensures GetLabel(GetStrength(f.password)) == Excellent && GetColor(GetStrength(f.password)) == Success
  {
    assert !Has(f, agreeTerms, PasswordTooShort) && !Has(f, agreeTerms, NoLowercase);
    assert !Has(f, agreeTerms, NoUppercase) && !Has(f, agreeTerms, NoDigit) && !Has(f, agreeTerms, NoSpecial);
    assert forall c :: Meets(f.password, c);
  }

  /** An accepted username is at least three chars from `[A-Za-z0-9_]`; the
      two passwords agree and the terms were ticked. */
  lemma AcceptedUsername(f: Form, agreeTerms: bool)
    requires ValidateForm(f, agreeTerms).None?
    ensures |f.username| >= 3 && forall k :: 0 <= k < |f.username| ==> IsWordChar(f.username[k])
    ensures f.password == f.confirmPassword && agreeTerms
  {
    assert !Has(f, agreeTerms, UsernameTooShort) && !Has(f, agreeTerms, UsernameChars);
    assert !Has(f, agreeTerms, PasswordsDiffer) && !Has(f, agreeTerms, TermsNotAccepted);
  }

  /** An accepted email has exactly one '@' with text before it, no blank,
      and a '.' after the '@' with text on both sides. */
  lemma AcceptedEmail(f: Form, agreeTerms: bool)
    requires ValidateForm(f, agreeTerms).None?
    ensures exists i :: (0 < i < |f.email| && f.email[i] == '@' &&
      (forall k :: 0 <= k < |f.email| && f.email[k] == '@' ==> k == i) &&
      (exists j :: i + 1 < j < |f.email| - 1 && f.email[j] == '.'))
    ensures forall k :: 0 <= k < |f.email| ==> !IsJsSpace(f.email[k])
  {
    assert !Has(f, agreeTerms, InvalidEmail);
    var e := f.email;
    var i, j :| 0 < i && i + 1 < j && j + 1 < |e| && e[i] == '@' && e[j] == '.' &&
      forall k :: 0 <= k < |e| && k != i ==> e[k] != '@' && !IsJsSpace(e[k]);
    assert i + 1 < j < |e| - 1 && e[j] == '.';
  }

  /** An empty field is reported before anything else is looked at. */
  lemma EmptyFieldFirst(f: Form, agreeTerms: bool)
    requires f.username == [] || f.email == [] || f.password == [] || f.confirmPassword == []
    ensures ValidateForm(f, agreeTerms) == Some(EmptyField)
  {
  }

  /** `passwordsMatch`, the tick beside the confirmation field: both fields
      filled and equal. */
  function PasswordsMatch(f: Form): (ok: bool)
    ensures ok ==> !Has(f, true, PasswordsDiffer)
    ensures ok <==> f.password != [] && f.password == f.confirmPassword
  {
    f.password != [] && f.confirmPassword != [] && f.password == f.confirmPassword
  }
}
