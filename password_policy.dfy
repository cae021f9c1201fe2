/** The password requirement middleware of the registration chain
    (routes/register.js, second handler of POST '/'). */
module PasswordPolicy {
  import opened Wrappers

  const MinPasswordLength: nat := 8

  const TooShortMessage: string := "password should be atleast 8 characters!"
  const NoCapitalMessage: string := "Your password needs a capital letter!"
  const NoDigitMessage: string := "Your password needs atleast one number!"

  predicate IsCapital(c: char) { 'A' <= c <= 'Z' }

  predicate IsDigit(c: char) { '0' <= c <= '9' }

  /** The characters that `.` in a JavaScript regular expression without the
      `s` flag refuses to match. */
  predicate IsLineTerminator(c: char) {
    c == '\n' || c == '\r' || c == '\U{2028}' || c == '\U{2029}'
  }

  // ---------------------------------------------------------------------
  // What the policy means: the characters the password contains.

  predicate HasCapital(s: string) {
    exists k :: 0 <= k < |s| && IsCapital(s[k])
  }

  predicate HasDigit(s: string) {
    exists k :: 0 <= k < |s| && IsDigit(s[k])
  }

  // ---------------------------------------------------------------------
  // How the source tests it: `RegExp.prototype.test` on an unanchored,
  // non-global pattern tries a match at every start index 0..|s| in turn.

  /** `.*[A-Z]` matched from index `i`: a run of non-line-terminators
      (possibly empty) followed by a capital. */
  predicate DotStarCapitalAt(s: string, i: nat)
    decreases |s| - i
  {
    i < |s| && (IsCapital(s[i]) || (!IsLineTerminator(s[i]) && DotStarCapitalAt(s, i + 1)))
  }

  /** The lookahead `(?=.*[A-Z])` succeeds at some start index `>= i`. */
  predicate CapitalsSearchFrom(s: string, i: nat)
    decreases |s| - i
  {
    i <= |s| && (DotStarCapitalAt(s, i) || (i < |s| && CapitalsSearchFrom(s, i + 1)))
  }

  /** `new RegExp("(?=.*[A-Z])").test(s)` */
  predicate CapitalsRegexTest(s: string) {
    CapitalsSearchFrom(s, 0)
  }

  /** `[0-9]` matches at some start index `>= i`. */
  predicate DigitSearchFrom(s: string, i: nat)
    decreases |s| - i
  {
    i < |s| && (IsDigit(s[i]) || DigitSearchFrom(s, i + 1))
  }

  /** `new RegExp("[0-9]").test(s)` */
  predicate DigitRegexTest(s: string) {
    DigitSearchFrom(s, 0)
  }

  lemma {:induction false} DotStarCapitalAtFindsCapital(s: string, i: nat)
    requires DotStarCapitalAt(s, i)
    ensures exists k :: i <= k < |s| && IsCapital(s[k])
    decreases |s| - i
  {
    if !IsCapital(s[i]) {
      DotStarCapitalAtFindsCapital(s, i + 1);
    }
  }

  lemma {:induction false} CapitalsSearchFromIff(s: string, i: nat)
    requires i <= |s|
    ensures CapitalsSearchFrom(s, i) <==> exists k :: i <= k < |s| && IsCapital(s[k])
    decreases |s| - i
  {
    if i < |s| {
      CapitalsSearchFromIff(s, i + 1);
      if DotStarCapitalAt(s, i) {
        DotStarCapitalAtFindsCapital(s, i);
      }
      if exists k :: i <= k < |s| && IsCapital(s[k]) {
        var k :| i <= k < |s| && IsCapital(s[k]);
        if k > i {
          assert i + 1 <= k < |s| && IsCapital(s[k]);
        }
      }
    }
  }

  /** The lookahead regex accepts exactly the strings that contain a capital,
      anywhere, line terminators or not. */
  lemma CapitalsRegexTestIff(s: string)
    ensures CapitalsRegexTest(s) <==> HasCapital(s)
  {
    CapitalsSearchFromIff(s, 0);
  }

  lemma {:induction false} DigitSearchFromIff(s: string, i: nat)
    requires i <= |s|
    ensures DigitSearchFrom(s, i) <==> exists k :: i <= k < |s| && IsDigit(s[k])
    decreases |s| - i
  {
    if i < |s| {
      DigitSearchFromIff(s, i + 1);
      if exists k :: i <= k < |s| && IsDigit(s[k]) {
        var k :| i <= k < |s| && IsDigit(s[k]);
        if k > i {
          assert i + 1 <= k < |s| && IsDigit(s[k]);
        }
      }
    }
  }

  /** The digit regex accepts exactly the strings that contain a digit. */
  lemma DigitRegexTestIff(s: string)
    ensures DigitRegexTest(s) <==> HasDigit(s)
  {
    DigitSearchFromIff(s, 0);
  }

  // ---------------------------------------------------------------------
  // The rules, in the order the middleware checks them.

  datatype Rule = MinLength | Capital | Digit

  const Rules: seq<Rule> := [MinLength, Capital, Digit]

  predicate Holds(rule: Rule, password: string) {
    match rule
    case MinLength => |password| >= MinPasswordLength
    case Capital => HasCapital(password)
    case Digit => HasDigit(password)
  }

  function RuleMessage(rule: Rule): string {
    match rule
    case MinLength => TooShortMessage
    case Capital => NoCapitalMessage
    case Digit => NoDigitMessage
  }

  /** The first rule of `rules` that `password` breaks, if any. */
  function FirstFailing(rules: seq<Rule>, password: string): (r: Option<Rule>)
    ensures r.None? <==> forall j :: 0 <= j < |rules| ==> Holds(rules[j], password)
    ensures r.Some? ==> exists k :: 0 <= k < |rules| && rules[k] == r.value && !Holds(r.value, password)
                                    && forall j :: 0 <= j < k ==> Holds(rules[j], password)
  {
    if rules == [] then None
    else if !Holds(rules[0], password) then Some(rules[0])
    else
      var rest := FirstFailing(rules[1..], password);
      assert forall j :: 1 <= j < |rules| ==> rules[j] == rules[1..][j - 1];
      rest
  }

  predicate Acceptable(password: string) {
    |password| >= MinPasswordLength && HasCapital(password) && HasDigit(password)
  }

  // ---------------------------------------------------------------------
  // The middleware itself.

  datatype PasswordCheck = Accepted | Rejected(message: string)

  /** The if/else-if chain of the password middleware, as a value. */
  function CheckPassword(password: string): PasswordCheck {
    if |password| < MinPasswordLength then Rejected(TooShortMessage)
    else if !CapitalsRegexTest(password) then Rejected(NoCapitalMessage)
    else if !DigitRegexTest(password) then Rejected(NoDigitMessage)
    else Accepted
  }

  /** The middleware updates `validPassword` and `message` step by step and
      only then decides whether to answer or to pass the request on. */
  method ValidatePassword(password: string) returns (validPassword: bool, message: string)
    ensures validPassword <==> Acceptable(password)
    ensures validPassword ==> message == ""
    ensures !validPassword ==> CheckPassword(password) == Rejected(message)
  {
    validPassword := true;
    message := "";
    if |password| < MinPasswordLength {
      message := TooShortMessage;
      validPassword := false;
    } else if !CapitalsRegexTest(password) {
      message := NoCapitalMessage;
      validPassword := false;
    } else if !DigitRegexTest(password) {
      message := NoDigitMessage;
      validPassword := false;
    }
    CapitalsRegexTestIff(password);
    DigitRegexTestIff(password);
  }

  // ---------------------------------------------------------------------
  // Properties of the policy.

  /** A short password is refused for its length, whatever it contains. */
  lemma TooShortWins(password: string)
    requires |password| < MinPasswordLength
    ensures CheckPassword(password) == Rejected(TooShortMessage)
  {
  }

  lemma MissingCapitalReported(password: string)
    requires |password| >= MinPasswordLength && !HasCapital(password)
    ensures CheckPassword(password) == Rejected(NoCapitalMessage)
  {
    CapitalsRegexTestIff(password);
  }

  lemma MissingDigitReported(password: string)
    requires |password| >= MinPasswordLength && HasCapital(password) && !HasDigit(password)
    ensures CheckPassword(password) == Rejected(NoDigitMessage)
  {
    CapitalsRegexTestIff(password);
    DigitRegexTestIff(password);
  }

  lemma AcceptedIff(password: string)
    ensures CheckPassword(password) == Accepted <==> Acceptable(password)
  {
    CapitalsRegexTestIff(password);
    DigitRegexTestIff(password);
  }

  /** The middleware reports exactly the message of the first rule, in the
      order length, capital, digit, that the password breaks, and accepts
      it when it breaks none. */
  lemma FirstFailingRuleReported(password: string)
    ensures CheckPassword(password) == match FirstFailing(Rules, password)
                                       case None => Accepted
                                       case Some(rule) => Rejected(RuleMessage(rule))
  {
    CapitalsRegexTestIff(password);
    DigitRegexTestIff(password);
    var tail := [Digit];
    assert Rules[1..] == [Capital] + tail && tail[1..] == [];
    assert FirstFailing(tail, password)
      == if HasDigit(password) then None else Some(Digit);
    assert FirstFailing(Rules[1..], password)
      == if HasCapital(password) then FirstFailing(tail, password) else Some(Capital);
  }

  /** Different rules report different messages, so a message names one rule. */
  lemma MessagesIdentifyRule(a: Rule, b: Rule)
    ensures RuleMessage(a) == RuleMessage(b) ==> a == b
  {
  }
}
