/**
 * The console application's front door (ConsoleApp.cpp): the input check applied to
 * the username and password before any authentication, and which menu entries each
 * user group is shown and allowed to use.
 */
module ConsoleApp {
  import opened Common
  import PassUtils
  import DbHandler

  // ---------------------------------------------------------------------------
  // isValidInput: ^[a-zA-Z0-9_!@#$%^&*()\-_=+]{1,20}$
  // ---------------------------------------------------------------------------

  /** One item of a bracket expression: a range such as a-z, or a single character. */
  datatype ClassItem = Range(lo: char, hi: char) | Single(c: char)

  predicate ItemMatches(item: ClassItem, c: char) {
    match item
    case Range(lo, hi) => lo <= c <= hi
    case Single(x) => c == x
  }

  /** The bracket expression of the pattern, item by item as written (`_` appears twice, `\-` is a literal hyphen). */
  const PatternItems: seq<ClassItem> := [
    Range('a', 'z'), Range('A', 'Z'), Range('0', '9'),
    Single('_'), Single('!'), Single('@'), Single('#'), Single('$'), Single('%'), Single('^'),
    Single('&'), Single('*'), Single('('), Single(')'), Single('-'), Single('_'), Single('='), Single('+')]

  /** The `{1,20}` quantifier. */
  const MinInputLength := 1
  const MaxInputLength := 20

  predicate InPattern(c: char) {
    exists k :: 0 <= k < |PatternItems| && ItemMatches(PatternItems[k], c)
  }

  /** isValidInput: the whole string matches, so 1 to 20 characters, each in the bracket expression. */
  predicate IsValidInput(input: Text) {
    MinInputLength <= |input| <= MaxInputLength && forall i :: 0 <= i < |input| ==> InPattern(input[i])
  }

  /** The symbols the pattern admits besides letters and digits. */
  const InputSymbols: Text := "_!@#$%^&*()-=+"

  /** The same class in plain words: an ASCII letter, an ASCII digit, or one of InputSymbols. */
  predicate AllowedInputChar(c: char) {
    ('a' <= c <= 'z') || ('A' <= c <= 'Z') || ('0' <= c <= '9') || c in InputSymbols
  }

  lemma InPatternIff(c: char)
    ensures InPattern(c) <==> AllowedInputChar(c)
  {
    if AllowedInputChar(c) {
      AllowedIsInPattern(c);
    } else {
      forall k | 0 <= k < |PatternItems|
        ensures !ItemMatches(PatternItems[k], c)
      {
        if k >= 3 {
          assert PatternItems[k].c in InputSymbols;
        }
      }
    }
  }

  lemma AllowedIsInPattern(c: char)
    requires AllowedInputChar(c)
    ensures InPattern(c)
  {
    if 'a' <= c <= 'z' {
      assert ItemMatches(PatternItems[0], c);
    } else if 'A' <= c <= 'Z' {
      assert ItemMatches(PatternItems[1], c);
    } else if '0' <= c <= '9' {
      assert ItemMatches(PatternItems[2], c);
    } else {
      var j :| 0 <= j < |InputSymbols| && InputSymbols[j] == c;
      var k := if j <= 11 then j + 3 else j + 4;
      assert ItemMatches(PatternItems[k], c);
    }
  }

  /** isValidInput accepts exactly the 1-20 character strings over letters, digits and InputSymbols. */
  lemma IsValidInputIff(input: Text)
    ensures IsValidInput(input) <==>
      1 <= |input| <= 20 && forall i :: 0 <= i < |input| ==> AllowedInputChar(input[i])
  {
    forall i | 0 <= i < |input| {
      InPatternIff(input[i]);
    }
  }

  /** The empty string and anything over 20 characters are rejected, whatever they contain. */
  lemma LengthBounds(input: Text)
    requires |input| == 0 || |input| > MaxInputLength
    ensures !IsValidInput(input)
  {
  }

  /** A space, a dot or a quote anywhere makes the input invalid. */
  lemma RejectsOtherCharacters(input: Text, i: nat)
    requires i < |input| && input[i] in " .'\""
    ensures !IsValidInput(input)
  {
    InPatternIff(input[i]);
  }

  /** More than the "alphanumeric and underscores" the comment names: symbols such as `!` and `=` pass. */
  lemma AcceptsSymbols()
    ensures IsValidInput("a!b=c") && IsValidInput("-")
  {
    IsValidInputIff("a!b=c");
    IsValidInputIff("-");
  }

  /** Every password generateRandomPassword can return passes isValidInput. */
  lemma GeneratedPasswordIsValidInput(password: Text)
    requires |password| == PassUtils.PasswordLength
    requires forall i :: 0 <= i < |password| ==> password[i] in PassUtils.AllowedChars
    ensures IsValidInput(password)
  {
    forall i | 0 <= i < |password|
      ensures AllowedInputChar(password[i])
    {
      GeneratedCharIsAllowed(password[i]);
    }
    IsValidInputIff(password);
  }

  /** Each of the generator's four classes lies inside the pattern's class. */
  lemma GeneratedCharIsAllowed(c: char)
    requires c in PassUtils.AllowedChars
    ensures AllowedInputChar(c)
  {
    var lower, upper, digits, specials := PassUtils.Lowercase, PassUtils.Uppercase, PassUtils.Digits, PassUtils.Specials;
    assert PassUtils.AllowedChars == lower + upper + digits + specials;
    if c in lower {
      var i :| 0 <= i < |lower| && lower[i] == c;
      LetterAllowed(lower, i);
    } else if c in upper {
      var i :| 0 <= i < |upper| && upper[i] == c;
      LetterAllowed(upper, i);
    } else if c in digits {
      var i :| 0 <= i < |digits| && digits[i] == c;
      LetterAllowed(digits, i);
    } else {
      assert c in specials;
      var i :| 0 <= i < |specials| && specials[i] == c;
      SymbolAllowed(i);
    }
  }

  /** The letters and the digits run in order through their ranges. */
  lemma LetterAllowed(chars: Text, i: nat)
    requires chars in {PassUtils.Lowercase, PassUtils.Uppercase, PassUtils.Digits}
    requires i < |chars|
    ensures AllowedInputChar(chars[i])
  {
  }

  lemma SymbolAllowed(i: nat)
    requires i < |PassUtils.Specials|
    ensures AllowedInputChar(PassUtils.Specials[i])
  {
  }

  // ---------------------------------------------------------------------------
  // Menu gating in main and DisplayInfo
  // ---------------------------------------------------------------------------

  predicate CanOpenAdminMenu(group: Text) {
    group == "admin" || group == "manager"
  }

  predicate CanApplyInterest(group: Text) {
    group == "admin"
  }

  /** DisplayInfo: the numbers shown to a group, in display order; 0 is logout. */
  function MenuOptions(group: Text): (options: seq<int>)
    ensures 6 in options <==> CanOpenAdminMenu(group)
    ensures 7 in options <==> CanApplyInterest(group)
    ensures forall n :: 1 <= n <= 5 || n == 0 ==> n in options
  {
    [1, 2, 3, 4, 5] + (if CanOpenAdminMenu(group) then [6] else []) + (if CanApplyInterest(group) then [7] else []) + [0]
  }

  /** What the session loop in main does with a choice. */
  datatype Action =
    | DisplayBalance | AddToBalance | WithdrawFromBalance | ChangeServiceChoice | DisplayProjection
    | AdminMenu | ApplyMonthlyInterest | Logout | PermissionDenied | InvalidChoice

  function Dispatch(group: Text, choice: int): (a: Action)
    ensures a == AdminMenu ==> CanOpenAdminMenu(group)
    ensures a == ApplyMonthlyInterest ==> CanApplyInterest(group)
  {
    if choice == 1 then DisplayBalance
    else if choice == 2 then AddToBalance
    else if choice == 3 then WithdrawFromBalance
    else if choice == 4 then ChangeServiceChoice
    else if choice == 5 then DisplayProjection
    else if choice == 6 then (if CanOpenAdminMenu(group) then AdminMenu else PermissionDenied)
    else if choice == 7 then (if CanApplyInterest(group) then ApplyMonthlyInterest else PermissionDenied)
    else if choice == 0 then Logout
    else InvalidChoice
  }

  /**
   * The menu shows an option exactly when choosing it is neither refused nor unknown,
   * and interest is never open to a group that cannot also open the admin menu.
   */
  lemma MenuMatchesDispatch(group: Text, choice: int)
    ensures choice in MenuOptions(group) <==> Dispatch(group, choice) !in {PermissionDenied, InvalidChoice}
    ensures CanApplyInterest(group) ==> CanOpenAdminMenu(group)
  {
  }

  // ---------------------------------------------------------------------------
  // The login step of main
  // ---------------------------------------------------------------------------

  datatype LoginOutcome = InvalidFormat | Refused | LoggedIn(userId: int, userGroup: Text)

  /**
   * One pass of main's login loop after reading the two words: both must pass
   * isValidInput before CheckUserPermissionAccess is called at all.
   */
  method LoginStep(handler: DbHandler.Handler, user: Text, pass: Text, userId: int, userGroup: Text)
    returns (outcome: LoginOutcome)
    requires handler.Valid()
    modifies handler`loginAttempts
    ensures handler.Valid()
    ensures !IsValidInput(user) || !IsValidInput(pass) ==>
      outcome == InvalidFormat && handler.loginAttempts == old(handler.loginAttempts)
    ensures IsValidInput(user) && IsValidInput(pass) ==>
      var r := DbHandler.Authenticate(handler.derive, handler.users, old(handler.loginAttempts), user, pass);
      handler.loginAttempts == r.1 && (outcome.LoggedIn? <==> r.0) && (outcome.InvalidFormat? == false)
    ensures outcome.LoggedIn? ==>
      var row := DbHandler.FindByName(handler.users, user);
      row.Some? && outcome.userId == row.value.userId && outcome.userGroup == row.value.userGroup
  {
    if !IsValidInput(user) || !IsValidInput(pass) {
      return InvalidFormat;
    }
    var ok, id, group := handler.CheckUserPermissionAccess(user, pass, userId, userGroup);
    if ok {
      outcome := LoggedIn(id, group);
    } else {
      outcome := Refused;
    }
  }
}
