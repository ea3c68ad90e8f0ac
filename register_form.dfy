/** The registration wizard of the front end (frontend/js/register.js): the
    password-strength meter, the e-mail pattern, the three-step navigation
    and the checks run before the wizard leaves a step. */
module RegisterForm {
  import opened Common
  import opened Text

  // Character classes of the regular expressions.

  predicate IsLower(c: char) { 'a' <= c <= 'z' }
  predicate IsUpper(c: char) { 'A' <= c <= 'Z' }
  predicate IsDigit(c: char) { '0' <= c <= '9' }
  predicate IsAlnum(c: char) { IsLower(c) || IsUpper(c) || IsDigit(c) }
  predicate IsSymbol(c: char) { !IsAlnum(c) }

  /** `s.match(/[...]/)` for a one-character class: some character is in it. */
  predicate HasChar(s: string, cls: char -> bool)
  {
    exists i :: 0 <= i < |s| && cls(s[i])
  }

  // Password strength.

  /** The four criteria the meter awards one point each for. */
  datatype Criterion = LongEnough | MixedCase | WithDigit | WithSymbol

  const AllCriteria: set<Criterion> := {LongEnough, MixedCase, WithDigit, WithSymbol}

  predicate Meets(p: string, c: Criterion)
  {
    match c
    case LongEnough => |p| >= 8
    case MixedCase => HasChar(p, IsLower) && HasChar(p, IsUpper)
    case WithDigit => HasChar(p, IsDigit)
    case WithSymbol => HasChar(p, IsSymbol)
  }

  /** The criteria the password meets. */
  function Met(p: string): (r: set<Criterion>)
    ensures r <= AllCriteria
    ensures forall c :: c in r <==> Meets(p, c)
  {
    set c | c in AllCriteria && Meets(p, c)
  }

  /** The number of criteria met, the meter's `strength`. */
  function Score(p: string): (r: nat)
    ensures r <= 4
  {
    assert |AllCriteria| == 4;
    SubsetCard(Met(p), AllCriteria);
    |Met(p)|
  }

  lemma SubsetCard<T>(a: set<T>, b: set<T>)
    requires a <= b
    ensures |a| <= |b|
  {
    assert b == a + (b - a);
  }

  /** The label the meter shows, `Faible`, `Moyen` or `Fort`. */
  datatype StrengthLabel = Weak | Medium | Strong

  function LabelText(l: StrengthLabel): string
  {
    match l
    case Weak => "Faible"
    case Medium => "Moyen"
    case Strong => "Fort"
  }

  function LabelOf(strength: nat): StrengthLabel
  {
    if strength <= 1 then Weak else if strength == 2 || strength == 3 then Medium else Strong
  }

  function Point(b: bool): nat { if b then 1 else 0 }

  /** The criteria among `cs` that the password meets. */
  function MetAmong(p: string, cs: set<Criterion>): set<Criterion>
  {
    set c | c in cs && Meets(p, c)
  }

  lemma {:induction false} MetAmongAdd(p: string, cs: set<Criterion>, c: Criterion)
    requires c !in cs
    ensures |MetAmong(p, cs + {c})| == |MetAmong(p, cs)| + Point(Meets(p, c))
  {
    if Meets(p, c) {
      assert MetAmong(p, cs + {c}) == MetAmong(p, cs) + {c};
    } else {
      assert MetAmong(p, cs + {c}) == MetAmong(p, cs);
    }
  }

  /** The score is one point per criterion met. */
  lemma {:induction false} ScoreCounts(p: string)
    ensures Score(p) == Point(Meets(p, LongEnough)) + Point(Meets(p, MixedCase))
                        + Point(Meets(p, WithDigit)) + Point(Meets(p, WithSymbol))
  {
    var c0: set<Criterion> := {};
    assert MetAmong(p, c0) == {};
    MetAmongAdd(p, c0, LongEnough);
    MetAmongAdd(p, c0 + {LongEnough}, MixedCase);
    MetAmongAdd(p, c0 + {LongEnough} + {MixedCase}, WithDigit);
    MetAmongAdd(p, c0 + {LongEnough} + {MixedCase} + {WithDigit}, WithSymbol);
    assert c0 + {LongEnough} + {MixedCase} + {WithDigit} + {WithSymbol} == AllCriteria;
    assert MetAmong(p, AllCriteria) == Met(p);
  }

  /** `checkPasswordStrength`: no label for an empty password, otherwise the
      label of the number of criteria met. */
  method CheckPasswordStrength(password: string) returns (shown: Option<StrengthLabel>)
    ensures password == [] ==> shown == None
    ensures password != [] ==> shown == Some(LabelOf(Score(password)))
  {
    if |password| == 0 {
      return None;
    }
    var strength := 0;
    if |password| >= 8 {
      strength := strength + 1;
    }
    if HasChar(password, IsLower) && HasChar(password, IsUpper) {
      strength := strength + 1;
    }
    if HasChar(password, IsDigit) {
      strength := strength + 1;
    }
    if HasChar(password, IsSymbol) {
      strength := strength + 1;
    }
    ScoreCounts(password);
    shown := Some(LabelOf(strength));
  }

  /** A password is strong exactly when it meets all four criteria, and weak
      exactly when it meets at most one. */
  lemma {:induction false} StrengthLabels(p: string)
    ensures LabelOf(Score(p)) == Strong <==> Met(p) == AllCriteria
    ensures LabelOf(Score(p)) == Weak <==> Score(p) <= 1
    ensures LabelOf(Score(p)) == Medium <==> 2 <= Score(p) <= 3
  {
    if Met(p) != AllCriteria {
      var x :| x in AllCriteria - Met(p);
      SubsetCard(Met(p), AllCriteria - {x});
      assert |AllCriteria - {x}| == 3;
    }
  }

  lemma HasCharGrows(p: string, q: string, cls: char -> bool)
    requires HasChar(p, cls)
    ensures HasChar(p + q, cls)
  {
    var i :| 0 <= i < |p| && cls(p[i]);
    assert (p + q)[i] == p[i];
  }

  /** Typing more characters never lowers the score. */
  lemma {:induction false} ScoreGrows(p: string, q: string)
    ensures Score(p) <= Score(p + q)
  {
    forall c | c in Met(p)
      ensures c in Met(p + q)
    {
      match c
      case LongEnough =>
      case MixedCase => HasCharGrows(p, q, IsLower); HasCharGrows(p, q, IsUpper);
      case WithDigit => HasCharGrows(p, q, IsDigit);
      case WithSymbol => HasCharGrows(p, q, IsSymbol);
    }
    SubsetCard(Met(p), Met(p + q));
  }

  lemma StrengthExamples()
    ensures Score("Passw0rd!") == 4 && LabelOf(Score("Passw0rd!")) == Strong
    ensures Score("abc") == 0 && LabelOf(Score("abc")) == Weak
  {
    var s := "Passw0rd!";
    assert IsLower(s[1]) && IsUpper(s[0]) && IsDigit(s[5]) && IsSymbol(s[8]);
    ScoreCounts(s);
    var w := "abc";
    assert !HasChar(w, IsUpper) && !HasChar(w, IsDigit) && !HasChar(w, IsSymbol);
    ScoreCounts(w);
  }

  // The e-mail pattern `/^[^\s@]+@[^\s@]+\.[^\s@]+$/`.

  /** `[^\s@]+`: a non-empty run of characters that are neither whitespace nor '@'. */
  predicate Segment(s: string)
  {
    |s| > 0 && forall i :: 0 <= i < |s| ==> !IsJsSpace(s[i]) && s[i] != '@'
  }

  /** The pattern matches with its '@' at `k` and its '.' at `j`. */
  predicate MatchesAt(e: string, k: int, j: int)
  {
    0 <= k < j < |e| && e[k] == '@' && e[j] == '.'
    && Segment(e[..k]) && Segment(e[k + 1..j]) && Segment(e[j + 1..])
  }

  /** `isValidEmail`. */
  predicate IsValidEmail(email: string)
  {
    exists k, j | 0 <= k < j < |email| :: MatchesAt(email, k, j)
  }

  predicate NoSpace(e: string)
  {
    forall i :: 0 <= i < |e| ==> !IsJsSpace(e[i])
  }

  /** Position `k` holds the only '@' of `e`. */
  predicate OnlyAtAt(e: string, k: int)
  {
    0 <= k < |e| && e[k] == '@' && forall i :: 0 <= i < |e| && e[i] == '@' ==> i == k
  }

  /** The domain has a '.' with text on both sides. */
  predicate DotInside(d: string)
  {
    exists j :: 0 < j < |d| - 1 && d[j] == '.'
  }

  /** The pattern in words: no whitespace, exactly one '@', a non-empty
      local part, and a domain with a '.' that has text on both sides. */
  lemma {:induction false} EmailShape(e: string)
    ensures IsValidEmail(e) <==>
      NoSpace(e) && exists k :: OnlyAtAt(e, k) && k > 0 && DotInside(e[k + 1..])
  {
    if IsValidEmail(e) {
      var k, j :| 0 <= k < j < |e| && MatchesAt(e, k, j);
      forall i | 0 <= i < |e|
        ensures !IsJsSpace(e[i]) && (e[i] == '@' ==> i == k)
      {
        if i < k {
          assert e[..k][i] == e[i];
        } else if k < i < j {
          assert e[k + 1..j][i - k - 1] == e[i];
        } else if j < i {
          assert e[j + 1..][i - j - 1] == e[i];
        }
      }
      var d := e[k + 1..];
      assert d[j - k - 1] == '.';
      assert DotInside(d);
      assert OnlyAtAt(e, k);
    }
    if NoSpace(e) && exists k :: OnlyAtAt(e, k) && k > 0 && DotInside(e[k + 1..]) {
      var k :| OnlyAtAt(e, k) && k > 0 && DotInside(e[k + 1..]);
      var d := e[k + 1..];
      var jd :| 0 < jd < |d| - 1 && d[jd] == '.';
      var j := k + 1 + jd;
      assert e[j] == '.';
      var local, host, top := e[..k], e[k + 1..j], e[j + 1..];
      forall i | 0 <= i < |local| ensures !IsJsSpace(local[i]) && local[i] != '@' {
        assert local[i] == e[i];
      }
      forall i | 0 <= i < |host| ensures !IsJsSpace(host[i]) && host[i] != '@' {
        assert host[i] == e[k + 1 + i];
      }
      forall i | 0 <= i < |top| ensures !IsJsSpace(top[i]) && top[i] != '@' {
        assert top[i] == e[j + 1 + i];
      }
      assert MatchesAt(e, k, j);
    }
  }

  /** Three segments joined by '@' and '.' always pass. */
  lemma EmailOfParts(a: string, b: string, c: string)
    requires Segment(a) && Segment(b) && Segment(c)
    ensures IsValidEmail(a + "@" + b + "." + c)
  {
    var e := a + "@" + b + "." + c;
    var k, j := |a|, |a| + 1 + |b|;
    assert e[..k] == a && e[k + 1..j] == b && e[j + 1..] == c;
    assert MatchesAt(e, k, j);
  }

  /** An address with no '.' after its '@', or with a space, is refused. */
  lemma EmailExamples()
    ensures IsValidEmail("a@b.c")
    ensures !IsValidEmail("a@b")
    ensures !IsValidEmail("a b@c.d")
  {
    EmailOfParts("a", "b", "c");
    assert "a" + "@" + "b" + "." + "c" == "a@b.c";
    EmailShape("a b@c.d");
    assert IsJsSpace("a b@c.d"[1]);
  }

  // Navigation between the three steps.

  const TotalSteps := 3

  /** The step after `nextStep`. */
  function Next(step: int): (r: int)
    ensures 1 <= step <= TotalSteps ==> 1 <= r <= TotalSteps
    ensures step < TotalSteps ==> r == step + 1
    ensures step >= TotalSteps ==> r == step
  {
    if step < TotalSteps then step + 1 else step
  }

  /** The step after `prevStep`. */
  function Prev(step: int): (r: int)
    ensures 1 <= step <= TotalSteps ==> 1 <= r <= TotalSteps
    ensures step > 1 ==> r == step - 1
    ensures step <= 1 ==> r == step
  {
    if step > 1 then step - 1 else step
  }

  /** Going back undoes going forward, and the reverse, except at the ends. */
  lemma NextPrevInverse(step: int)
    requires 1 <= step <= TotalSteps
    ensures step < TotalSteps ==> Prev(Next(step)) == step
    ensures step > 1 ==> Next(Prev(step)) == step
  {
  }

  /** Which buttons `updateStepDisplay` shows. */
  datatype Buttons = Buttons(prev: bool, next: bool, submit: bool)

  function ButtonsFor(step: int): (r: Buttons)
    ensures 1 <= step <= TotalSteps ==> (r.next != r.submit)
    ensures r.submit <==> step == TotalSteps
    ensures r.prev <==> step > 1
  {
    Buttons(step > 1, step < TotalSteps, step == TotalSteps)
  }

  /** The page's navigation state, the global `currentStep`. */
  class Wizard {
    var currentStep: int

    predicate Valid()
      reads this
    {
      1 <= currentStep <= TotalSteps
    }

    constructor ()
      ensures currentStep == 1 && Valid()
    {
      currentStep := 1;
    }

    method NextStep()
      modifies this
      ensures currentStep == Next(old(currentStep))
      ensures old(Valid()) ==> Valid()
    {
      if currentStep < TotalSteps {
        currentStep := currentStep + 1;
      }
    }

    method PrevStep()
      modifies this
      ensures currentStep == Prev(old(currentStep))
      ensures old(Valid()) ==> Valid()
    {
      if currentStep > 1 {
        currentStep := currentStep - 1;
      }
    }
  }

  // The checks before leaving a step.

  /** `$(this).val().trim()` is not empty: some character is not whitespace. */
  predicate Filled(v: string)
  {
    exists i :: 0 <= i < |v| && !IsJsSpace(v[i])
  }

  /** The test is the one `trim` makes. */
  lemma FilledIsTrimmed(v: string)
    ensures Filled(v) <==> JsTrim(v) != []
  {
    TrimEmptyIff(v, IsJsSpace);
  }

  /** Every required field of the step is non-blank. */
  predicate RequiredFilled(required: seq<string>)
  {
    forall i :: 0 <= i < |required| ==> Filled(required[i])
  }

  /** The password is long enough for step 2: empty or at least 6 characters. */
  predicate PasswordLongEnough(p: string)
  {
    p == [] || |p| >= 6
  }

  /** The loop of `validateCurrentStep` over the step's required inputs. */
  method CheckRequired(required: seq<string>) returns (filled: bool)
    ensures filled <==> RequiredFilled(required)
  {
    filled := true;
    var i := 0;
    while i < |required|
      invariant 0 <= i <= |required|
      invariant filled == RequiredFilled(required[..i])
    {
      assert required[..i + 1] == required[..i] + [required[i]];
      if !Filled(required[i]) {
        filled := false;
      }
      i := i + 1;
    }
    assert required[..i] == required;
  }

  /** `validateCurrentStep`: `required` holds the values of the step's
      required inputs. */
  method ValidateCurrentStep(step: int, required: seq<string>, email: string,
                             password: string, confirm: string) returns (isValid: bool)
    ensures isValid <==>
      RequiredFilled(required)
      && (step == 1 && email != [] ==> IsValidEmail(email))
      && (step == 2 ==> PasswordLongEnough(password) && password == confirm)
  {
    isValid := CheckRequired(required);
    if step == 1 {
      if email != [] && !IsValidEmail(email) {
        isValid := false;
      }
    }
    if step == 2 {
      if password != [] && |password| < 6 {
        isValid := false;
      }
      if password != confirm {
        isValid := false;
      }
    }
  }

  /** `validatePasswordMatch`: an empty confirmation is not flagged. */
  function ValidatePasswordMatch(password: string, confirm: string): (r: bool)
  {
    !(confirm != [] && password != confirm)
  }

  /** The live check of the confirmation agrees with the step check: a
      confirmation that passes step 2 is never flagged, and a non-empty one
      that is not flagged is the password. */
  lemma MatchAgreesWithStep(password: string, confirm: string)
    ensures password == confirm ==> ValidatePasswordMatch(password, confirm)
    ensures confirm != [] ==> (ValidatePasswordMatch(password, confirm) <==> password == confirm)
    ensures confirm == [] ==> ValidatePasswordMatch(password, confirm)
  {
  }
}
