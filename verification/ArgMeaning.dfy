/**
 `argparse.py`: what a number of arguments means. Every action takes the longest stretch of the text whose arguments it
 admits, and is refused exactly when it admits none.
 */
module ArgMeaning {
  import opened ArgMatching
  import opened ArgPatterns
  import opened Sequences

  /** The arguments and options among the first `k` letters, without the dashes between them. */
  function Args(s: string, k: nat): (r: string)
    requires k <= |s|
  {
    if k == 0 then "" else Args(s, k - 1) + if s[k - 1] == '-' then "" else [s[k - 1]]
  }

  predicate AllLetters(t: string) {
    forall k | 0 <= k < |t| :: t[k] == 'A'
  }

  /** The arguments that an action is documented to take. */
  predicate Admits(nargs: Nargs, t: string) {
    match nargs
    case Default => |t| == 1 && AllLetters(t)
    case Optional => |t| <= 1 && AllLetters(t)
    case ZeroOrMore => AllLetters(t)
    case OneOrMore => |t| >= 1 && AllLetters(t)
    case Remainder => true
    case Parser => |t| >= 1 && t[0] == 'A'
    case Suppress => t == ""
    case Count(n) => |t| == (if n < 0 then 0 else n) && AllLetters(t)
  }

  /** The first `k` letters can be taken; an option does not reach across a dash. */
  predicate CanTake(nargs: Nargs, isOption: bool, s: string, k: nat) {
    k <= |s| && (isOption ==> '-' !in s[..k]) && Admits(nargs, Args(s, k))
  }

  /** `r` is the longest stretch that can be taken, if any can. */
  predicate IsLongestTaken(nargs: Nargs, isOption: bool, s: string, r: Option<nat>) {
    && (r.Some? ==> CanTake(nargs, isOption, s, r.value))
    && forall k | 0 <= k <= |s| && (r.Some? ==> k > r.value) :: !CanTake(nargs, isOption, s, k)
  }

  lemma {:induction false} ArgsGrow(s: string, k: nat, k': nat)
    requires k <= k' <= |s|
    ensures Args(s, k) <= Args(s, k')
  {
    if k < k' {
      ArgsGrow(s, k, k' - 1);
    }
  }

  lemma {:induction false} DashesAddNothing(s: string, k: nat, k': nat)
    requires k <= k' <= |s| && forall i | k <= i < k' :: s[i] == '-'
    ensures Args(s, k') == Args(s, k)
  {
    if k < k' {
      DashesAddNothing(s, k, k' - 1);
    }
  }

  /** What stands at `e`, if it is no dash, is among the arguments of every longer stretch. */
  lemma Reaches(s: string, e: nat, k: nat)
    requires e < k <= |s| && s[e] != '-'
    ensures Args(s, e) + [s[e]] <= Args(s, k)
  {
    ArgsGrow(s, e + 1, k);
  }

  lemma {:induction false} OnlyLetters(s: string, k: nat)
    requires k <= |s| && forall i | 0 <= i < k :: s[i] in "A-"
    ensures AllLetters(Args(s, k))
  {
    if k > 0 {
      OnlyLetters(s, k - 1);
    }
  }

  lemma {:induction false} NoDashes(s: string, k: nat)
    requires k <= |s| && '-' !in s[..k]
    ensures Args(s, k) == s[..k]
  {
    if k > 0 {
      assert s[..k] == s[..k - 1] + [s[k - 1]];
      assert s[k - 1] in s[..k];
      NoDashes(s, k - 1);
    }
  }

  // ---------- options ----------

  lemma OptionStretch(nargs: Nargs, s: string, k: nat)
    requires k <= |s|
    ensures CanTake(nargs, true, s, k) <==> '-' !in s[..k] && Admits(nargs, s[..k])
  {
    if '-' !in s[..k] {
      NoDashes(s, k);
    }
  }

  lemma OptionTaken(nargs: Nargs, s: string)
    requires Expected(nargs, true, s).Some?
    ensures CanTake(nargs, true, s, Expected(nargs, true, s).value)
  {
    var k := Expected(nargs, true, s).value;
    OptionStretch(nargs, s, k);
    hide CanTake, Args;
    assert forall i | 0 <= i < k :: s[..k][i] == s[i];
  }

  /** A longer stretch holds the letter at which the class of the option ends. */
  lemma OptionNotLonger(nargs: Nargs, s: string, k: nat)
    requires IsArgText(s) && k <= |s| && (Expected(nargs, true, s).Some? ==> k > Expected(nargs, true, s).value)
    ensures !CanTake(nargs, true, s, k)
  {
    OptionStretch(nargs, s, k);
    hide CanTake, Args;
    var t := s[..k];
    assert k >= 1 ==> t[0] == s[0];
    if Expected(nargs, true, s).Some? {
      var e := Expected(nargs, true, s).value;
      assert t[e] == s[e] && t[e] in t;
    } else if nargs.Count? && '-' !in t && Admits(nargs, t) {
      assert forall i | 0 <= i < k :: t[i] == s[i];
    }
  }

  lemma OptionTakes(nargs: Nargs, s: string)
    requires IsArgText(s)
    ensures IsLongestTaken(nargs, true, s, Expected(nargs, true, s))
  {
    hide CanTake, Expected;
    var r := Expected(nargs, true, s);
    if r.Some? {
      OptionTaken(nargs, s);
    }
    forall k | 0 <= k <= |s| && (r.Some? ==> k > r.value) ensures !CanTake(nargs, true, s, k) {
      OptionNotLonger(nargs, s, k);
    }
  }

  // ---------- positional arguments ----------

  /** `n` arguments more than `t`. */
  predicate HasMore(t: string, n: nat, u: string) {
    t <= u && |u| == |t| + n && AllLetters(u[|t|..])
  }

  lemma OneMore(t: string, n: nat, u: string)
    requires n >= 1
    ensures HasMore(t, n, u) <==> HasMore(t + ['A'], n - 1, u)
  {
    if HasMore(t, n, u) {
      assert u[|t|..][0] == u[|t|] == 'A';
      assert u[|t| + 1..] == u[|t|..][1..];
    }
    if HasMore(t + ['A'], n - 1, u) {
      assert u[|t|] == (t + ['A'])[|t|] == 'A';
      assert u[|t|..] == ['A'] + u[|t| + 1..];
    }
  }

  lemma NoneMore(t: string, n: nat, u: string)
    ensures HasMore(t, n, t) <==> n == 0
    ensures n >= 1 && t < u && u[|t|] != 'A' ==> !HasMore(t, n, u)
  {
    if n >= 1 && t < u && u[|t|] != 'A' {
      assert u[|t|..][0] == u[|t|];
    }
  }

  /** `n` more arguments after the first `i` letters, or no stretch that has them. */
  lemma {:induction false} CountTakes(s: string, n: nat, i: nat)
    requires IsArgText(s) && i <= |s|
    ensures var r := AfterLetters(s, n, i);
            && (r.Some? ==> i <= r.value && HasMore(Args(s, i), n, Args(s, r.value))
                            && (r.value < |s| ==> s[r.value] != '-'))
            && (r.None? ==> forall k | i <= k <= |s| :: !HasMore(Args(s, i), n, Args(s, k)))
    decreases n
  {
    hide HasMore, Args;
    var e, t := RunEnd(s, "-", i), Args(s, i);
    DashesAddNothing(s, i, e);
    NoneMore(t, n, t);
    if n > 0 {
      if LetterAt(s, e) {
        CountTakes(s, n - 1, e + 1);
        ArgsNext(s, e);
      }
      forall k | i <= k <= |s|
        ensures HasMore(t, n, Args(s, k)) ==> LetterAt(s, e) && k > e && HasMore(t + ['A'], n - 1, Args(s, k))
        ensures LetterAt(s, e) ==> (HasMore(t, n, Args(s, k)) <==> HasMore(t + ['A'], n - 1, Args(s, k)))
      {
        OneMore(t, n, Args(s, k));
        if k <= e {
          DashesAddNothing(s, i, k);
        } else {
          Reaches(s, e, k);
          NoneMore(t, n, Args(s, k));
        }
      }
    }
  }

  lemma ArgsNext(s: string, e: nat)
    requires LetterAt(s, e)
    ensures Args(s, e + 1) == Args(s, e) + ['A']
  {
  }

  /** Beyond the end of a stretch that no dash follows, one more argument is among those of every longer one. */
  lemma Ends(s: string, t: string, k: nat)
    requires k <= |s| && Args(s, k) == t && (k < |s| ==> s[k] != '-')
    ensures forall k' | k < k' <= |s| :: t <= Args(s, k') && |Args(s, k')| > |t| && Args(s, k')[|t|] == s[k]
    ensures forall k' | 0 <= k' <= k :: |Args(s, k')| <= |t|
  {
    forall k' | k < k' <= |s| ensures t <= Args(s, k') && |Args(s, k')| > |t| && Args(s, k')[|t|] == s[k] {
      Reaches(s, k, k');
      assert (t + [s[k]])[|t|] == s[k];
    }
    forall k' | 0 <= k' <= k ensures |Args(s, k')| <= |t| {
      ArgsGrow(s, k', k);
    }
  }

  /** The dashes in front, and the first argument behind them. */
  lemma FirstArgument(s: string)
    ensures var e := RunEnd(s, "-", 0);
            && Args(s, e) == "" && (e < |s| ==> s[e] != '-')
            && (LetterAt(s, e) ==> Args(s, e + 1) == "A")
  {
    DashesAddNothing(s, 0, RunEnd(s, "-", 0));
  }

  lemma CountPositional(n: int, s: string)
    requires IsArgText(s)
    ensures IsLongestTaken(Count(n), false, s, AfterLetters(s, n, 0))
  {
    var count := if n < 0 then 0 else n;
    CountTakes(s, count, 0);
    var r := AfterLetters(s, count, 0);
    assert r == AfterLetters(s, n, 0);
    forall t: string ensures t[0..] == t {
    }
    hide AfterLetters;
    if r.Some? {
      Ends(s, Args(s, r.value), r.value);
    }
    hide Args;
  }

  /** Up to one argument, and the dashes around it. */
  lemma OnePositional(nargs: Nargs, s: string)
    requires IsArgText(s) && (nargs.Default? || nargs.Optional? || nargs.Suppress?)
    ensures IsLongestTaken(nargs, false, s, Expected(nargs, false, s))
  {
    var e := RunEnd(s, "-", 0);
    FirstArgument(s);
    Ends(s, "", e);
    if LetterAt(s, e) && !nargs.Suppress? {
      var f := RunEnd(s, "-", e + 1);
      DashesAddNothing(s, e + 1, f);
      Ends(s, "A", f);
    }
    RunAgain(s, "-", 0);
    hide Args, RunEnd;
  }

  /** All arguments up to the first option. */
  lemma ManyPositional(nargs: Nargs, s: string)
    requires IsArgText(s) && (nargs.ZeroOrMore? || nargs.OneOrMore?)
    ensures IsLongestTaken(nargs, false, s, Expected(nargs, false, s))
  {
    var e, f := RunEnd(s, "-", 0), RunEnd(s, "A-", 0);
    FirstArgument(s);
    Ends(s, "", e);
    SkipFirst(s, 0);
    assert LetterAt(s, e) ==> RunEnd(s, "A-", e + 1) == f;
    OnlyLetters(s, f);
    Ends(s, Args(s, f), f);
    if LetterAt(s, e) {
      ArgsGrow(s, e + 1, f);
    }
    hide Args, RunEnd, IsLongestTaken;
    if nargs.ZeroOrMore? {
      AllTaken(s, f);
    } else if LetterAt(s, e) {
      SomeTaken(s, f);
    } else {
      NothingTaken(s, e);
    }
  }

  lemma AllTaken(s: string, f: nat)
    requires IsArgText(s) && f <= |s| && AllLetters(Args(s, f)) && (f < |s| ==> s[f] == 'O')
    requires forall k | f < k <= |s| :: |Args(s, k)| > |Args(s, f)| && Args(s, k)[|Args(s, f)|] == s[f]
    ensures IsLongestTaken(ZeroOrMore, false, s, Some(f))
  {
    hide Args;
  }

  lemma SomeTaken(s: string, f: nat)
    requires IsArgText(s) && f <= |s| && AllLetters(Args(s, f)) && Args(s, f) != "" && (f < |s| ==> s[f] == 'O')
    requires forall k | f < k <= |s| :: |Args(s, k)| > |Args(s, f)| && Args(s, k)[|Args(s, f)|] == s[f]
    ensures IsLongestTaken(OneOrMore, false, s, Some(f))
  {
    hide Args;
  }

  lemma NothingTaken(s: string, e: nat)
    requires IsArgText(s) && e <= |s| && (e < |s| ==> s[e] == 'O')
    requires forall k | e < k <= |s| :: |Args(s, k)| > 0 && Args(s, k)[0] == s[e]
    requires forall k | 0 <= k <= e :: |Args(s, k)| <= 0
    ensures IsLongestTaken(OneOrMore, false, s, None)
  {
    hide Args;
  }

  /** Everything, from the first argument on. */
  lemma RestPositional(nargs: Nargs, s: string)
    requires IsArgText(s) && (nargs.Remainder? || nargs.Parser?)
    ensures IsLongestTaken(nargs, false, s, Expected(nargs, false, s))
  {
    var e := RunEnd(s, "-", 0);
    FirstArgument(s);
    Ends(s, "", e);
    WholeRun(s, 0);
    if LetterAt(s, e) {
      WholeRun(s, e + 1);
    }
    hide Args, RunEnd;
  }

  /**
   Every action takes the longest stretch of the text whose arguments it admits, and matches nothing exactly when there
   is no such stretch.
   */
  lemma LongestTaken(nargs: Nargs, isOption: bool, s: string)
    requires IsArgText(s)
    ensures IsLongestTaken(nargs, isOption, s, MatchLength(GetNargsPattern(nargs, isOption), s))
  {
    MatchIsExpected(nargs, isOption, s);
    hide MatchLength, GetNargsPattern, IsLongestTaken;
    if isOption {
      OptionTakes(nargs, s);
    } else if nargs.Count? {
      CountPositional(nargs.n, s);
    } else if nargs.Default? || nargs.Optional? || nargs.Suppress? {
      OnePositional(nargs, s);
    } else if nargs.ZeroOrMore? || nargs.OneOrMore? {
      ManyPositional(nargs, s);
    } else {
      RestPositional(nargs, s);
    }
  }

  /** What the error message says is missing is what the action admits. */
  lemma RefusalMeaning(nargs: Nargs, isOption: bool, s: string)
    requires IsArgText(s) && MatchLength(GetNargsPattern(nargs, isOption), s).None?
    ensures var c := ComplaintFor(nargs);
            && c != ExpectedAtMostOne && (c.ExpectedNumber? ==> c.nargs == nargs)
            && (c == ExpectedOne ==> forall t | Admits(nargs, t) :: |t| == 1)
            && (c == ExpectedAtLeastOne ==> forall t :: Admits(nargs, t) <==> |t| >= 1 && AllLetters(t))
  {
    MatchIsExpected(nargs, isOption, s);
    hide MatchLength, GetNargsPattern;
  }
}
