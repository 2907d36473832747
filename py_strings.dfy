/**
 * The two Python string operations the generic message formatter chains:
 * `s.replace("--", "-")`, one left-to-right pass over non-overlapping
 * occurrences, and `s.strip("-")`, which drops every leading and trailing
 * dash. CollapseRuns is an independent, run-by-run description of the first.
 */
module PyStrings {

  /** n copies of the separator '-'. */
  function Dashes(n: nat): (r: string)
    ensures |r| == n
    ensures forall i :: 0 <= i < n ==> r[i] == '-'
  {
    seq(n, _ => '-')
  }

  /** Python `s.replace("--", "-")`. */
  function ReplaceDoubleDash(s: string): (r: string)
    ensures |r| <= |s|
    decreases |s|
  {
    if |s| >= 2 && s[0] == '-' && s[1] == '-' then "-" + ReplaceDoubleDash(s[2..])
    else if s == [] then []
    else [s[0]] + ReplaceDoubleDash(s[1..])
  }

  /** Length of the run of dashes that starts s. */
  function LeadingRun(s: string): (n: nat)
    ensures n <= |s|
    ensures forall i :: 0 <= i < n ==> s[i] == '-'
    ensures n < |s| ==> s[n] != '-'
  {
    if s != [] && s[0] == '-' then 1 + LeadingRun(s[1..]) else 0
  }

  /** Every maximal run of n dashes replaced by ceil(n/2) dashes; other characters kept. */
  function CollapseRuns(s: string): (r: string)
    decreases |s|
  {
    if s == [] then []
    else if s[0] != '-' then [s[0]] + CollapseRuns(s[1..])
    else
      var n := LeadingRun(s);
      Dashes((n + 1) / 2) + CollapseRuns(s[n..])
  }

  /** One run of n dashes followed by a non-dash (or nothing) shrinks to ceil(n/2). */
  lemma {:induction false} ReplaceRun(n: nat, t: string)
    requires t == [] || t[0] != '-'
    ensures ReplaceDoubleDash(Dashes(n) + t) == Dashes((n + 1) / 2) + ReplaceDoubleDash(t)
    decreases n
  {
    var s := Dashes(n) + t;
    if n == 0 {
      assert s == t;
    } else if n == 1 {
      assert s[0] == '-' && s[1..] == t;
      ReplaceUnfoldOne(s);
      RegroupHead([], "-", ReplaceDoubleDash(t), [s[0]] + ReplaceDoubleDash(s[1..]), Dashes(1));
    } else {
      assert s[0] == '-' && s[1] == '-' && s[2..] == Dashes(n - 2) + t;
      ReplaceUnfoldPair(s);
      ReplaceRun(n - 2, t);
      assert Dashes((n + 1) / 2) == "-" + Dashes((n - 1) / 2);
      RegroupHead("-", Dashes((n - 1) / 2), ReplaceDoubleDash(t), ReplaceDoubleDash(s), Dashes((n + 1) / 2));
    }
  }

  /** The single replace pass is exactly the run-by-run halving, rounded up. */
  lemma {:induction false} ReplaceIsCollapseRuns(s: string)
    ensures ReplaceDoubleDash(s) == CollapseRuns(s)
    decreases |s|
  {
    if s == [] {
    } else if s[0] != '-' {
      ReplaceIsCollapseRuns(s[1..]);
    } else {
      var n := LeadingRun(s);
      assert s == Dashes(n) + s[n..];
      ReplaceRun(n, s[n..]);
      ReplaceIsCollapseRuns(s[n..]);
    }
  }

  /** The collapse is incomplete: three or more dashes still leave a doubled dash. */
  lemma LongRunSurvives(n: nat)
    requires n >= 3
    ensures ReplaceDoubleDash(Dashes(n)) == Dashes((n + 1) / 2)
    ensures |ReplaceDoubleDash(Dashes(n))| >= 2
  {
    ReplaceRun(n, []);
    assert Dashes(n) + [] == Dashes(n);
  }

  /** A string without two adjacent dashes. */
  predicate NoDoubleDash(s: string) {
    forall i :: 0 <= i < |s| - 1 ==> !(s[i] == '-' && s[i + 1] == '-')
  }

  /** The replace pass removes exactly the doubled dashes: it is the identity on strings without one. */
  lemma {:induction false} ReplaceIdentity(s: string)
    ensures ReplaceDoubleDash(s) == s <==> NoDoubleDash(s)
    decreases |s|
  {
    if |s| >= 2 && s[0] == '-' && s[1] == '-' {
      assert !NoDoubleDash(s);
    } else if s != [] {
      ReplaceIdentity(s[1..]);
      assert NoDoubleDash(s) <==> NoDoubleDash(s[1..]) by {
        if NoDoubleDash(s[1..]) {
          forall i | 0 <= i < |s| - 1 ensures !(s[i] == '-' && s[i + 1] == '-') {
            if i > 0 { assert s[i] == s[1..][i - 1] && s[i + 1] == s[1..][i]; }
          }
        }
        if NoDoubleDash(s) {
          forall i | 0 <= i < |s[1..]| - 1 ensures !(s[1..][i] == '-' && s[1..][i + 1] == '-') {
            assert s[1..][i] == s[i + 1] && s[1..][i + 1] == s[i + 2];
          }
        }
      }
      if ReplaceDoubleDash(s) == s {
        assert ReplaceDoubleDash(s[1..]) == s[1..];
      }
    }
  }

  /** A dash-free text in front of the rest passes through the replace pass unchanged. */
  lemma {:induction false} ReplaceKeepsDashFreePrefix(p: string, t: string)
    requires '-' !in p
    ensures ReplaceDoubleDash(p + t) == p + ReplaceDoubleDash(t)
    decreases |p|
  {
    if p == [] {
      assert p + t == t;
    } else {
      assert (p + t)[0] == p[0] && (p + t)[1..] == p[1..] + t;
      assert '-' !in p[1..];
      ReplaceKeepsDashFreePrefix(p[1..], t);
      assert p[0] != '-';
      assert ReplaceDoubleDash(p + t) == [p[0]] + ReplaceDoubleDash(p[1..] + t);
      assert [p[0]] + (p[1..] + ReplaceDoubleDash(t)) == p + ReplaceDoubleDash(t);
    }
  }

  /** A dash-free text is its own replace. */
  lemma ReplaceDashFree(p: string)
    requires '-' !in p
    ensures ReplaceDoubleDash(p) == p
  {
    ReplaceKeepsDashFreePrefix(p, []);
    assert p + [] == p;
  }

  /** The two short runs the message formatter meets, spelled out. */
  lemma ShortDashes()
    ensures Dashes(3) == "---" && Dashes(2) == "--"
  {
  }

  /** A separator followed by a non-empty dash-free field is not a doubled dash. */
  lemma {:induction false} ReplaceKeepsField(f: string, t: string)
    requires f != [] && '-' !in f
    ensures ReplaceDoubleDash("-" + f + t) == "-" + f + ReplaceDoubleDash(t)
  {
    var s := "-" + f + t;
    assert s[1] == f[0] && s[1..] == f + t;
    ReplaceKeepsDashFreePrefix(f, t);
  }

  /** The pass consumes a leading doubled dash as one unit. */
  lemma ReplaceUnfoldPair(s: string)
    requires |s| >= 2 && s[0] == '-' && s[1] == '-'
    ensures ReplaceDoubleDash(s) == "-" + ReplaceDoubleDash(s[2..])
  {
  }

  /** Any other leading character is copied. */
  lemma ReplaceUnfoldOne(s: string)
    requires s != [] && !(|s| >= 2 && s[0] == '-' && s[1] == '-')
    ensures ReplaceDoubleDash(s) == [s[0]] + ReplaceDoubleDash(s[1..])
  {
  }

  /** ReplaceUnfoldPair for a text p + t whose p starts with the doubled dash. */
  lemma ReplaceUnfoldPairConcat(p: string, t: string)
    requires |p| >= 2 && p[0] == '-' && p[1] == '-'
    ensures ReplaceDoubleDash(p + t) == "-" + ReplaceDoubleDash(p[2..] + t)
  {
    var s := p + t;
    assert s[0] == '-' && s[1] == '-' && s[2..] == p[2..] + t;
    ReplaceUnfoldPair(s);
  }

  /** ReplaceUnfoldOne for a text p + t when p does not end in a dash. */
  lemma ReplaceUnfoldOneConcat(p: string, t: string)
    requires p != [] && p[|p| - 1] != '-' && !(|p| >= 2 && p[0] == '-' && p[1] == '-')
    ensures ReplaceDoubleDash(p + t) == [p[0]] + ReplaceDoubleDash(p[1..] + t)
  {
    var s := p + t;
    assert p[0] == '-' ==> |p| >= 2 && p[1] != '-';
    assert s[0] == p[0] && s[1..] == p[1..] + t;
    assert |p| >= 2 ==> s[1] == p[1];
    ReplaceUnfoldOne(s);
  }

  /** Re-bracketing of the pass's output around a consumed head h. */
  lemma RegroupHead(h: string, a: string, b: string, whole: string, part: string)
    requires whole == h + (a + b) && part == h + a
    ensures whole == part + b
  {
  }

  /** ReplaceConcat's step for a leading doubled dash in p. */
  lemma ConcatStepPair(p: string, t: string)
    requires |p| >= 2 && p[0] == '-' && p[1] == '-'
    requires ReplaceDoubleDash(p[2..] + t) == ReplaceDoubleDash(p[2..]) + ReplaceDoubleDash(t)
    ensures ReplaceDoubleDash(p + t) == ReplaceDoubleDash(p) + ReplaceDoubleDash(t)
  {
    ReplaceUnfoldPairConcat(p, t);
    ReplaceUnfoldPair(p);
    RegroupHead("-", ReplaceDoubleDash(p[2..]), ReplaceDoubleDash(t), ReplaceDoubleDash(p + t), ReplaceDoubleDash(p));
  }

  /** ReplaceConcat's step for a copied leading character of p. */
  lemma ConcatStepOne(p: string, t: string)
    requires p != [] && p[|p| - 1] != '-' && !(|p| >= 2 && p[0] == '-' && p[1] == '-')
    requires ReplaceDoubleDash(p[1..] + t) == ReplaceDoubleDash(p[1..]) + ReplaceDoubleDash(t)
    ensures ReplaceDoubleDash(p + t) == ReplaceDoubleDash(p) + ReplaceDoubleDash(t)
  {
    ReplaceUnfoldOneConcat(p, t);
    ReplaceUnfoldOne(p);
    RegroupHead([p[0]], ReplaceDoubleDash(p[1..]), ReplaceDoubleDash(t), ReplaceDoubleDash(p + t), ReplaceDoubleDash(p));
  }

  /** No pair of dashes straddles a boundary after a non-dash: the pass works on each side alone. */
  lemma {:induction false} ReplaceConcat(p: string, t: string)
    requires p == [] || p[|p| - 1] != '-'
    ensures ReplaceDoubleDash(p + t) == ReplaceDoubleDash(p) + ReplaceDoubleDash(t)
    decreases |p|
  {
    if p == [] {
      assert p + t == t;
    } else if |p| >= 2 && p[0] == '-' && p[1] == '-' {
      ReplaceConcat(p[2..], t);
      ConcatStepPair(p, t);
    } else {
      ReplaceConcat(p[1..], t);
      ConcatStepOne(p, t);
    }
  }

  /** Appending a separator and a non-empty dash-free field after a non-dash keeps both. */
  lemma {:induction false} ReplaceAppendField(p: string, f: string)
    requires p != [] && p[|p| - 1] != '-'
    requires f != [] && '-' !in f
    ensures ReplaceDoubleDash(p + "-" + f) == ReplaceDoubleDash(p) + "-" + f
  {
    assert p + "-" + f == p + ("-" + f);
    ReplaceConcat(p, "-" + f);
    ReplaceKeepsField(f, []);
    assert "-" + f + [] == "-" + f;
    assert [] + [] == ReplaceDoubleDash([]);
  }

  /** Python `s.lstrip("-")`. */
  function StripLeading(s: string): (r: string)
    ensures |r| <= |s| && r == s[|s| - |r|..]
    ensures forall i :: 0 <= i < |s| - |r| ==> s[i] == '-'
    ensures r == [] || r[0] != '-'
  {
    if s != [] && s[0] == '-' then StripLeading(s[1..]) else s
  }

  /** Python `s.rstrip("-")`. */
  function StripTrailing(s: string): (r: string)
    ensures |r| <= |s| && r == s[..|r|]
    ensures forall i :: |r| <= i < |s| ==> s[i] == '-'
    ensures r == [] || r[|r| - 1] != '-'
  {
    if s != [] && s[|s| - 1] == '-' then StripTrailing(s[..|s| - 1]) else s
  }

  /** r is the slice of s at i, and everything outside that slice is a dash. */
  predicate TrimmedAt(s: string, r: string, i: nat) {
    i + |r| <= |s| && r == s[i..i + |r|]
    && (forall j :: 0 <= j < i ==> s[j] == '-')
    && (forall j :: i + |r| <= j < |s| ==> s[j] == '-')
  }

  /** Python `s.strip("-")`. */
  function StripDashes(s: string): (r: string)
    ensures |r| <= |s|
    ensures exists i: nat :: TrimmedAt(s, r, i)
    ensures r == [] || (r[0] != '-' && r[|r| - 1] != '-')
    ensures r == [] <==> forall i :: 0 <= i < |s| ==> s[i] == '-'
  {
    var l := StripLeading(s);
    var r := StripTrailing(l);
    assert r != [] ==> r[0] == l[0];
    var i := |s| - |l|;
    assert r == s[i..i + |r|];
    assert forall j :: i + |r| <= j < |s| ==> s[j] == l[j - i];
    assert TrimmedAt(s, r, i);
    r
  }

  /** Stripping a second time changes nothing. */
  lemma {:induction false} StripDashesIdempotent(s: string)
    ensures StripDashes(StripDashes(s)) == StripDashes(s)
  {
    var r := StripDashes(s);
    if r != [] {
      assert StripLeading(r) == r;
      assert StripTrailing(r) == r;
    }
  }

  /** Stripping keeps a leading dash-free text that has something after it or is non-empty. */
  lemma {:induction false} StripKeepsDashFreePrefix(p: string, t: string)
    requires p != [] && '-' !in p
    ensures |StripDashes(p + t)| >= |p| && StripDashes(p + t)[..|p|] == p
  {
    var s := p + t;
    assert s[0] == p[0];
    assert StripLeading(s) == s;
    var r := StripTrailing(s);
    assert s[|p| - 1] == p[|p| - 1];
    assert s[|p| - 1] != '-';
    assert r[..|p|] == s[..|p|];
  }
}
