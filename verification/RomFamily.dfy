/** The search for one family of devices: the first call after `target_search`, and the run that goes on
    from it. */
module RomFamily {
  import opened Options
  import opened RomCode
  import opened RomSearch

  /** The state `target_search` leaves: a family byte other than 0, zeros, and a "last discrepancy" of 64. */
  ghost predicate Targeted(st: SearchState) {
    && st.lastDiscrepancy == BITS && !st.lastDevice && !ZeroFamily(st.rom)
    && forall i | 8 <= i < BITS :: !st.rom[i]
  }

  /** The code that differs in the last bit only. */
  function Twin(c: Code): Code {
    c[BITS - 1 := !c[BITS - 1]]
  }

  // ----- The targeted call -----

  lemma LessTakesOne(a: Code, b: Code, i: nat)
    requires Less(a, b) && i < BITS && Agree(a, b, i) && a[i] != b[i]
    ensures !a[i] && b[i]
  {
    var k :| 0 <= k < BITS && Agree(a, b, k) && !a[k] && b[k];
    assert k < i || i < k || i == k;
  }

  /** `s` is the smallest device of the family of `p`. */
  ghost predicate Smallest(S: set<Code>, p: Code, s: Code) {
    s in S && SameFamily(s, p) && forall r | r in S && SameFamily(r, p) :: r == s || Less(s, r)
  }

  lemma DifferentIsTwin(S: set<Code>, p: Code, s: Code)
    requires Smallest(S, p, s) && forall i | 8 <= i < BITS :: !p[i]
    requires Chosen(S, p, BITS) != s
    ensures Chosen(S, p, BITS) == Twin(s)
  {
    var r := Chosen(S, p, BITS);
    TargetedPass(S, p, BITS, s);
    var i := FirstDifference(s, r, 8);
    LessTakesOne(s, r, i);
    DifferenceIsFork(S, r, s, i);
    assert r[i] == Choice(p, BITS, i);
    assert r == Twin(s);
  }

  lemma TwinIsTaken(S: set<Code>, p: Code, s: Code)
    requires Smallest(S, p, s) && Twin(s) in S
    ensures Chosen(S, p, BITS) != s && !s[BITS - 1]
  {
    var t := Twin(s);
    assert SameFamily(t, p) && Agree(s, t, BITS - 1);
    LessTakesOne(s, t, BITS - 1);
    DifferenceIsFork(S, s, t, BITS - 1);
    assert !Choice(p, BITS, BITS - 1) || Chosen(S, p, BITS) != s;
  }

  /** A fork at the last bit is taken at 1. So the targeted call finds the smallest device of the family,
      except when its twin is there: then it finds the twin. */
  lemma TargetedChoice(S: set<Code>, p: Code, s: Code)
    requires Smallest(S, p, s) && forall i | 8 <= i < BITS :: !p[i]
    ensures Chosen(S, p, BITS) == if Twin(s) in S then Twin(s) else s
  {
    if Twin(s) in S {
      TwinIsTaken(S, p, s);
    }
    if Chosen(S, p, BITS) != s {
      DifferentIsTwin(S, p, s);
    }
  }

  // ----- Places in the listing -----

  /** Places `i` to `i + n - 1` of the listing are the family of `p`. */
  ghost predicate FamilyAt(q: seq<Code>, p: Code, i: nat, n: nat) {
    && n > 0 && i + n <= |q|
    && forall j | 0 <= j < |q| :: SameFamily(q[j], p) <==> i <= j < i + n
  }

  lemma BetweenIsFamily(S: set<Code>, q: seq<Code>, i: nat, j: nat, k: nat)
    requires Lists(q, S) && i <= j <= k < |q| && SameFamily(q[i], q[k])
    ensures SameFamily(q[i], q[j])
  {
    if !SameFamily(q[i], q[j]) {
      var m := FirstDifference(q[i], q[j], 0);
      OrderOfListing(S, q, i, j);
      LessTakesOne(q[i], q[j], m);
      assert Agree(q[k], q[j], m) && !q[k][m] && q[j][m];
      OrderOfListing(S, q, k, j);
    }
  }

  /** The devices of a family that is present stand side by side in the listing. */
  lemma FamilyStands(S: set<Code>, q: seq<Code>, p: Code, s: Code) returns (i: nat, n: nat)
    requires Lists(q, S) && s in S && SameFamily(s, p)
    ensures FamilyAt(q, p, i, n)
  {
    var j :| 0 <= j < |q| && q[j] == s;
    i := j;
    while i > 0 && SameFamily(q[i - 1], p)
      invariant i <= j && forall m | i <= m <= j :: SameFamily(q[m], p)
    {
      i := i - 1;
    }
    var e := j + 1;
    while e < |q| && SameFamily(q[e], p)
      invariant j < e <= |q| && forall m | i <= m < e :: SameFamily(q[m], p)
    {
      e := e + 1;
    }
    n := e - i;
    forall m | 0 <= m < |q| ensures SameFamily(q[m], p) <==> i <= m < e {
      if SameFamily(q[m], p) && m < i {
        BetweenIsFamily(S, q, m, i - 1, j);
      } else if SameFamily(q[m], p) && m >= e {
        BetweenIsFamily(S, q, j, e, m);
      }
    }
  }

  lemma FirstIsSmallest(S: set<Code>, q: seq<Code>, p: Code, i: nat, n: nat)
    requires Lists(q, S) && FamilyAt(q, p, i, n)
    ensures Smallest(S, p, q[i])
  {
    forall r | r in S && SameFamily(r, p) ensures r == q[i] || Less(q[i], r) {
      var j :| 0 <= j < |q| && q[j] == r;
      OrderOfListing(S, q, i, j);
    }
  }

  /** Nothing comes between a code and its twin. */
  lemma NothingBetween(s: Code, c: Code)
    requires !s[BITS - 1] && Less(s, c)
    ensures c == Twin(s) || Less(Twin(s), c)
  {
    var k :| 0 <= k < BITS && Agree(s, c, k) && !s[k] && c[k];
    if k < BITS - 1 {
      assert Agree(Twin(s), c, k) && !Twin(s)[k];
    } else {
      assert c == Twin(s);
    }
  }

  lemma TwinIsNext(S: set<Code>, q: seq<Code>, i: nat)
    requires Lists(q, S) && i < |q| && !q[i][BITS - 1] && Twin(q[i]) in S
    ensures i + 1 < |q| && q[i + 1] == Twin(q[i])
  {
    var t := Twin(q[i]);
    var j :| 0 <= j < |q| && q[j] == t;
    assert Agree(q[i], t, BITS - 1) && t[BITS - 1];
    OrderOfListing(S, q, i, j);
    OrderOfListing(S, q, i, i + 1);
    NothingBetween(q[i], q[i + 1]);
    OrderOfListing(S, q, j, i + 1);
  }

  /** The place at which a targeted run starts, if the family begins at `i`. */
  ghost function Start(S: set<Code>, q: seq<Code>, i: nat): nat
    requires i < |q|
  {
    if Twin(q[i]) in S then i + 1 else i
  }

  lemma PlacesAfterAreNotZero(S: set<Code>, q: seq<Code>, i: nat, j: nat)
    requires Lists(q, S) && i <= j < |q| && !ZeroFamily(q[i])
    ensures !ZeroFamily(q[j])
  {
    if ZeroFamily(q[j]) {
      var k :| 0 <= k < 8 && q[i][k];
      var m := FirstDifference(q[j], q[i], 0);
      assert m <= k;
      assert Agree(q[j], q[i], m) && !q[j][m] && q[i][m];
      OrderOfListing(S, q, j, i);
    }
  }

  // ----- Runs -----

  lemma TargetedStart(S: set<Code>, st: SearchState, q: seq<Code>, i: nat, n: nat)
    requires Targeted(st) && Lists(q, S) && FamilyAt(q, st.rom, i, n)
    ensures var f := Start(S, q, i);
            f < |q| && !ZeroFamily(q[f]) && Call(S, st).1 == Some(q[f]) && At(S, q, f, Call(S, st).0)
  {
    assert q[i] in S;
    FirstIsSmallest(S, q, st.rom, i, n);
    TargetedChoice(S, st.rom, q[i]);
    if Twin(q[i]) in S {
      TwinIsTaken(S, st.rom, q[i]);
      TwinIsNext(S, q, i);
    }
    var f := Start(S, q, i);
    LastOfListing(S, q, f);
    FamilyKept(st.rom, q[i], q[f]);
  }

  lemma FamilyKept(p: Code, s: Code, r: Code)
    requires !ZeroFamily(p) && SameFamily(s, p) && (r == s || r == Twin(s))
    ensures !ZeroFamily(r)
  {
    var k :| 0 <= k < 8 && p[k];
    assert r[k];
  }

  /** A targeted run lists the devices from its start on, in ascending order, to the end of the listing. */
  lemma TargetedRun(S: set<Code>, st: SearchState, q: seq<Code>, i: nat, n: nat, k: nat)
    requires Targeted(st) && Lists(q, S) && FamilyAt(q, st.rom, i, n) && Start(S, q, i) + k < |q|
    ensures Reports(S, st, k, q, Start(S, q, i) + k)
  {
    var f := Start(S, q, i);
    TargetedStart(S, st, q, i, n);
    forall j | f <= j < |q| ensures !ZeroFamily(q[j]) { PlacesAfterAreNotZero(S, q, f, j); }
    RunOn(S, st, q, f, k);
  }

  /** The first `n` calls of a targeted run report the `n` devices of the family in order if and only if
      the first of them has no twin. */
  lemma FamilyListedIff(S: set<Code>, st: SearchState, q: seq<Code>, i: nat, n: nat)
    requires Targeted(st) && Lists(q, S) && FamilyAt(q, st.rom, i, n)
    ensures Twin(q[i]) !in S <==> forall k | 0 <= k < n :: Reported(S, st, k) == Some(q[i + k])
  {
    if Twin(q[i]) !in S {
      forall k | 0 <= k < n ensures Reported(S, st, k) == Some(q[i + k]) {
        TargetedRun(S, st, q, i, n, k);
      }
    } else {
      TargetedStart(S, st, q, i, n);
      TargetedRun(S, st, q, i, n, 0);
      OrderOfListing(S, q, i, i + 1);
      assert Reported(S, st, 0) != Some(q[i + 0]);
    }
  }
}
