/** The binary-tree walk behind a 1-Wire search, as a relation between the set of participating
    devices and the code that one pass assembles, and the theorem that repeated passes enumerate
    the devices in order. Nothing here mentions registers or bytes on the wire. */
module RomSearch {
  import opened Options
  import opened RomCode

  // ----- One pass -----

  /** The devices that agree with `r` on its first `i` bits answer both 0 and 1 at bit `i`. */
  ghost predicate Fork(S: set<Code>, r: Code, i: nat)
    requires i < BITS
  {
    && (exists s | s in S :: Agree(s, r, i) && s[i])
    && (exists s | s in S :: Agree(s, r, i) && !s[i])
  }

  /** What the master writes at a fork: the old code before `ld`, 1 at `ld`, 0 after it
      (`ld` counts bits from 1; 0 stands for "no discrepancy yet"). */
  predicate Choice(prefer: Code, ld: nat, i: nat)
    requires i < BITS
  {
    if i + 1 < ld then prefer[i] else i + 1 == ld
  }

  ghost predicate FollowsUpTo(S: set<Code>, prefer: Code, ld: nat, r: Code, n: nat)
    requires n <= BITS
  {
    forall i {:trigger Fork(S, r, i)} | 0 <= i < n :: Fork(S, r, i) ==> r[i] == Choice(prefer, ld, i)
  }

  /** `r` is a participating device, and every fork on the way to it was taken as `Choice` says. */
  ghost predicate Follows(S: set<Code>, prefer: Code, ld: nat, r: Code) {
    r in S && FollowsUpTo(S, prefer, ld, r, BITS)
  }

  /** `z` numbers (from 1) the last of the first `n` bits that is a fork taken at 0; 0 means none. */
  ghost predicate IsLastZero(S: set<Code>, r: Code, n: nat, z: nat)
    requires n <= BITS
  {
    && z <= n
    && (z > 0 ==> Fork(S, r, z - 1) && !r[z - 1])
    && forall i {:trigger Fork(S, r, i)} | z <= i < n :: Fork(S, r, i) ==> r[i]
  }

  lemma {:induction false} LastZeroExists(S: set<Code>, r: Code, n: nat)
    requires n <= BITS
    ensures exists z :: IsLastZero(S, r, n, z)
    decreases n
  {
    if n == 0 {
      assert IsLastZero(S, r, 0, 0);
    } else if Fork(S, r, n - 1) && !r[n - 1] {
      assert IsLastZero(S, r, n, n);
    } else {
      LastZeroExists(S, r, n - 1);
      var z :| IsLastZero(S, r, n - 1, z);
      assert IsLastZero(S, r, n, z);
    }
  }

  ghost function LastZero(S: set<Code>, r: Code, n: nat): (z: nat)
    requires n <= BITS
    ensures IsLastZero(S, r, n, z)
  {
    LastZeroExists(S, r, n);
    var z :| IsLastZero(S, r, n, z);
    z
  }

  /** Forks seen from `r` up to bit `i` depend on the first `i` bits of `r` only. */
  lemma ForkAgrees(S: set<Code>, a: Code, b: Code, i: nat)
    requires i < BITS && Agree(a, b, i)
    ensures Fork(S, a, i) == Fork(S, b, i)
  {
    forall s | s in S ensures Agree(s, a, i) == Agree(s, b, i) {}
  }

  /** Two participating devices part at a fork. */
  lemma DifferenceIsFork(S: set<Code>, a: Code, b: Code, i: nat)
    requires a in S && b in S && i < BITS && Agree(a, b, i) && a[i] != b[i]
    ensures Fork(S, a, i) && Fork(S, b, i)
  {
    assert Agree(a, b, i) && Agree(b, a, i) && Agree(a, a, i) && Agree(b, b, i);
  }

  /** On a non-empty bus there is a device that a pass can reach ... */
  lemma {:induction false} PassExists(S: set<Code>, prefer: Code, ld: nat, c: Code, i: nat)
    requires c in S && i <= BITS && FollowsUpTo(S, prefer, ld, c, i)
    ensures exists r :: Follows(S, prefer, ld, r)
    decreases BITS - i
  {
    if i == BITS {
      assert Follows(S, prefer, ld, c);
    } else if Fork(S, c, i) && c[i] != Choice(prefer, ld, i) {
      var t :| t in S && Agree(t, c, i) && t[i] == Choice(prefer, ld, i);
      forall k | 0 <= k < i ensures Fork(S, t, k) == Fork(S, c, k) { ForkAgrees(S, t, c, k); }
      PassExists(S, prefer, ld, t, i + 1);
    } else {
      PassExists(S, prefer, ld, c, i + 1);
    }
  }

  /** ... and only one. */
  lemma PassUnique(S: set<Code>, prefer: Code, ld: nat, a: Code, b: Code)
    requires Follows(S, prefer, ld, a) && Follows(S, prefer, ld, b)
    ensures a == b
  {
    if a != b {
      var i := FirstDifference(a, b, 0);
      DifferenceIsFork(S, a, b, i);
      assert false;
    }
  }

  /** The code that a pass assembles from the search state `prefer`, `ld`. */
  ghost function Chosen(S: set<Code>, prefer: Code, ld: nat): (r: Code)
    requires S != {}
    ensures Follows(S, prefer, ld, r)
  {
    var c :| c in S;
    PassExists(S, prefer, ld, c, 0);
    var r :| Follows(S, prefer, ld, r);
    r
  }

  // ----- The pass bit by bit -----

  function FirstByte(n: nat): nat {
    if n < 8 then n else 8
  }

  predicate AllOnes(selected: set<Code>, i: nat)
    requires i < BITS
  {
    forall s | s in selected :: s[i]
  }

  predicate AllZeros(selected: set<Code>, i: nat)
    requires i < BITS
  {
    forall s | s in selected :: !s[i]
  }

  /** The bit that the master writes, given the wired-AND answers. */
  predicate Direction(prefer: Code, ld: nat, selected: set<Code>, i: nat)
    requires i < BITS
  {
    if AllOnes(selected, i) then true else if AllZeros(selected, i) then false else Choice(prefer, ld, i)
  }

  /** The devices that stay selected after the master writes `v`. */
  function Answering(selected: set<Code>, i: nat, v: bool): set<Code>
    requires i < BITS
  {
    set s | s in selected && s[i] == v
  }

  /** A pass over `S` from `prefer`, `ld` that has settled the first `n` bits of `code`: `selected`
      holds the devices still answering, `z` the last zero fork so far and `f` the last in byte 0. */
  datatype Walk = Walk(S: set<Code>, prefer: Code, ld: nat,
                       n: nat, code: Code, selected: set<Code>, z: nat, f: nat)
  {
    ghost predicate Valid() {
      && n <= BITS
      && selected == (set s | s in S && Agree(s, code, n))
      && selected != {}
      && FollowsUpTo(S, prefer, ld, code, n)
      && IsLastZero(S, code, n, z)
      && IsLastZero(S, code, FirstByte(n), f)
      && forall i | n <= i < BITS :: code[i] == prefer[i]
    }

    predicate Dir()
      requires n < BITS
    {
      Direction(prefer, ld, selected, n)
    }

    /** The devices disagree at the next bit and 0 is written. */
    predicate ZeroTaken()
      requires n < BITS
    {
      !AllOnes(selected, n) && !AllZeros(selected, n) && !Dir()
    }

    function Next(): Walk
      requires n < BITS
    {
      Walk(S, prefer, ld, n + 1, code[n := Dir()], Answering(selected, n, Dir()),
           if ZeroTaken() then n + 1 else z, if ZeroTaken() && n < 8 then n + 1 else f)
    }
  }

  lemma WalkStart(S: set<Code>, prefer: Code, ld: nat)
    requires S != {}
    ensures Walk(S, prefer, ld, 0, prefer, S, 0, 0).Valid()
  {
    assert S == set s | s in S && Agree(s, prefer, 0);
  }

  lemma LastZeroExtends(S: set<Code>, a: Code, b: Code, n: nat, z: nat)
    requires n <= BITS && Agree(a, b, n) && IsLastZero(S, a, n, z)
    ensures IsLastZero(S, b, n, z)
  {
    forall i | 0 <= i < n ensures Fork(S, a, i) == Fork(S, b, i) { ForkAgrees(S, a, b, i); }
  }

  lemma DirectionIsAnswered(prefer: Code, ld: nat, selected: set<Code>, i: nat)
    requires selected != {} && i < BITS
    ensures Answering(selected, i, Direction(prefer, ld, selected, i)) != {}
  {
    var c :| c in selected;
    var d :| d in selected && (AllOnes(selected, i) || AllZeros(selected, i) || d[i] != c[i]);
    var answering := Answering(selected, i, Direction(prefer, ld, selected, i));
    assert c in answering || d in answering;
  }

  lemma SelectionStep(S: set<Code>, n: nat, code: Code, selected: set<Code>, v: bool)
    requires n < BITS && selected == set s | s in S && Agree(s, code, n)
    ensures Answering(selected, n, v) == set s | s in S && Agree(s, code[n := v], n + 1)
    ensures Fork(S, code, n) <==> !AllOnes(selected, n) && !AllZeros(selected, n)
  {
  }

  lemma ForksStep(S: set<Code>, prefer: Code, ld: nat, a: Code, b: Code, n: nat, z: nat)
    requires n < BITS && Agree(a, b, n) && FollowsUpTo(S, prefer, ld, a, n) && IsLastZero(S, a, n, z)
    requires Fork(S, b, n) ==> b[n] == Choice(prefer, ld, n)
    ensures FollowsUpTo(S, prefer, ld, b, n + 1)
    ensures IsLastZero(S, b, n + 1, if Fork(S, b, n) && !b[n] then n + 1 else z)
  {
    forall i | 0 <= i <= n ensures Fork(S, a, i) == Fork(S, b, i) { ForkAgrees(S, a, b, i); }
  }

  lemma WalkForks(w: Walk)
    requires w.Valid() && w.n < BITS
    ensures Fork(w.S, w.Next().code, w.n) <==> !AllOnes(w.selected, w.n) && !AllZeros(w.selected, w.n)
    ensures var next := w.Next();
            && FollowsUpTo(w.S, w.prefer, w.ld, next.code, next.n)
            && IsLastZero(w.S, next.code, next.n, next.z)
  {
    var code := w.Next().code;
    assert Agree(w.code, code, w.n);
    SelectionStep(w.S, w.n, w.code, w.selected, w.Dir());
    ForkAgrees(w.S, w.code, code, w.n);
    ForksStep(w.S, w.prefer, w.ld, w.code, code, w.n, w.z);
  }

  lemma WalkStep(w: Walk)
    requires w.Valid() && w.n < BITS
    ensures w.Next().Valid()
  {
    var next := w.Next();
    WalkForks(w);
    SelectionStep(w.S, w.n, w.code, w.selected, w.Dir());
    DirectionIsAnswered(w.prefer, w.ld, w.selected, w.n);
    assert Agree(w.code, next.code, w.n);
    LastZeroExtends(w.S, w.code, next.code, FirstByte(w.n), w.f);
  }

  /** A finished walk is the pass that the search state asks for. */
  lemma WalkEnd(w: Walk)
    requires w.Valid() && w.n == BITS && w.S != {}
    ensures w.code == Chosen(w.S, w.prefer, w.ld)
    ensures w.z == LastZero(w.S, w.code, BITS) && w.f == LastZero(w.S, w.code, 8)
  {
    var c :| c in w.selected;
    if c != w.code {
      var i := FirstDifference(c, w.code, 0);
      assert false;
    }
    PassUnique(w.S, w.prefer, w.ld, w.code, Chosen(w.S, w.prefer, w.ld));
  }

  // ----- What a pass finds, in terms of the order -----

  /** A pass from a cleared state finds the smallest device. */
  lemma FreshPassIsMinimum(S: set<Code>, prefer: Code, s: Code)
    requires s in S
    ensures var r := Chosen(S, prefer, 0); r == s || Less(r, s)
  {
    var r := Chosen(S, prefer, 0);
    if r != s {
      var i := FirstDifference(r, s, 0);
      DifferenceIsFork(S, r, s, i);
    }
  }

  /** A pass that resumes after device `r` repeats `r` up to its last zero fork and takes 1 there. */
  lemma ResumedPassTurns(S: set<Code>, r: Code)
    requires r in S && LastZero(S, r, BITS) > 0
    ensures var ld := LastZero(S, r, BITS);
            var n := Chosen(S, r, ld);
            Agree(r, n, ld - 1) && !r[ld - 1] && n[ld - 1]
  {
    var ld := LastZero(S, r, BITS);
    var n := Chosen(S, r, ld);
    if Agree(r, n, ld - 1) {
      ForkAgrees(S, r, n, ld - 1);
    } else {
      var i := FirstDifference(r, n, 0);
      DifferenceIsFork(S, r, n, i);
      assert false;
    }
  }

  /** So it finds the next larger device. */
  lemma ResumedPassIsSuccessor(S: set<Code>, r: Code, s: Code)
    requires r in S && s in S && LastZero(S, r, BITS) > 0
    ensures var n := Chosen(S, r, LastZero(S, r, BITS));
            Less(r, n) && (Less(r, s) ==> s == n || Less(n, s))
  {
    var ld := LastZero(S, r, BITS);
    var n := Chosen(S, r, ld);
    ResumedPassTurns(S, r);
    if Less(r, s) && s != n {
      var i :| 0 <= i < BITS && Agree(r, s, i) && !r[i] && s[i];
      DifferenceIsFork(S, r, s, i);
      if i + 1 < ld {
        assert Agree(n, s, i);
      } else {
        var k := FirstDifference(n, s, ld);
        DifferenceIsFork(S, n, s, k);
      }
    }
  }

  /** No fork was left at 0 exactly when the device found is the largest. */
  lemma NoZeroLeftIsMaximum(S: set<Code>, r: Code)
    requires r in S
    ensures LastZero(S, r, BITS) == 0 <==> forall s | s in S :: !Less(r, s)
  {
    var z := LastZero(S, r, BITS);
    if z > 0 {
      var s :| s in S && Agree(s, r, z - 1) && s[z - 1];
      assert Agree(r, s, z - 1);
      assert Less(r, s);
    } else {
      forall s | s in S ensures !Less(r, s) {
        if Less(r, s) {
          var i :| 0 <= i < BITS && Agree(r, s, i) && !r[i] && s[i];
          DifferenceIsFork(S, r, s, i);
        }
      }
    }
  }

  // ----- Family byte -----

  ghost predicate SameFamily(a: Code, b: Code) {
    Agree(a, b, 8)
  }

  predicate ZeroFamily(c: Code) {
    forall i | 0 <= i < 8 :: !c[i]
  }

  // ----- A call of the search and runs of calls -----

  /** What `OneWire::search` keeps between calls. */
  datatype SearchState = SearchState(rom: Code, lastDiscrepancy: nat, lastFamilyDiscrepancy: nat, lastDevice: bool)

  ghost predicate Cleared(st: SearchState) {
    st.lastDiscrepancy == 0 && !st.lastDevice
  }

  function Restarted(rom: Code): SearchState {
    SearchState(rom, 0, 0, false)
  }

  /** The state that a completed pass leaves. */
  ghost function Passed(S: set<Code>, st: SearchState): SearchState
    requires S != {}
  {
    var r := Chosen(S, st.rom, st.lastDiscrepancy);
    var z := LastZero(S, r, BITS);
    var f := LastZero(S, r, 8);
    SearchState(r, z, if f > 0 then f else st.lastFamilyDiscrepancy, z == 0)
  }

  /** One call with participating devices `S`: the new state and the device reported. */
  ghost function Call(S: set<Code>, st: SearchState): (SearchState, Option<Code>) {
    if st.lastDevice || S == {} then (Restarted(st.rom), None)
    else
      var p := Passed(S, st);
      if ZeroFamily(p.rom) then (Restarted(p.rom), None) else (p, Some(p.rom))
  }

  ghost function After(S: set<Code>, st: SearchState, k: nat): SearchState {
    if k == 0 then st else Call(S, After(S, st, k - 1)).0
  }

  /** What call number `k` (counted from 0) of a run from `st` reports. */
  ghost function Reported(S: set<Code>, st: SearchState, k: nat): Option<Code> {
    Call(S, After(S, st, k)).1
  }

  /** Whatever the state, a call that reports nothing clears it and keeps the code; one that reports a device
      has found a participant whose family byte is not 0. */
  lemma EmptyCallClears(S: set<Code>, st: SearchState)
    ensures var (next, reported) := Call(S, st);
            && (reported.None? ==> Cleared(next) && next.lastFamilyDiscrepancy == 0)
            && (reported.None? && (st.lastDevice || S == {}) ==> next.rom == st.rom)
            && (reported.Some? ==> reported.value in S && !ZeroFamily(reported.value) && next.rom == reported.value
                                   && !st.lastDevice)
  {
  }

  /** So after a call in the middle of a run that nobody answers, the search starts over: the next call on the
      devices `T` reports the smallest of them. */
  lemma StartsOver(S: set<Code>, st: SearchState, k: nat, T: set<Code>, s: Code)
    requires Reported(S, st, k) == None && s in T && NoZeroFamily(T)
    ensures var found := Call(T, After(S, st, k + 1)).1;
            found.Some? && (found.value == s || Less(found.value, s))
  {
    EmptyCallClears(S, After(S, st, k));
    var next := After(S, st, k + 1);
    FreshPassIsMinimum(T, next.rom, s);
    assert Chosen(T, next.rom, next.lastDiscrepancy) in T;
  }

  /** `q` lists the devices of `S`, each once, in ascending order. */
  ghost predicate Lists(q: seq<Code>, S: set<Code>) {
    && (forall i | 0 <= i < |q| :: q[i] in S)
    && (forall s | s in S :: s in q)
    && (forall i, j {:trigger Less(q[i], q[j])} | 0 <= i < j < |q| :: Less(q[i], q[j]))
  }

  ghost predicate NoZeroFamily(S: set<Code>) {
    forall s | s in S :: !ZeroFamily(s)
  }

  lemma {:induction false} ListingExists(S: set<Code>) returns (q: seq<Code>)
    ensures Lists(q, S) && |q| == |S|
    decreases |S|
  {
    if S == {} {
      q := [];
    } else {
      var c :| c in S;
      var m := Chosen(S, c, 0);
      var tail := ListingExists(S - {m});
      forall s | s in S - {m} ensures Less(m, s) { FreshPassIsMinimum(S, c, s); }
      q := [m] + tail;
      assert forall s | s in S :: s == m || s in tail;
    }
  }

  /** In an ascending listing only the last element has nothing after it ... */
  lemma LastOfListing(S: set<Code>, q: seq<Code>, i: nat)
    requires Lists(q, S) && i < |q|
    ensures LastZero(S, q[i], BITS) == 0 <==> i == |q| - 1
  {
    NoZeroLeftIsMaximum(S, q[i]);
    if i == |q| - 1 {
      forall s | s in S ensures !Less(q[i], s) {
        var j :| 0 <= j < |q| && q[j] == s;
        LessTrichotomy(q[i], q[j]);
      }
    } else {
      assert Less(q[i], q[i + 1]);
    }
  }

  /** ... and the successor of any other element is its neighbour. */
  lemma NeighbourIsSuccessor(S: set<Code>, q: seq<Code>, i: nat)
    requires Lists(q, S) && i + 1 < |q|
    ensures Chosen(S, q[i], LastZero(S, q[i], BITS)) == q[i + 1]
  {
    LastOfListing(S, q, i);
    var n := Chosen(S, q[i], LastZero(S, q[i], BITS));
    ResumedPassIsSuccessor(S, q[i], q[i + 1]);
    assert Less(q[i], q[i + 1]);
    var j :| 0 <= j < |q| && q[j] == n;
    OrderOfListing(S, q, i, j);
    OrderOfListing(S, q, j, i + 1);
  }

  lemma OrderOfListing(S: set<Code>, q: seq<Code>, i: nat, j: nat)
    requires Lists(q, S) && i < |q| && j < |q|
    ensures Less(q[i], q[j]) <==> i < j
    ensures q[i] == q[j] <==> i == j
  {
    LessTrichotomy(q[i], q[j]);
  }

  lemma FirstOfListing(S: set<Code>, q: seq<Code>, prefer: Code)
    requires Lists(q, S) && S != {}
    ensures |q| > 0 && Chosen(S, prefer, 0) == q[0]
  {
    var c :| c in S;
    assert c in q;
    var r := Chosen(S, prefer, 0);
    var j :| 0 <= j < |q| && q[j] == r;
    FreshPassIsMinimum(S, prefer, q[0]);
    LessTrichotomy(q[0], q[j]);
  }

  /** The state in which device `q[i]` was the last one reported. */
  ghost predicate At(S: set<Code>, q: seq<Code>, i: nat, st: SearchState)
    requires i < |q|
  {
    st.rom == q[i] && st.lastDiscrepancy == LastZero(S, q[i], BITS) && (st.lastDevice <==> i == |q| - 1)
  }

  lemma FirstStep(S: set<Code>, st: SearchState, q: seq<Code>)
    requires Cleared(st) && Lists(q, S) && NoZeroFamily(S) && S != {}
    ensures |q| > 0 && Call(S, st).1 == Some(q[0]) && At(S, q, 0, Call(S, st).0)
  {
    FirstOfListing(S, q, st.rom);
    LastOfListing(S, q, 0);
  }

  lemma NextStep(S: set<Code>, st: SearchState, q: seq<Code>, i: nat)
    requires Lists(q, S) && i + 1 < |q| && !ZeroFamily(q[i + 1]) && At(S, q, i, st)
    ensures Call(S, st).1 == Some(q[i + 1]) && At(S, q, i + 1, Call(S, st).0)
  {
    assert q[i] in S;
    NeighbourIsSuccessor(S, q, i);
    LastOfListing(S, q, i + 1);
  }

  /** Call `k` of a run reports place `i` and leaves the state that stands there. */
  ghost predicate Reports(S: set<Code>, st: SearchState, k: nat, q: seq<Code>, i: nat) {
    i < |q| && Reported(S, st, k) == Some(q[i]) && At(S, q, i, After(S, st, k + 1))
  }

  lemma FirstReport(S: set<Code>, st: SearchState, q: seq<Code>, i: nat, k: nat)
    requires k == 0 && i < |q| && Call(S, st).1 == Some(q[i]) && At(S, q, i, Call(S, st).0)
    ensures Reports(S, st, k, q, i)
  {
    assert After(S, st, k) == st;
  }

  /** Call `k` of a run that stands before place `i`. */
  lemma NextReport(S: set<Code>, st: SearchState, q: seq<Code>, i: nat, k: nat)
    requires Lists(q, S) && 0 < i < |q| && !ZeroFamily(q[i]) && k > 0 && Reports(S, st, k - 1, q, i - 1)
    ensures Reports(S, st, k, q, i)
  {
    NextStep(S, After(S, st, k), q, i - 1);
  }

  /** From place `f` on the listing holds no family byte 0. */
  ghost predicate NoZeroFrom(q: seq<Code>, f: nat) {
    forall j | f <= j < |q| :: !ZeroFamily(q[j])
  }

  /** A run whose first call reports place `f` goes on from there. */
  lemma {:induction false} RunOn(S: set<Code>, st: SearchState, q: seq<Code>, f: nat, k: nat)
    requires Lists(q, S) && f + k < |q| && NoZeroFrom(q, f)
    requires Call(S, st).1 == Some(q[f]) && At(S, q, f, Call(S, st).0)
    ensures Reports(S, st, k, q, f + k)
    decreases k
  {
    if k == 0 {
      FirstReport(S, st, q, f, k);
    } else {
      RunOn(S, st, q, f, k - 1);
      NextReport(S, st, q, f + k, k);
    }
  }

  /** Call `k` of a run reports the k-th device and remembers it. */
  lemma Progress(S: set<Code>, st: SearchState, q: seq<Code>, k: nat)
    requires Cleared(st) && Lists(q, S) && NoZeroFamily(S) && k < |q|
    ensures Reported(S, st, k) == Some(q[k]) && At(S, q, k, After(S, st, k + 1))
  {
    assert q[0] in S;
    FirstStep(S, st, q);
    RunOn(S, st, q, 0, k);
  }

  /** Enumeration: from a cleared state, calls 0 .. n-1 report the n devices in ascending order,
      call n reports nothing, and the state is then cleared again, so the cycle repeats. */
  lemma {:induction false} Enumeration(S: set<Code>, st: SearchState, q: seq<Code>)
    requires Cleared(st) && Lists(q, S) && NoZeroFamily(S)
    ensures forall k | 0 <= k < |q| :: Reported(S, st, k) == Some(q[k])
    ensures Reported(S, st, |q|) == None
    ensures Cleared(After(S, st, |q| + 1))
  {
    forall k | 0 <= k < |q| ensures Reported(S, st, k) == Some(q[k]) {
      Progress(S, st, q, k);
    }
    if |q| > 0 {
      Progress(S, st, q, |q| - 1);
    } else {
      assert forall s | s in S :: s in q;
      assert S == {};
      assert After(S, st, 0) == st;
    }
    assert After(S, st, |q| + 1) == Call(S, After(S, st, |q|)).0;
  }

  lemma SmallestHasZeroFamily(S: set<Code>, prefer: Code, z: Code)
    requires z in S && ZeroFamily(z)
    ensures ZeroFamily(Chosen(S, prefer, 0))
  {
    var r := Chosen(S, prefer, 0);
    FreshPassIsMinimum(S, prefer, z);
    if r != z {
      var i :| 0 <= i < BITS && Agree(r, z, i) && !r[i] && z[i];
    }
  }

  lemma ZeroFamilyIsRefused(S: set<Code>, st: SearchState, z: Code)
    requires Cleared(st) && z in S && ZeroFamily(z)
    ensures Cleared(Call(S, st).0) && Call(S, st).1 == None
  {
    SmallestHasZeroFamily(S, st.rom, z);
  }

  /** A device with family byte 0 hides every device: it sorts first, is refused, and the search
      restarts before it. */
  lemma {:induction false} ZeroFamilyHidesAll(S: set<Code>, st: SearchState, z: Code, k: nat)
    requires Cleared(st) && z in S && ZeroFamily(z)
    ensures Cleared(After(S, st, k)) && Reported(S, st, k) == None
    decreases k
  {
    if k > 0 {
      ZeroFamilyHidesAll(S, st, z, k - 1);
    }
    ZeroFamilyIsRefused(S, After(S, st, k), z);
  }

  /** Exactly when no device has family byte 0 does a cycle from a cleared state list them all. */
  lemma {:induction false} EnumerationIffNoZeroFamily(S: set<Code>, st: SearchState, q: seq<Code>)
    requires Cleared(st) && Lists(q, S)
    ensures NoZeroFamily(S) <==> forall k | 0 <= k < |q| :: Reported(S, st, k) == Some(q[k])
  {
    if NoZeroFamily(S) {
      Enumeration(S, st, q);
    } else {
      var z: Code :| z in S && ZeroFamily(z);
      ZeroFamilyHidesAll(S, st, z, 0);
      assert z in q;
      assert Reported(S, st, 0) == None;
    }
  }

  // ----- Targeted search -----

  lemma TargetedPass(S: set<Code>, prefer: Code, ld: nat, s: Code)
    requires s in S && SameFamily(s, prefer) && ld > 8
    ensures SameFamily(Chosen(S, prefer, ld), prefer)
  {
    var r := Chosen(S, prefer, ld);
    if r != s {
      var i := FirstDifference(r, s, 0);
      DifferenceIsFork(S, r, s, i);
    }
  }

  /** The call after `target_search(family)` reports a device of that family exactly when one takes
      part in the search. */
  lemma TargetedCall(S: set<Code>, st: SearchState)
    requires st.lastDiscrepancy == BITS && !st.lastDevice && !ZeroFamily(st.rom)
    ensures var found := Call(S, st).1;
            (found.Some? && SameFamily(found.value, st.rom)) <==> exists s | s in S :: SameFamily(s, st.rom)
  {
    if s :| s in S && SameFamily(s, st.rom) {
      TargetedPass(S, st.rom, BITS, s);
      var r := Chosen(S, st.rom, BITS);
      var i :| 0 <= i < 8 && st.rom[i];
      assert r[i];
    }
  }
}
