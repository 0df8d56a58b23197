/** Unsigned words as numbers: exclusive or bit by bit, shifts, and the parity of the 1 bits. */
module Words {
  type byte = x: int | 0 <= x < 0x100
  type word = x: int | 0 <= x < 0x1_0000

  /** The exclusive or of the lowest bits. */
  function Differ(a: nat, b: nat): nat {
    if a % 2 == b % 2 then 0 else 1
  }

  function Xor(a: nat, b: nat): nat
    decreases a + b
  {
    if a == 0 && b == 0 then 0 else Differ(a, b) + 2 * Xor(a / 2, b / 2)
  }

  /** `a << n`. */
  function Left(a: nat, n: nat): nat
    decreases n, a
  {
    if n == 0 then a else 2 * Left(a, n - 1)
  }

  /** `a >> n`. */
  function Right(a: nat, n: nat): nat
    decreases n, a
  {
    if n == 0 then a else Right(a / 2, n - 1)
  }

  /** The number of 1 bits is odd. */
  predicate Odd(a: nat) {
    a != 0 && (a % 2 == 1) != Odd(a / 2)
  }

  lemma XorUnfolds(a: nat, b: nat)
    ensures Xor(a, b) == Differ(a, b) + 2 * Xor(a / 2, b / 2)
    ensures Xor(a, b) / 2 == Xor(a / 2, b / 2) && Xor(a, b) % 2 == Differ(a, b)
  {
  }

  lemma {:induction false} XorZero(a: nat)
    ensures Xor(a, 0) == a && Xor(0, a) == a && Xor(a, a) == 0
    decreases a
  {
    if a > 0 { XorZero(a / 2); }
  }

  lemma {:induction false} XorCommutes(a: nat, b: nat)
    ensures Xor(a, b) == Xor(b, a)
    decreases a + b
  {
    if a + b > 0 { XorCommutes(a / 2, b / 2); }
  }

  lemma {:induction false} XorAssociates(a: nat, b: nat, c: nat)
    ensures Xor(Xor(a, b), c) == Xor(a, Xor(b, c))
    decreases a + b + c
  {
    if a + b + c > 0 {
      XorUnfolds(a, b);
      XorUnfolds(b, c);
      XorUnfolds(Xor(a, b), c);
      XorUnfolds(a, Xor(b, c));
      XorAssociates(a / 2, b / 2, c / 2);
    }
  }

  lemma Regroup(a: nat, b: nat, c: nat, d: nat)
    ensures Xor(Xor(a, b), Xor(c, d)) == Xor(Xor(a, c), Xor(b, d))
  {
    XorAssociates(a, b, Xor(c, d));
    XorAssociates(b, c, d);
    XorCommutes(b, c);
    XorAssociates(c, b, d);
    XorAssociates(a, c, Xor(b, d));
  }

  lemma {:induction false} XorCancels(a: nat, b: nat)
    ensures Xor(a, b) == 0 <==> a == b
    decreases a + b
  {
    if a + b > 0 {
      XorUnfolds(a, b);
      XorCancels(a / 2, b / 2);
    }
  }

  lemma XorSame(a: nat, x: nat, y: nat)
    ensures Xor(a, x) == Xor(a, y) <==> x == y
    ensures Xor(x, a) == Xor(y, a) <==> x == y
  {
    XorCommutes(a, x);
    XorCommutes(a, y);
    Regroup(a, x, a, y);
    XorZero(a);
    XorZero(Xor(x, y));
    XorCancels(Xor(a, x), Xor(a, y));
    XorCancels(x, y);
  }

  lemma {:induction false} XorBound(a: nat, b: nat, n: nat)
    requires a < Left(1, n) && b < Left(1, n)
    ensures Xor(a, b) < Left(1, n)
    decreases n
  {
    if n > 0 {
      XorUnfolds(a, b);
      XorBound(a / 2, b / 2, n - 1);
    }
  }

  lemma EightBits()
    ensures Left(1, 8) == 0x100
  {
    assert Left(1, 4) == 16;
  }

  lemma XorBytes(a: byte, b: byte)
    ensures Xor(a, b) < 0x100
  {
    EightBits();
    XorBound(a, b, 8);
  }

  /** Words with their bits in different places combine without carries. */
  lemma {:induction false} XorDisjoint(h: nat, l: nat, n: nat)
    requires l < Left(1, n)
    ensures Xor(Left(h, n), l) == Left(h, n) + l
    decreases n
  {
    if n == 0 {
      XorZero(h);
    } else {
      XorDisjoint(h, l / 2, n - 1);
      XorUnfolds(Left(h, n), l);
    }
  }

  lemma {:induction false} XorLeft(a: nat, b: nat, n: nat)
    ensures Xor(Left(a, n), Left(b, n)) == Left(Xor(a, b), n)
    decreases n
  {
    if n > 0 {
      XorLeft(a, b, n - 1);
      var (x, y) := (Left(a, n - 1), Left(b, n - 1));
      assert 2 * x / 2 == x && 2 * y / 2 == y;
      XorUnfolds(2 * x, 2 * y);
    }
  }

  lemma {:induction false} XorRight(a: nat, b: nat, n: nat)
    ensures Right(Xor(a, b), n) == Xor(Right(a, n), Right(b, n))
    decreases n
  {
    if n > 0 {
      XorUnfolds(a, b);
      XorRight(a / 2, b / 2, n - 1);
    }
  }

  lemma OddUnfolds(a: nat)
    ensures Odd(a) == ((a % 2 == 1) != Odd(a / 2))
  {
  }

  lemma {:induction false} OddOfXor(a: nat, b: nat)
    ensures Odd(Xor(a, b)) == (Odd(a) != Odd(b))
    decreases a + b
  {
    if a + b > 0 {
      XorUnfolds(a, b);
      OddOfXor(a / 2, b / 2);
      OddUnfolds(Xor(a, b));
      OddUnfolds(a);
      OddUnfolds(b);
    }
  }

  lemma {:induction false} OddOfLeft(a: nat, n: nat)
    ensures Odd(Left(a, n)) == Odd(a)
    decreases n
  {
    if n > 0 {
      OddOfLeft(a, n - 1);
      OddUnfolds(Left(a, n));
    }
  }

  lemma {:induction false} LeftAdds(a: nat, n: nat, k: nat)
    ensures Left(a, n + k) == Left(Left(a, n), k)
    decreases k
  {
    if k > 0 { LeftAdds(a, n, k - 1); }
  }

  lemma {:induction false} LeftBounds(a: nat, b: nat, n: nat)
    ensures a < b <==> Left(a, n) < Left(b, n)
    decreases n
  {
    if n > 0 { LeftBounds(a, b, n - 1); }
  }

  lemma {:induction false} RightBounds(a: nat, n: nat, k: nat)
    requires a < Left(1, n + k)
    ensures Right(a, k) < Left(1, n)
    decreases k
  {
    if k > 0 { RightBounds(a / 2, n, k - 1); }
  }

  // ----- Machine bytes -----

  /** The number in a machine byte, bit by bit. */
  function Num(a: bv8): nat
    decreases a
  {
    if a == 0 then 0 else 2 * Num(a >> 1) + if a & 1 == 1 then 1 else 0
  }

  lemma NumUnfolds(a: bv8)
    ensures Num(a) / 2 == Num(a >> 1) && (Num(a) % 2 == 1) == (a & 1 == 1)
  {
  }

  lemma ConversionUnfolds(a: bv8)
    ensures a as nat == 2 * ((a >> 1) as nat) + if a & 1 == 1 then 1 else 0
  {
  }

  lemma {:induction false} NumIsConversion(a: bv8)
    ensures Num(a) == a as nat
    decreases a
  {
    ConversionUnfolds(a);
    if a != 0 { NumIsConversion(a >> 1); }
  }

  /** A number is the exclusive or of two others if its halves and its lowest bit are. */
  lemma XorFromHalves(a: nat, b: nat, c: nat)
    requires c / 2 == Xor(a / 2, b / 2) && (c % 2 == 1) == ((a % 2 == 1) != (b % 2 == 1))
    ensures c == Xor(a, b)
  {
    XorUnfolds(a, b);
  }

  lemma XorSplits(a: bv8, b: bv8)
    ensures (a ^ b) >> 1 == (a >> 1) ^ (b >> 1)
    ensures ((a ^ b) & 1 == 1) == ((a & 1 == 1) != (b & 1 == 1))
  {
  }

  /** The exclusive or of the processor is the one on numbers. */
  lemma {:induction false} XorOfBytes(a: bv8, b: bv8)
    ensures Num(a ^ b) == Xor(Num(a), Num(b))
    decreases a, b
  {
    if a != 0 || b != 0 {
      NumUnfolds(a);
      NumUnfolds(b);
      NumUnfolds(a ^ b);
      XorSplits(a, b);
      XorOfBytes(a >> 1, b >> 1);
      XorFromHalves(Num(a), Num(b), Num(a ^ b));
    }
  }
}

/** A shift register with feedback `poly`, bits leaving at the lower end: what both CRCs are made of. */
module ShiftRegister {
  import opened Words

  function Shift(poly: nat, c: nat): nat {
    if c % 2 == 1 then Xor(c / 2, poly) else c / 2
  }

  function Shifts(poly: nat, c: nat, n: nat): nat
    decreases n, c, poly
  {
    if n == 0 then c else Shifts(poly, Shift(poly, c), n - 1)
  }

  lemma ShiftLinear(poly: nat, x: nat, y: nat)
    ensures Shift(poly, Xor(x, y)) == Xor(Shift(poly, x), Shift(poly, y))
  {
    XorUnfolds(x, y);
    var p, q := if x % 2 == 1 then poly else 0, if y % 2 == 1 then poly else 0;
    XorZero(x / 2);
    XorZero(y / 2);
    XorZero(Xor(x / 2, y / 2));
    XorZero(poly);
    Regroup(x / 2, p, y / 2, q);
  }

  lemma {:induction false} ShiftsLinear(poly: nat, x: nat, y: nat, n: nat)
    ensures Shifts(poly, Xor(x, y), n) == Xor(Shifts(poly, x, n), Shifts(poly, y, n))
    decreases n
  {
    if n > 0 {
      ShiftLinear(poly, x, y);
      ShiftsLinear(poly, Shift(poly, x), Shift(poly, y), n - 1);
    }
  }

  lemma {:induction false} ShiftsAdd(poly: nat, c: nat, n: nat, k: nat)
    ensures Shifts(poly, c, n + k) == Shifts(poly, Shifts(poly, c, n), k)
    decreases n
  {
    if n > 0 { ShiftsAdd(poly, Shift(poly, c), n - 1, k); }
  }

  /** Zeros at the lower end leave without feedback. */
  lemma {:induction false} ShiftsOfLeft(poly: nat, u: nat, n: nat)
    ensures Shifts(poly, Left(u, n), n) == u
    decreases n
  {
    if n > 0 {
      assert Shift(poly, Left(u, n)) == Left(u, n - 1);
      ShiftsOfLeft(poly, u, n - 1);
    }
  }

  /** A polynomial whose highest bit is the highest of `w` bits. */
  predicate Fills(poly: nat, w: nat) {
    w > 0 && Left(1, w - 1) <= poly < Left(1, w)
  }

  lemma ShiftKeepsWidth(poly: nat, c: nat, w: nat)
    requires Fills(poly, w) && c < Left(1, w)
    ensures Shift(poly, c) < Left(1, w) && (Shift(poly, c) == 0 <==> c == 0)
  {
    XorBound(c / 2, poly, w);
    XorCancels(c / 2, poly);
  }

  lemma {:induction false} ShiftsKeepWidth(poly: nat, c: nat, n: nat, w: nat)
    requires Fills(poly, w) && c < Left(1, w)
    ensures Shifts(poly, c, n) < Left(1, w) && (Shifts(poly, c, n) == 0 <==> c == 0)
    decreases n
  {
    if n > 0 {
      ShiftKeepsWidth(poly, c, w);
      ShiftsKeepWidth(poly, Shift(poly, c), n - 1, w);
    }
  }

  /** No two registers shift to the same value. */
  lemma ShiftsInjective(poly: nat, x: nat, y: nat, n: nat, w: nat)
    requires Fills(poly, w) && x < Left(1, w) && y < Left(1, w)
    ensures Shifts(poly, x, n) == Shifts(poly, y, n) <==> x == y
  {
    ShiftsLinear(poly, x, y, n);
    XorCancels(Shifts(poly, x, n), Shifts(poly, y, n));
    XorBound(x, y, w);
    ShiftsKeepWidth(poly, Xor(x, y), n, w);
    XorCancels(x, y);
  }

  // ----- CRCs over messages -----

  /** The register after a message: each byte is added, then the register shifts eight times. */
  function CrcFrom(poly: nat, m: seq<byte>, c: nat): nat {
    if m == [] then c else CrcFrom(poly, m[1..], Shifts(poly, Xor(m[0], c), 8))
  }

  lemma {:induction false} CrcAppend(poly: nat, a: seq<byte>, b: seq<byte>, c: nat)
    ensures CrcFrom(poly, a + b, c) == CrcFrom(poly, b, CrcFrom(poly, a, c))
    decreases |a|
  {
    if a == [] {
      assert a + b == b;
    } else {
      assert (a + b)[1..] == a[1..] + b;
      CrcAppend(poly, a[1..], b, Shifts(poly, Xor(a[0], c), 8));
    }
  }

  lemma CrcOne(poly: nat, m: seq<byte>, b: byte, c: nat)
    ensures CrcFrom(poly, m + [b], c) == Shifts(poly, Xor(b, CrcFrom(poly, m, c)), 8)
  {
    CrcAppend(poly, m, [b], c);
    assert [b][1..] == [];
  }

  /** `c` is the bytewise exclusive or of `a` and `b`. */
  predicate Mixed(a: seq<byte>, b: seq<byte>, c: seq<byte>) {
    |a| == |b| == |c| && forall i | 0 <= i < |a| :: c[i] == Xor(a[i], b[i])
  }

  /** The register is linear in start value and message. */
  lemma {:induction false} CrcLinear(poly: nat, a: seq<byte>, b: seq<byte>, c: seq<byte>, x: nat, y: nat)
    requires Mixed(a, b, c)
    ensures CrcFrom(poly, c, Xor(x, y)) == Xor(CrcFrom(poly, a, x), CrcFrom(poly, b, y))
    decreases |a|
  {
    if a != [] {
      var (u, v) := (Xor(a[0], x), Xor(b[0], y));
      Regroup(a[0], b[0], x, y);
      ShiftsLinear(poly, u, v, 8);
      CrcLinear(poly, a[1..], b[1..], c[1..], Shifts(poly, u, 8), Shifts(poly, v, 8));
    }
  }

  /** One more byte taken off the front: the step of every CRC loop. */
  lemma CrcStep(poly: nat, m: seq<byte>, k: nat, c: nat)
    requires k < |m|
    ensures CrcFrom(poly, m[k..], c) == CrcFrom(poly, m[k + 1..], Shifts(poly, Xor(m[k], c), 8))
  {
    assert m[k..][1..] == m[k + 1..];
  }

  lemma UpdateKeepsWidth(poly: nat, b: byte, c: nat, w: nat)
    requires Fills(poly, w) && w >= 8 && c < Left(1, w)
    ensures Xor(b, c) < Left(1, w) && Shifts(poly, Xor(b, c), 8) < Left(1, w)
  {
    EightBits();
    LeftAdds(1, w - 8, 8);
    LeftAdds(1, 8, w - 8);
    LeftBounds(b, 0x100, w - 8);
    LeftGrows(b, w - 8);
    XorBound(b, c, w);
    ShiftsKeepWidth(poly, Xor(b, c), 8, w);
  }

  lemma {:induction false} LeftGrows(a: nat, n: nat)
    ensures a <= Left(a, n)
    decreases n
  {
    if n > 0 { LeftGrows(a, n - 1); }
  }

  lemma {:induction false} CrcKeepsWidth(poly: nat, m: seq<byte>, c: nat, w: nat)
    requires Fills(poly, w) && w >= 8 && c < Left(1, w)
    ensures CrcFrom(poly, m, c) < Left(1, w)
    decreases |m|
  {
    if m != [] {
      UpdateKeepsWidth(poly, m[0], c, w);
      CrcKeepsWidth(poly, m[1..], Shifts(poly, Xor(m[0], c), 8), w);
    }
  }

  lemma {:induction false} CrcInjective(poly: nat, m: seq<byte>, c: nat, d: nat, w: nat)
    requires Fills(poly, w) && w >= 8 && c < Left(1, w) && d < Left(1, w)
    ensures CrcFrom(poly, m, c) == CrcFrom(poly, m, d) <==> c == d
    decreases |m|
  {
    if m != [] {
      UpdateKeepsWidth(poly, m[0], c, w);
      UpdateKeepsWidth(poly, m[0], d, w);
      CrcInjective(poly, m[1..], Shifts(poly, Xor(m[0], c), 8), Shifts(poly, Xor(m[0], d), 8), w);
      ShiftsInjective(poly, Xor(m[0], c), Xor(m[0], d), 8, w);
      XorSame(m[0], c, d);
    }
  }

  /** Two messages that differ in exactly one byte have different CRCs. */
  lemma OneByteDetected(poly: nat, a: seq<byte>, x: byte, x': byte, b: seq<byte>, start: nat, w: nat)
    requires Fills(poly, w) && w >= 8 && start < Left(1, w)
    ensures CrcFrom(poly, a + [x] + b, start) == CrcFrom(poly, a + [x'] + b, start) <==> x == x'
  {
    var c := CrcFrom(poly, a, start);
    CrcKeepsWidth(poly, a, start, w);
    CrcOne(poly, a, x, start);
    CrcOne(poly, a, x', start);
    CrcAppend(poly, a + [x], b, start);
    CrcAppend(poly, a + [x'], b, start);
    UpdateKeepsWidth(poly, x, c, w);
    UpdateKeepsWidth(poly, x', c, w);
    CrcInjective(poly, b, Shifts(poly, Xor(x, c), 8), Shifts(poly, Xor(x', c), 8), w);
    ShiftsInjective(poly, Xor(x, c), Xor(x', c), 8, w);
    XorSame(c, x, x');
  }

  /** A change `x` of one byte and `y` of the next that stays within eight consecutive bits on the
      wire: the lower `k` bits of `x` and the upper `8 - k` bits of `y` are 0. */
  predicate Burst(x: nat, y: nat, k: nat) {
    k <= 8 && x == Left(Right(x, k), k) && y < Left(1, k)
  }

  lemma {:induction false} LeftOfZero(n: nat)
    ensures Left(0, n) == 0
    decreases n
  {
    if n > 0 { LeftOfZero(n - 1); }
  }

  lemma NarrowerIsLess(v: nat, w: nat)
    requires v <= w
    ensures Left(1, v) <= Left(1, w)
  {
    LeftAdds(1, v, w - v);
    LeftGrows(Left(1, v), w - v);
  }

  lemma BurstParts(x: byte, y: byte, k: nat)
    requires Burst(x, y, k)
    ensures Right(x, k) < Left(1, 8 - k) && Left(y, 8 - k) < Left(1, 8)
    ensures y == 0 || Left(1, 8 - k) <= Left(y, 8 - k)
  {
    EightBits();
    RightBounds(x, 8 - k, k);
    LeftBounds(y, Left(1, k), 8 - k);
    LeftAdds(1, k, 8 - k);
    LeftBounds(y, 1, 8 - k);
  }

  lemma BurstWidths(x: byte, y: byte, k: nat, w: nat)
    requires w >= 8 && Burst(x, y, k)
    ensures Right(x, k) < Left(1, 8 - k) <= Left(1, w) && Left(y, 8 - k) < Left(1, 8) <= Left(1, w)
    ensures y == 0 || Left(1, 8 - k) <= Left(y, 8 - k)
  {
    BurstParts(x, y, k);
    NarrowerIsLess(8 - k, w);
    NarrowerIsLess(8, w);
  }

  /** A burst cannot cancel itself out in the register. */
  lemma BurstSurvives(poly: nat, x: byte, y: byte, k: nat, w: nat)
    requires Fills(poly, w) && w >= 8 && Burst(x, y, k) && Shifts(poly, x, 8) == y
    ensures x == 0 && y == 0
  {
    var u, v := Right(x, k), Left(y, 8 - k);
    BurstWidths(x, y, k, w);
    ShiftsAdd(poly, x, k, 8 - k);
    ShiftsOfLeft(poly, u, k);
    ShiftsOfLeft(poly, y, 8 - k);
    ShiftsInjective(poly, u, v, 8 - k, w);
    LeftOfZero(8 - k);
    LeftOfZero(k);
  }

  /** Messages that differ only within a burst of up to eight bits have different CRCs. */
  lemma BurstDetected(poly: nat, a: seq<byte>, x: byte, y: byte, x': byte, y': byte, b: seq<byte>,
                      start: nat, k: nat, w: nat)
    requires Fills(poly, w) && w >= 8 && start < Left(1, w)
    requires Burst(Xor(x, x'), Xor(y, y'), k)
    ensures CrcFrom(poly, a + [x] + [y] + b, start) == CrcFrom(poly, a + [x'] + [y'] + b, start)
            <==> x == x' && y == y'
  {
    var c := CrcFrom(poly, a, start);
    CrcKeepsWidth(poly, a, start, w);
    var u, u' := Shifts(poly, Xor(x, c), 8), Shifts(poly, Xor(x', c), 8);
    UpdateKeepsWidth(poly, x, c, w);
    UpdateKeepsWidth(poly, x', c, w);
    var v, v' := Shifts(poly, Xor(y, u), 8), Shifts(poly, Xor(y', u'), 8);
    UpdateKeepsWidth(poly, y, u, w);
    UpdateKeepsWidth(poly, y', u', w);
    CrcOne(poly, a, x, start);
    CrcOne(poly, a, x', start);
    CrcOne(poly, a + [x], y, start);
    CrcOne(poly, a + [x'], y', start);
    CrcAppend(poly, a + [x] + [y], b, start);
    CrcAppend(poly, a + [x'] + [y'], b, start);
    CrcInjective(poly, b, v, v', w);
    ShiftsInjective(poly, Xor(y, u), Xor(y', u'), 8, w);
    if v == v' {
      BurstCancels(poly, x, y, x', y', c, k, w);
    }
  }

  lemma BurstCancels(poly: nat, x: byte, y: byte, x': byte, y': byte, c: nat, k: nat, w: nat)
    requires Fills(poly, w) && w >= 8 && Burst(Xor(x, x'), Xor(y, y'), k)
    requires Xor(y, Shifts(poly, Xor(x, c), 8)) == Xor(y', Shifts(poly, Xor(x', c), 8))
    ensures x == x' && y == y'
  {
    var u, u' := Shifts(poly, Xor(x, c), 8), Shifts(poly, Xor(x', c), 8);
    var dx, dy := Xor(x, x'), Xor(y, y');
    XorBytes(x, x');
    XorBytes(y, y');
    Regroup(y, u, y', u');
    XorCancels(Xor(y, u), Xor(y', u'));
    XorCancels(dy, Xor(u, u'));
    ShiftsLinear(poly, Xor(x, c), Xor(x', c), 8);
    Regroup(x, c, x', c);
    XorZero(c);
    XorZero(dx);
    BurstSurvives(poly, dx, dy, k, w);
    XorCancels(x, x');
    XorCancels(y, y');
  }

  // ----- Parity -----

  /** The number of 1 bits in a message is odd. */
  predicate OddMessage(m: seq<byte>) {
    m != [] && Odd(m[0]) != OddMessage(m[1..])
  }

  lemma {:induction false} ShiftsKeepParity(poly: nat, c: nat, n: nat)
    requires Odd(poly)
    ensures Odd(Shifts(poly, c, n)) == Odd(c)
    decreases n
  {
    if n > 0 {
      ShiftsKeepParity(poly, Shift(poly, c), n - 1);
      OddOfXor(c / 2, poly);
      OddUnfolds(c);
    }
  }

  /** Under a polynomial with an odd number of terms below the highest, the register carries the
      parity of the bits taken in. */
  lemma {:induction false} ParityTracked(poly: nat, m: seq<byte>, c: nat)
    requires Odd(poly)
    ensures Odd(CrcFrom(poly, m, c)) == (Odd(c) != OddMessage(m))
    decreases |m|
  {
    if m != [] {
      ParityTracked(poly, m[1..], Shifts(poly, Xor(m[0], c), 8));
      ShiftsKeepParity(poly, Xor(m[0], c), 8);
      OddOfXor(m[0], c);
    }
  }
}

/** The 8-bit CRC of ROM codes and scratchpads (Maxim Application Note 27): polynomial
    x^8 + x^5 + x^4 + 1. */
module Crc8 {
  import opened Words
  import opened ShiftRegister

  const POLY8 := 0x8C

  function Crc(m: seq<byte>): nat {
    CrcFrom(POLY8, m, 0)
  }

  /** The CRC of the bytewise exclusive or of two messages is the exclusive or of their CRCs. */
  lemma Linear(a: seq<byte>, b: seq<byte>, c: seq<byte>)
    requires Mixed(a, b, c)
    ensures Crc(c) == Xor(Crc(a), Crc(b))
  {
    CrcLinear(POLY8, a, b, c, 0, 0);
    XorZero(0);
  }

  lemma PolyFills()
    ensures Fills(POLY8, 8) && Left(1, 8) == 0x100 && Left(1, 7) == 0x80
  {
    assert Left(1, 4) == 16;
    assert Left(1, 7) == 0x80;
  }

  // ----- The two implementations -----

  /** One pass of the inner loop acts on the register exclusive-or the rest of the byte. */
  lemma MixStep(crc: nat, inByte: nat)
    ensures var mix := Xor(crc, inByte) % 2;
            Xor(inByte / 2, if mix == 1 then Xor(crc / 2, 0x8C) else crc / 2) == Shift(POLY8, Xor(inByte, crc))
  {
    XorCommutes(crc, inByte);
    XorUnfolds(inByte, crc);
    XorAssociates(inByte / 2, crc / 2, 0x8C);
  }

  /** The slow form, bit by bit. */
  method Crc8Bitwise(addr: seq<byte>) returns (crc: nat)
    ensures crc == Crc(addr)
  {
    crc := 0;
    for k := 0 to |addr|
      invariant CrcFrom(POLY8, addr[k..], crc) == Crc(addr)
    {
      CrcStep(POLY8, addr, k, crc);
      ghost var next := Shifts(POLY8, Xor(addr[k], crc), 8);
      PolyFills();
      var inByte: nat := addr[k];
      for i := 8 downto 0
        invariant inByte < Left(1, i)
        invariant Shifts(POLY8, Xor(inByte, crc), i) == next
      {
        MixStep(crc, inByte);
        var mix := Xor(crc, inByte) % 2;
        crc := crc / 2;
        if mix == 1 {
          crc := Xor(crc, 0x8C);
        }
        inByte := inByte / 2;
      }
      XorZero(crc);
    }
  }

  const TABLE: seq<byte> := [
    0x00, 0x5E, 0xBC, 0xE2, 0x61, 0x3F, 0xDD, 0x83,
    0xC2, 0x9C, 0x7E, 0x20, 0xA3, 0xFD, 0x1F, 0x41,
    0x00, 0x9D, 0x23, 0xBE, 0x46, 0xDB, 0x65, 0xF8,
    0x8C, 0x11, 0xAF, 0x32, 0xCA, 0x57, 0xE9, 0x74
  ]

  /** One shift of a machine byte. */
  function ShiftByte(c: bv8): bv8 {
    if c & 1 == 1 then (c >> 1) ^ 0x8C else c >> 1
  }

  lemma ShiftOfByte(c: bv8)
    ensures Shift(POLY8, Num(c)) == Num(ShiftByte(c))
  {
    NumUnfolds(c);
    NumIsConversion(0x8C);
    XorOfBytes(c >> 1, 0x8C);
  }

  lemma {:induction false} ShiftsOfByte(c: bv8, n: nat)
    requires n > 0
    ensures Shifts(POLY8, Num(c), n) == Shifts(POLY8, Num(ShiftByte(c)), n - 1)
  {
    ShiftOfByte(c);
  }

  /** Four shifts of a machine byte. */
  function FourShifts(c: bv8): bv8 {
    ShiftByte(ShiftByte(ShiftByte(ShiftByte(c))))
  }

  lemma FourShiftsOfByte(c: bv8, n: nat)
    requires n >= 4
    ensures Shifts(POLY8, Num(c), n) == Shifts(POLY8, Num(FourShifts(c)), n - 4)
  {
    var c1 := ShiftByte(c);
    var c2 := ShiftByte(c1);
    ShiftsOfByte(c, n);
    ShiftsOfByte(c1, n - 1);
    ShiftsOfByte(c2, n - 2);
    ShiftsOfByte(ShiftByte(c2), n - 3);
  }

  /** Eight shifts of a number in a machine byte, to another one. */
  lemma EightShiftsOfByte(c: bv8, n: nat, m: nat, w: nat)
    requires w == 8 && n == Num(c) && m == Num(FourShifts(FourShifts(c)))
    ensures Shifts(POLY8, n, w) == m
  {
    FourShiftsOfByte(c, w);
    FourShiftsOfByte(FourShifts(c), w - 4);
  }

  lemma ByteOf(n: nat) returns (x: bv8)
    requires n < 16
    ensures x < 16 && x as nat == n == Num(x)
  {
    x := n as bv8;
    NumIsConversion(x);
  }

  lemma TableLow(n: nat, w: nat)
    requires n < 16 && w == 8
    ensures TABLE[n] == Shifts(POLY8, n, w)
  {
    var x := ByteOf(n);
    LowRows(x);
    NumIsConversion(FourShifts(FourShifts(x)));
    EightShiftsOfByte(x, n, TABLE[n], w);
  }

  lemma LowRows(x: bv8)
    requires x < 16
    ensures TABLE[x as nat] == FourShifts(FourShifts(x)) as nat
  {
    if x < 8 { LowRowsBelow8(x); } else { LowRowsFrom8(x); }
  }

  lemma LowRowsBelow8(x: bv8)
    requires x < 8
    ensures TABLE[x as nat] == FourShifts(FourShifts(x)) as nat
  {
    if x == 0 {} else if x == 1 {} else if x == 2 {} else if x == 3 {}
    else if x == 4 {} else if x == 5 {} else if x == 6 {} else {}
  }

  lemma LowRowsFrom8(x: bv8)
    requires 8 <= x < 16
    ensures TABLE[x as nat] == FourShifts(FourShifts(x)) as nat
  {
    if x == 8 {} else if x == 9 {} else if x == 10 {} else if x == 11 {}
    else if x == 12 {} else if x == 13 {} else if x == 14 {} else {}
  }

  lemma HighRows(x: bv8)
    requires x < 16
    ensures TABLE[16 + x as nat] == FourShifts(FourShifts(x << 4)) as nat
  {
    if x < 8 { HighRowsBelow8(x); } else { HighRowsFrom8(x); }
  }

  lemma HighRowsBelow8(x: bv8)
    requires x < 8
    ensures TABLE[16 + x as nat] == FourShifts(FourShifts(x << 4)) as nat
  {
    if x == 0 {} else if x == 1 {} else if x == 2 {} else if x == 3 {}
    else if x == 4 {} else if x == 5 {} else if x == 6 {} else {}
  }

  lemma HighRowsFrom8(x: bv8)
    requires 8 <= x < 16
    ensures TABLE[16 + x as nat] == FourShifts(FourShifts(x << 4)) as nat
  {
    if x == 8 {} else if x == 9 {} else if x == 10 {} else if x == 11 {}
    else if x == 12 {} else if x == 13 {} else if x == 14 {} else {}
  }

  lemma UpperNibble(x: bv8)
    requires x < 16
    ensures (x << 4) as nat == 16 * (x as nat)
  {
    if x == 0 {} else if x == 1 {} else if x == 2 {} else if x == 3 {}
    else if x == 4 {} else if x == 5 {} else if x == 6 {} else if x == 7 {}
    else if x == 8 {} else if x == 9 {} else if x == 10 {} else if x == 11 {}
    else if x == 12 {} else if x == 13 {} else if x == 14 {} else {}
  }

  lemma TableHigh(n: nat, w: nat)
    requires n < 16 && w == 8
    ensures TABLE[16 + n] == Shifts(POLY8, 16 * n, w)
  {
    var x := ByteOf(n);
    HighRows(x);
    UpperNibble(x);
    NumIsConversion(x << 4);
    NumIsConversion(FourShifts(FourShifts(x << 4)));
    EightShiftsOfByte(x << 4, 16 * n, TABLE[16 + n], w);
  }

  /** Two table rows stand for eight shifts. */
  lemma TableIsShifts(x: byte)
    ensures Xor(TABLE[x % 16], TABLE[16 + x / 16]) == Shifts(POLY8, x, 8)
  {
    var low, high := x % 16, x / 16;
    TableLow(low, 8);
    TableHigh(high, 8);
    assert Left(high, 1) == 2 * high;
    assert Left(high, 2) == 4 * high;
    assert Left(1, 4) == 16 && Left(high, 4) == 16 * high;
    XorDisjoint(high, low, 4);
    XorCommutes(low, 16 * high);
    ShiftsLinear(POLY8, low, 16 * high, 8);
  }

  /** The fast form, two table look-ups a byte. */
  method Crc8Table(addr: seq<byte>) returns (crc: byte)
    ensures crc == Crc(addr)
  {
    crc := 0;
    for k := 0 to |addr|
      invariant CrcFrom(POLY8, addr[k..], crc) == Crc(addr)
    {
      CrcStep(POLY8, addr, k, crc);
      XorBytes(addr[k], crc);
      crc := Xor(addr[k], crc);
      TableIsShifts(crc);
      XorBytes(TABLE[crc % 16], TABLE[16 + crc / 16]);
      crc := Xor(TABLE[crc % 16], TABLE[16 + crc / 16]);
    }
  }

  // ----- What the CRC detects -----

  /** A message with its CRC appended leaves the register at 0, and no other last byte does. */
  lemma Residue(m: seq<byte>, last: byte)
    ensures Crc(m + [last]) == 0 <==> last == Crc(m)
  {
    PolyFills();
    CrcOne(POLY8, m, last, 0);
    CrcKeepsWidth(POLY8, m, 0, 8);
    XorBytes(last, Crc(m));
    ShiftsKeepWidth(POLY8, Xor(last, Crc(m)), 8, 8);
    XorCancels(last, Crc(m));
  }

  /** Every change of an odd number of bits, wherever they are, changes the CRC. */
  lemma OddChangeDetected(m: seq<byte>, m': seq<byte>)
    requires OddMessage(m) != OddMessage(m')
    ensures Crc(m) != Crc(m')
  {
    OddPolynomial(POLY8);
    ParityTracked(POLY8, m, 0);
    ParityTracked(POLY8, m', 0);
  }

  lemma OddPolynomial(p: nat)
    requires p == 0x8C
    ensures Odd(p)
  {
    OddUnfolds(p);
    OddUnfolds(p / 2);
    OddUnfolds(p / 2 / 2);
    OddUnfolds(p / 2 / 2 / 2);
    var q := p / 2 / 2 / 2 / 2;
    assert q == 8;
    OddUnfolds(q);
    OddUnfolds(q / 2);
    OddUnfolds(q / 2 / 2);
    OddUnfolds(q / 2 / 2 / 2);
  }

  /** `validAddress`: the last byte of a ROM code is the CRC of the first seven. */
  predicate ValidAddress(rom: seq<byte>)
    requires |rom| == 8
  {
    Crc(rom[..7]) == rom[7]
  }

  lemma ValidIsResidue(rom: seq<byte>)
    requires |rom| == 8
    ensures ValidAddress(rom) <==> Crc(rom) == 0
  {
    assert rom[..7] + [rom[7]] == rom;
    Residue(rom[..7], rom[7]);
  }

  /** No valid ROM code becomes another valid one by a change of one byte, ... */
  lemma OneByteCorruption(rom: seq<byte>, i: nat, b: byte)
    requires |rom| == 8 && i < 8 && ValidAddress(rom)
    ensures ValidAddress(rom[i := b]) <==> b == rom[i]
  {
    PolyFills();
    ValidIsResidue(rom);
    ValidIsResidue(rom[i := b]);
    assert rom == rom[..i] + [rom[i]] + rom[i + 1..];
    assert rom[i := b] == rom[..i] + [b] + rom[i + 1..];
    OneByteDetected(POLY8, rom[..i], rom[i], b, rom[i + 1..], 0, 8);
  }

  /** ... by a burst of up to eight bits across two bytes, ... */
  lemma BurstCorruption(rom: seq<byte>, i: nat, b: byte, c: byte, k: nat)
    requires |rom| == 8 && i < 7 && ValidAddress(rom)
    requires Burst(Xor(rom[i], b), Xor(rom[i + 1], c), k)
    ensures ValidAddress(rom[i := b][i + 1 := c]) <==> b == rom[i] && c == rom[i + 1]
  {
    PolyFills();
    ValidIsResidue(rom);
    var bad := rom[i := b][i + 1 := c];
    ValidIsResidue(bad);
    assert rom == rom[..i] + [rom[i]] + [rom[i + 1]] + rom[i + 2..];
    assert bad == rom[..i] + [b] + [c] + rom[i + 2..];
    BurstDetected(POLY8, rom[..i], rom[i], rom[i + 1], b, c, rom[i + 2..], 0, k, 8);
  }

  /** ... or by a change of an odd number of bits. */
  lemma OddCorruption(rom: seq<byte>, bad: seq<byte>)
    requires |rom| == |bad| == 8 && ValidAddress(rom) && OddMessage(rom) != OddMessage(bad)
    ensures !ValidAddress(bad)
  {
    ValidIsResidue(rom);
    ValidIsResidue(bad);
    OddChangeDetected(rom, bad);
  }
}

/** The 16-bit CRC of larger 1-Wire devices: polynomial x^16 + x^15 + x^2 + 1. */
module Crc16 {
  import opened Words
  import opened ShiftRegister

  const POLY16 := 0xA001

  lemma PolyFills()
    ensures Fills(POLY16, 16) && Left(1, 16) == 0x1_0000
  {
    assert Left(1, 8) == 0x100;
    assert Left(1, 15) == 0x8000;
  }

  const ODD_PARITY: seq<nat> := [0, 1, 1, 0, 1, 0, 0, 1, 1, 0, 0, 1, 0, 1, 1, 0]

  lemma OddParityTable(n: nat)
    requires n < 16
    ensures ODD_PARITY[n] == if Odd(n) then 1 else 0
  {
    OddUnfolds(n);
    OddUnfolds(n / 2);
    OddUnfolds(n / 2 / 2);
    OddUnfolds(n / 2 / 2 / 2);
    assert n / 2 / 2 / 2 / 2 == 0;
  }

  // ----- The parity trick -----

  /** What the source adds to the shifted register for the byte `d`. */
  function Trick(d: nat): nat {
    Xor(if Odd(d) then 0xC001 else 0, Xor(Left(d, 6), Left(d, 7)))
  }

  lemma TrickLinear(x: nat, y: nat)
    ensures Trick(Xor(x, y)) == Xor(Trick(x), Trick(y))
  {
    OddOfXor(x, y);
    XorLeft(x, y, 6);
    XorLeft(x, y, 7);
    var f, g := if Odd(x) then 0xC001 else 0, if Odd(y) then 0xC001 else 0;
    XorZero(f);
    XorZero(g);
    Regroup(Left(x, 6), Left(y, 6), Left(x, 7), Left(y, 7));
    Regroup(f, g, Xor(Left(x, 6), Left(x, 7)), Xor(Left(y, 6), Left(y, 7)));
  }

  /** A single 1 after `m` shifts; `c` is 0xC001. */
  function Walked(c: nat, m: nat): nat
    requires m <= 14
  {
    Xor(c, Xor(Left(1, 14 - m), Left(1, 15 - m)))
  }

  /** 3 ^ 5 == 6, thirteen places up. */
  lemma ThreeAndFive(three: nat, five: nat, c: nat)
    requires three == 3 && five == 5 && c == 0xC001
    ensures Xor(Left(three, 13), POLY16) == c && Left(three, 13) == 0x6000
  {
    assert Xor(three, five) == 6 by {
      XorUnfolds(three, five);
      XorUnfolds(three / 2, five / 2);
      XorUnfolds(three / 2 / 2, five / 2 / 2);
    }
    assert Left(3, 13) == 0x6000 && Left(5, 13) == 0xA000 && Left(6, 13) == 0xC000 && Left(1, 13) == 0x2000;
    XorLeft(three, five, 13);
    XorDisjoint(five, 1, 13);
    XorDisjoint(6, 1, 13);
    XorAssociates(Left(three, 13), Left(five, 13), 1);
  }

  lemma XorOfDoubles(a: nat, b: nat, x: nat, y: nat)
    requires a == 2 * x && b == 2 * y
    ensures Xor(a, b) % 2 == 0 && Xor(a, b) / 2 == Xor(x, y)
  {
    XorUnfolds(a, b);
  }

  lemma HalfOfPair(m: nat)
    requires m < 14
    ensures var t := Xor(Left(1, 14 - m), Left(1, 15 - m));
            t % 2 == 0 && t / 2 == Xor(Left(1, 13 - m), Left(1, 14 - m))
  {
    XorOfDoubles(Left(1, 14 - m), Left(1, 15 - m), Left(1, 13 - m), Left(1, 14 - m));
  }

  lemma HalfOfFeedback(c: nat, t: nat)
    requires c == 0xC001 && t % 2 == 0
    ensures Xor(c, t) % 2 == 1 && Xor(c, t) / 2 == Xor(0x6000, t / 2)
  {
    XorUnfolds(c, t);
  }

  lemma WalkedHalves(c: nat, m: nat)
    requires c == 0xC001 && 1 <= m < 14
    ensures Walked(c, m) % 2 == 1
    ensures Walked(c, m) / 2 == Xor(0x6000, Xor(Left(1, 13 - m), Left(1, 14 - m)))
  {
    HalfOfPair(m);
    HalfOfFeedback(c, Xor(Left(1, 14 - m), Left(1, 15 - m)));
  }

  lemma WalkedStep(c: nat, m: nat, three: nat, five: nat)
    requires c == 0xC001 && 1 <= m < 14 && three == 3 && five == 5
    ensures Shift(POLY16, Walked(c, m)) == Walked(c, m + 1)
  {
    WalkedHalves(c, m);
    var t := Xor(Left(1, 13 - m), Left(1, 14 - m));
    ThreeAndFive(three, five, c);
    var x := Left(three, 13);
    XorCommutes(x, t);
    XorAssociates(t, x, POLY16);
    XorCommutes(t, c);
  }

  lemma FirstWalk(one: nat, three: nat, five: nat, c: nat)
    requires one == 1 && three == 3 && five == 5 && c == 0xC001
    ensures Shift(POLY16, one) == Walked(c, 1)
  {
    ThreeAndFive(three, five, c);
    var x := Left(three, 13);
    var (a, b) := (Left(one, 13), Left(one, 14));
    assert Left(1, 13) == 0x2000 && Left(1, 14) == 0x4000;
    XorDisjoint(one, a, 14);
    XorCommutes(a, b);
    XorCommutes(c, x);
    XorAssociates(x, x, POLY16);
    XorZero(x);
    XorZero(POLY16);
  }

  lemma {:induction false} SingleOne(one: nat, m: nat, c: nat)
    requires one == 1 && c == 0xC001 && 1 <= m <= 14
    ensures Shifts(POLY16, one, m) == Walked(c, m)
    decreases m
  {
    if m == 1 {
      FirstWalk(one, 3, 5, c);
      assert Shifts(POLY16, one, 1) == Shift(POLY16, one);
    } else {
      SingleOne(one, m - 1, c);
      ShiftsAdd(POLY16, one, m - 1, 1);
      WalkedStep(c, m - 1, 3, 5);
    }
  }

  lemma TrickOnBit(one: nat, k: nat, w: nat)
    requires one == 1 && k < 8 && w == 8
    ensures Shifts(POLY16, Left(one, k), w) == Trick(Left(one, k))
  {
    ShiftsAdd(POLY16, Left(one, k), k, w - k);
    ShiftsOfLeft(POLY16, one, k);
    SingleOne(one, w - k, 0xC001);
    LeftAdds(one, k, 6);
    LeftAdds(one, k, 7);
    OddOfLeft(one, k);
    OddUnfolds(one);
  }

  lemma TrickAddsUp(x: nat, y: nat, z: nat, w: nat)
    requires Shifts(POLY16, x, w) == Trick(x) && Shifts(POLY16, y, w) == Trick(y) && z == Xor(x, y)
    ensures Shifts(POLY16, z, w) == Trick(z)
  {
    ShiftsLinear(POLY16, x, y, w);
    TrickLinear(x, y);
  }

  lemma TrickOnZero(d: nat, w: nat)
    requires d == 0
    ensures Shifts(POLY16, d, w) == Trick(d)
  {
    ShiftsOfLeft(POLY16, d, w);
    LeftOfZero(w);
    LeftEight(d);
    XorZero(d);
  }

  lemma TrickOnMoreBits(one: nat, d: nat, rest: nat, k: nat, w: nat)
    requires one == 1 && k < 8 && d == Left(one, k) + rest && rest < Left(one, k) && w == 8
    requires Shifts(POLY16, rest, w) == Trick(rest)
    ensures Shifts(POLY16, d, w) == Trick(d)
  {
    TrickOnBit(one, k, w);
    XorDisjoint(one, rest, k);
    TrickAddsUp(Left(one, k), rest, d, w);
  }

  /** For one byte the trick equals eight shifts. */
  lemma {:induction false} TrickOnByte(one: nat, d: nat, k: nat, w: nat)
    requires one == 1 && k <= 8 && d < Left(one, k) && w == 8
    ensures Shifts(POLY16, d, w) == Trick(d)
    decreases k
  {
    if k == 0 {
      TrickOnZero(d, w);
    } else if d < Left(one, k - 1) {
      TrickOnByte(one, d, k - 1, w);
    } else {
      var rest := d - Left(one, k - 1);
      TrickOnByte(one, rest, k - 1, w);
      TrickOnMoreBits(one, d, rest, k - 1, w);
    }
  }

  lemma RightEight(x: nat)
    ensures Right(x, 8) == x / 256
  {
    assert Right(x / 128, 1) == Right(x / 128 / 2, 0) == x / 256;
    assert Right(x / 64, 2) == Right(x / 64 / 2, 1);
    assert Right(x / 32, 3) == Right(x / 32 / 2, 2);
    assert Right(x / 16, 4) == Right(x / 16 / 2, 3);
    assert Right(x / 8, 5) == Right(x / 8 / 2, 4);
    assert Right(x / 4, 6) == Right(x / 4 / 2, 5);
    assert Right(x / 2, 7) == Right(x / 2 / 2, 6);
  }

  lemma LeftEight(x: nat)
    ensures Left(x, 1) == 2 * x && Left(x, 2) == 4 * x && Left(x, 3) == 8 * x && Left(x, 4) == 16 * x
    ensures Left(x, 5) == 32 * x && Left(x, 6) == 64 * x && Left(x, 7) == 128 * x && Left(x, 8) == 256 * x
  {
    assert Left(x, 1) == 2 * x;
    assert Left(x, 2) == 2 * Left(x, 1);
    assert Left(x, 3) == 2 * Left(x, 2);
    assert Left(x, 4) == 2 * Left(x, 3);
    assert Left(x, 5) == 2 * Left(x, 4);
    assert Left(x, 6) == 2 * Left(x, 5);
    assert Left(x, 7) == 2 * Left(x, 6);
  }

  /** The byte taken in does not reach the upper part of the register. */
  lemma UpperPart(crc: nat, b: byte, x: nat)
    requires x == Xor(b, crc)
    ensures x / 256 == crc / 256
  {
    XorRight(b, crc, 8);
    RightEight(b);
    RightEight(crc);
    RightEight(x);
    XorZero(crc / 256);
  }

  lemma PartsOf(x: nat, h: nat, d: nat, w: nat)
    requires w == 8 && h == x / 256 && d == x % 256
    ensures x == Xor(Left(h, w), d) && d < Left(1, w)
  {
    LeftEight(h);
    LeftEight(1);
    XorDisjoint(h, d, w);
  }

  /** In `w == 8` shifts the upper part moves down, and only the lowest byte feeds back. */
  lemma TrickIsUpdateOf(x: nat, h: nat, d: nat, one: nat, w: nat)
    requires h == x / 256 && d == x % 256 && one == 1 && w == 8
    ensures Shifts(POLY16, x, w) == Xor(h, Trick(d))
  {
    PartsOf(x, h, d, w);
    ShiftsLinear(POLY16, Left(h, w), d, w);
    ShiftsOfLeft(POLY16, h, w);
    TrickOnByte(one, d, w, w);
  }

  /** The byte form of the source does what eight shifts do. */
  lemma TrickIsUpdate(crc: nat, b: byte)
    ensures Shifts(POLY16, Xor(b, crc), 8) == Xor(crc / 256, Trick(Xor(b, crc) % 256))
  {
    var x := Xor(b, crc);
    UpperPart(crc, b, x);
    TrickIsUpdateOf(x, x / 256, x % 256, 1, 8);
  }

  lemma ParityOfParts(h: nat, l: nat)
    requires l < 16
    ensures Odd(16 * h + l) <==> Odd(h) != Odd(l)
  {
    LeftEight(1);
    LeftEight(h);
    XorDisjoint(h, l, 4);
    OddOfXor(Left(h, 4), l);
    OddOfLeft(h, 4);
  }

  lemma ParityOfTableRows(h: nat, l: nat)
    requires h < 16 && l < 16
    ensures Odd(16 * h + l) <==> ODD_PARITY[l] != ODD_PARITY[h]
  {
    ParityOfParts(h, l);
    OddParityTable(l);
    OddParityTable(h);
  }

  lemma ParityOfNibbles(d: byte)
    ensures Odd(d) <==> ODD_PARITY[d % 16] != ODD_PARITY[d / 16]
  {
    var (h, l) := (d / 16, d % 16);
    assert d == 16 * h + l;
    ParityOfTableRows(h, l);
  }

  /** The assignments of the source, one after the other. */
  lemma UpdateInSteps(crc: nat, b: byte, d: byte)
    requires d == Xor(b, crc) % 0x100
    ensures var r := if Odd(d) then Xor(crc / 0x100, 0xC001) else crc / 0x100;
            Xor(Xor(r, 64 * d), 128 * d) == Shifts(POLY16, Xor(b, crc), 8)
  {
    TrickIsUpdate(crc, b);
    LeftEight(d);
    var (q, f) := (crc / 0x100, if Odd(d) then 0xC001 else 0);
    XorZero(q);
    XorAssociates(Xor(q, f), 64 * d, 128 * d);
    XorAssociates(q, f, Xor(64 * d, 128 * d));
  }

  lemma NoOverflow(d: byte)
    ensures (d * 64) % 0x1_0000 == 64 * d && (64 * d * 2) % 0x1_0000 == 128 * d
  {
  }

  method Crc16Byte(crc: nat, b: byte) returns (crc': nat)
    ensures crc' == Shifts(POLY16, Xor(b, crc), 8)
  {
    var cdata: nat := b;
    cdata := Xor(cdata, crc) % 0x100;
    UpdateInSteps(crc, b, cdata);
    ParityOfNibbles(cdata);
    NoOverflow(cdata);
    crc' := crc / 0x100;
    if ODD_PARITY[cdata % 0x10] != ODD_PARITY[cdata / 0x10] {
      crc' := Xor(crc', 0xC001);
    }
    cdata := (cdata * 64) % 0x1_0000;
    crc' := Xor(crc', cdata);
    cdata := (cdata * 2) % 0x1_0000;
    crc' := Xor(crc', cdata);
  }

  /** The parity form, as in the source; `start` continues an earlier message. */
  method Crc16(input: seq<byte>, start: word) returns (crc: nat)
    ensures crc == CrcFrom(POLY16, input, start)
  {
    crc := start;
    for i := 0 to |input|
      invariant CrcFrom(POLY16, input[i..], crc) == CrcFrom(POLY16, input, start)
    {
      CrcStep(POLY16, input, i, crc);
      crc := Crc16Byte(crc, input[i]);
    }
  }

  /** Accepts two received bytes, low byte first, exactly when they are the inverted CRC. */
  method CheckCrc16(input: seq<byte>, invertedCrc: seq<byte>, start: word) returns (ok: bool)
    requires |invertedCrc| >= 2
    ensures ok <==> invertedCrc[0] as int + 0x100 * invertedCrc[1] as int == 0xFFFF - CrcFrom(POLY16, input, start)
  {
    var crc := Crc16(input, start);
    PolyFills();
    CrcKeepsWidth(POLY16, input, start, 16);
    crc := 0xFFFF - crc;
    ok := crc % 0x100 == invertedCrc[0] && crc / 0x100 == invertedCrc[1];
  }

  /** A received message whose CRC check passed fails it after any change of one byte of it. */
  lemma ChangeRejected(input: seq<byte>, i: nat, b: byte, received: nat, start: word)
    requires i < |input| && received == 0xFFFF - CrcFrom(POLY16, input, start)
    ensures received == 0xFFFF - CrcFrom(POLY16, input[i := b], start) <==> b == input[i]
  {
    PolyFills();
    assert input == input[..i] + [input[i]] + input[i + 1..];
    assert input[i := b] == input[..i] + [b] + input[i + 1..];
    OneByteDetected(POLY16, input[..i], input[i], b, input[i + 1..], start, 16);
  }
}
