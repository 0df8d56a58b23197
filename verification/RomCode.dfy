/** The 64-bit ROM code of a 1-Wire device in the order in which it goes over the bus (least
    significant bit of the family byte first), and the order in which a search meets codes. */
module RomCode {

  const BITS := 64

  type Code = c: seq<bool> | |c| == BITS witness seq(BITS, _ => false)

  /** `a` and `b` agree on their first `n` bits. */
  ghost predicate Agree(a: Code, b: Code, n: nat) {
    forall j | 0 <= j < n && j < BITS :: a[j] == b[j]
  }

  /** Distinct codes have a first bit at which they differ, at or after any common prefix. */
  lemma {:induction false} FirstDifference(a: Code, b: Code, n: nat) returns (i: nat)
    requires a != b && n <= BITS && Agree(a, b, n)
    ensures n <= i < BITS && Agree(a, b, i) && a[i] != b[i]
    decreases BITS - n
  {
    if n == BITS {
      assert false;
    } else if a[n] != b[n] {
      i := n;
    } else {
      i := FirstDifference(a, b, n + 1);
    }
  }

  /** `a` comes before `b`: at their first differing bit, `a` has the 0. */
  ghost predicate Less(a: Code, b: Code) {
    exists i | 0 <= i < BITS :: Agree(a, b, i) && !a[i] && b[i]
  }

  lemma LessTransitive(a: Code, b: Code, c: Code)
    requires Less(a, b) && Less(b, c)
    ensures Less(a, c)
  {
    var i :| 0 <= i < BITS && Agree(a, b, i) && !a[i] && b[i];
    var k :| 0 <= k < BITS && Agree(b, c, k) && !b[k] && c[k];
    var m := if i < k then i else k;
    assert Agree(a, c, m) && !a[m] && c[m];
  }

  lemma LessTrichotomy(a: Code, b: Code)
    ensures !Less(a, a)
    ensures Less(a, b) || a == b || Less(b, a)
    ensures !(Less(a, b) && Less(b, a))
  {
    if a != b {
      var i := FirstDifference(a, b, 0);
      assert Agree(b, a, i);
    }
    if Less(a, b) && Less(b, a) {
      LessTransitive(a, b, a);
    }
  }
}
