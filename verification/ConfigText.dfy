/** C strings: characters up to the first NUL. */
module CStrings {
  const NUL := '\0'

  predicate NulFree(s: string) {
    NUL !in s
  }

  /** What a C string at the start of `b` reads as. */
  function CString(b: seq<char>): (s: string)
    ensures |s| <= |b| && NulFree(s)
  {
    if b == [] || b[0] == NUL then [] else [b[0]] + CString(b[1..])
  }

  lemma {:induction false} CStringStops(s: string, rest: seq<char>)
    requires NulFree(s)
    ensures CString(s + [NUL] + rest) == s
    decreases |s|
  {
    if s == [] {
      assert s + [NUL] + rest == [NUL] + rest;
    } else {
      assert (s + [NUL] + rest)[1..] == s[1..] + [NUL] + rest;
      CStringStops(s[1..], rest);
    }
  }

  function Take(s: string, n: nat): (t: string)
    ensures t <= s && |t| == if |s| < n then |s| else n
  {
    if |s| <= n then s else s[..n]
  }

  /** A string in a field of `n` characters, the rest of it NUL. */
  function Padded(s: string, n: nat): (b: string)
    requires |s| <= n
    ensures |b| == n && forall j | 0 <= j < n :: b[j] == if j < |s| then s[j] else NUL
  {
    s + seq(n - |s|, _ => NUL)
  }

  /** The C string of the first `n` characters is the first `n` characters of the C string. */
  lemma {:induction false} CStringPrefix(b: seq<char>, n: nat)
    requires n <= |b|
    ensures CString(b[..n]) == Take(CString(b), n)
    decreases n
  {
    if n > 0 && b[0] != NUL {
      assert b[..n][1..] == b[1..][..n - 1];
      CStringPrefix(b[1..], n - 1);
    }
  }
}

/** Lists kept as one comma-separated string of bounded width: how the firmware reads an element, how
    it rewrites the whole string to change one, and exactly when that is a list update. */
module ConfigText {
  import opened CStrings

  const SEPARATOR := ','

  predicate Plain(s: string) {
    SEPARATOR !in s
  }

  predicate EndsInSeparator(s: string) {
    s != "" && s[|s| - 1] == SEPARATOR
  }

  predicate IsFirstSeparator(s: string, c: nat) {
    c <= |s| && Plain(s[..c]) && (c < |s| ==> s[c] == SEPARATOR)
  }

  lemma {:induction false} FirstSeparatorExists(s: string, n: nat)
    requires n <= |s| && Plain(s[..n])
    ensures exists c :: IsFirstSeparator(s, c)
    decreases |s| - n
  {
    if n == |s| || s[n] == SEPARATOR {
      assert IsFirstSeparator(s, n);
    } else {
      assert s[..n + 1] == s[..n] + [s[n]];
      FirstSeparatorExists(s, n + 1);
    }
  }

  /** Position of the first separator, or the length. */
  ghost function FirstSeparator(s: string): (c: nat)
    ensures IsFirstSeparator(s, c)
  {
    FirstSeparatorExists(s, 0);
    var c :| IsFirstSeparator(s, c);
    c
  }

  lemma PlainUpTo(s: string, n: nat)
    requires n <= |s| && Plain(s[..n])
    ensures forall j | 0 <= j < n :: s[j] != SEPARATOR
  {
    forall j | 0 <= j < n ensures s[j] != SEPARATOR { assert s[j] in s[..n]; }
  }

  lemma FirstSeparatorUnique(s: string, c: nat)
    requires IsFirstSeparator(s, c)
    ensures FirstSeparator(s) == c
  {
    PlainUpTo(s, c);
    PlainUpTo(s, FirstSeparator(s));
  }

  /** Element `i` as the firmware reads it: the last character of the string always ends an element
      and belongs to it, even when it is a separator. */
  ghost function Elem(s: string, i: nat): string
    decreases |s|
  {
    var c := FirstSeparator(s);
    if i == 0 then (if c + 1 == |s| then s else s[..c])
    else if c + 1 >= |s| then ""
    else Elem(s[c + 1..], i - 1)
  }

  ghost function Fields(s: string, n: nat): (f: seq<string>)
    ensures |f| == n
  {
    seq(n, j requires 0 <= j < n => Elem(s, j))
  }

  /** Every field followed by a separator. */
  function Join(f: seq<string>): string {
    if f == [] then "" else f[0] + [SEPARATOR] + Join(f[1..])
  }

  predicate AllPlain(f: seq<string>) {
    forall j | 0 <= j < |f| :: Plain(f[j])
  }

  /** The string stored after element `i` is set to `v`: all elements printed again, cut at `cap`. */
  ghost function Written(s: string, i: nat, v: string, cap: nat): string {
    Take(Join(NewFields(s, i, v, cap)), cap)
  }

  ghost function NewFields(s: string, i: nat, v: string, n: nat): (f: seq<string>)
    ensures |f| == n
  {
    seq(n, j requires 0 <= j < n => if j == i then v else Elem(s, j))
  }

  // ----- Joining -----

  lemma {:induction false} JoinAppend(a: seq<string>, b: seq<string>)
    ensures Join(a + b) == Join(a) + Join(b)
    decreases |a|
  {
    if a == [] {
      assert a + b == b;
    } else {
      assert (a + b)[1..] == a[1..] + b;
      JoinAppend(a[1..], b);
    }
  }

  lemma {:induction false} JoinLength(f: seq<string>)
    ensures |Join(f)| >= |f|
    ensures f != [] ==> EndsInSeparator(Join(f))
    decreases |f|
  {
    if f != [] {
      JoinLength(f[1..]);
    }
  }

  /** A longer list of fields extends the printed string. */
  lemma JoinPrefix(f: seq<string>, n: nat)
    requires n <= |f|
    ensures Join(f[..n]) <= Join(f)
  {
    assert f == f[..n] + f[n..];
    JoinAppend(f[..n], f[n..]);
  }

  // ----- Parsing what was printed -----

  lemma FirstSeparatorOf(a: string, b: string)
    requires Plain(a)
    ensures FirstSeparator(a + [SEPARATOR] + b) == |a|
  {
    var s := a + [SEPARATOR] + b;
    assert s[..|a|] == a;
    FirstSeparatorUnique(s, |a|);
  }

  lemma FirstSeparatorOfPlain(a: string)
    requires Plain(a)
    ensures FirstSeparator(a) == |a|
  {
    assert a[..|a|] == a;
    FirstSeparatorUnique(a, |a|);
  }

  /** A plain field, a separator and more: the field is element 0, the others come after it. */
  lemma ElemStep(x: string, rest: string, s: string, j: nat)
    requires Plain(x) && rest != "" && s == x + [SEPARATOR] + rest
    ensures Elem(s, j) == if j == 0 then x else Elem(rest, j - 1)
  {
    FirstSeparatorOf(x, rest);
    assert s[..|x|] == x && s[|x| + 1..] == rest;
  }

  /** Printed fields read back, as long as something follows them. */
  lemma {:induction false} ElemOfJoin(f: seq<string>, rest: string, j: nat)
    requires AllPlain(f) && rest != "" && j < |f|
    ensures Elem(Join(f) + rest, j) == f[j]
    decreases j
  {
    var tail := Join(f[1..]) + rest;
    assert Join(f) + rest == f[0] + [SEPARATOR] + tail;
    ElemStep(f[0], tail, Join(f) + rest, j);
    if j > 0 {
      ElemOfJoin(f[1..], rest, j - 1);
    }
  }

  /** Fields with separators between them. */
  function OpenJoin(f: seq<string>): string
    requires f != []
  {
    if |f| == 1 then f[0] else f[0] + [SEPARATOR] + OpenJoin(f[1..])
  }

  lemma {:induction false} OpenJoinIsJoin(f: seq<string>)
    requires f != []
    ensures OpenJoin(f) + [SEPARATOR] == Join(f)
    decreases |f|
  {
    if |f| == 1 {
      assert Join(f[1..]) == "";
    } else {
      OpenJoinIsJoin(f[1..]);
      assert OpenJoin(f) + [SEPARATOR] == f[0] + [SEPARATOR] + (OpenJoin(f[1..]) + [SEPARATOR]);
    }
  }

  lemma {:induction false} OpenJoinNotEmpty(f: seq<string>)
    requires f != [] && f[|f| - 1] != ""
    ensures OpenJoin(f) != ""
  {
  }

  lemma ElemOfPlain(x: string, j: nat)
    requires Plain(x)
    ensures Elem(x, j) == if j == 0 then x else ""
  {
    FirstSeparatorOfPlain(x);
  }

  lemma ElemOfMore(x: string, g: seq<string>, f: seq<string>, j: nat)
    requires Plain(x) && g != [] && f == [x] + g && OpenJoin(g) != ""
    ensures Elem(OpenJoin(f), j) == if j == 0 then x else Elem(OpenJoin(g), j - 1)
  {
    assert f[1..] == g;
    ElemStep(x, OpenJoin(g), OpenJoin(f), j);
  }

  /** Printed fields also read back without the final separator, if the last one is not empty. */
  lemma {:induction false} ElemOfOpenJoin(f: seq<string>, j: nat)
    requires AllPlain(f) && f != [] && f[|f| - 1] != ""
    ensures Elem(OpenJoin(f), j) == if j < |f| then f[j] else ""
    decreases |f|
  {
    if |f| == 1 {
      ElemOfPlain(f[0], j);
    } else {
      var g := f[1..];
      assert g[|g| - 1] == f[|f| - 1];
      OpenJoinNotEmpty(g);
      ElemOfMore(f[0], g, f, j);
      if j > 0 {
        ElemOfOpenJoin(g, j - 1);
      }
    }
  }

  // ----- Elements of a stored string -----

  /** An element holds a separator exactly when the string ends in one and the element is its last:
      elements and separators up to it then add up to the string. */
  lemma {:induction false} OnlyLastHasSeparator(s: string, j: nat)
    ensures !Plain(Elem(s, j)) <==> EndsInSeparator(s) && |Join(Fields(s, j + 1))| == |s| + 1
    decreases |s|
  {
    var c := FirstSeparator(s);
    var f := Fields(s, j + 1);
    assert f[0] == Elem(s, 0);
    if j == 0 {
      assert f[1..] == [];
    } else if c + 1 < |s| {
      OnlyLastHasSeparator(s[c + 1..], j - 1);
      assert f[1..] == Fields(s[c + 1..], j);
    } else {
      JoinLength(f[1..]);
    }
  }

  lemma FieldsPrefix(s: string, m: nat, n: nat)
    requires m <= n
    ensures Fields(s, n)[..m] == Fields(s, m)
  {
  }

  /** A well-kept string is full, or does not end in a separator. */
  predicate WellKept(s: string, cap: nat) {
    |s| == cap || (|s| < cap && !EndsInSeparator(s))
  }

  lemma ShortFieldsArePlain(s: string, cap: nat, n: nat)
    requires WellKept(s, cap) && |Join(Fields(s, n))| < cap
    ensures AllPlain(Fields(s, n))
  {
    forall j | 0 <= j < n ensures Plain(Fields(s, n)[j]) {
      OnlyLastHasSeparator(s, j);
      FieldsPrefix(s, j + 1, n);
      JoinPrefix(Fields(s, n), j + 1);
    }
  }

  // ----- Writing an element -----

  lemma NewFieldsPrefix(s: string, i: nat, v: string, m: nat, n: nat)
    requires m <= n
    ensures NewFields(s, i, v, n)[..m] == NewFields(s, i, v, m)
  {
  }

  /** The stored string is the beginning of the printed first `n` fields, for any `n` that prints at
      least `cap` characters. */
  lemma WrittenIsPrefix(s: string, i: nat, v: string, cap: nat, n: nat)
    requires |Join(NewFields(s, i, v, n))| >= cap
    ensures Written(s, i, v, cap) == Join(NewFields(s, i, v, n))[..cap]
  {
    JoinLength(NewFields(s, i, v, cap));
    if n <= cap {
      NewFieldsPrefix(s, i, v, n, cap);
      JoinPrefix(NewFields(s, i, v, cap), n);
    } else {
      NewFieldsPrefix(s, i, v, cap, n);
      JoinPrefix(NewFields(s, i, v, n), cap);
    }
  }

  lemma WrittenIsFull(s: string, i: nat, v: string, cap: nat)
    ensures |Written(s, i, v, cap)| == cap
  {
    JoinLength(NewFields(s, i, v, cap));
  }

  /** The stored string begins with the printed fields that fit. */
  lemma WrittenBegins(s: string, i: nat, v: string, cap: nat, n: nat)
    requires |Join(NewFields(s, i, v, n))| < cap
    ensures Join(NewFields(s, i, v, n)) <= Written(s, i, v, cap)
  {
    JoinLength(NewFields(s, i, v, cap));
    JoinLength(NewFields(s, i, v, n));
    NewFieldsPrefix(s, i, v, n, cap);
    JoinPrefix(NewFields(s, i, v, cap), n);
  }

  /** As long as `n` printed fields stay below the width, they all read back. */
  lemma WrittenReadsBack(s: string, i: nat, v: string, cap: nat, n: nat)
    requires AllPlain(NewFields(s, i, v, n)) && |Join(NewFields(s, i, v, n))| < cap
    ensures Fields(Written(s, i, v, cap), n) == NewFields(s, i, v, n)
  {
    var f := NewFields(s, i, v, n);
    var w := Written(s, i, v, cap);
    WrittenBegins(s, i, v, cap, n);
    WrittenIsFull(s, i, v, cap);
    var rest := w[|Join(f)|..];
    assert w == Join(f) + rest && rest != "";
    forall j | 0 <= j < n ensures Fields(w, n)[j] == f[j] { ElemOfJoin(f, rest, j); }
  }

  /** The store refines an array: if the first `n` fields with a separator each stay below the width
      before and after, writing a plain value changes exactly its field, and the string stays
      well kept. */
  lemma WriteIsUpdate(s: string, i: nat, v: string, cap: nat, n: nat)
    requires WellKept(s, cap) && i < n && Plain(v)
    requires |Join(Fields(s, n))| < cap && |Join(Fields(s, n)[i := v])| < cap
    ensures Fields(Written(s, i, v, cap), n) == Fields(s, n)[i := v]
    ensures WellKept(Written(s, i, v, cap), cap)
  {
    ShortFieldsArePlain(s, cap, n);
    assert NewFields(s, i, v, n) == Fields(s, n)[i := v];
    WrittenReadsBack(s, i, v, cap, n);
    WrittenIsFull(s, i, v, cap);
  }

  /** Characters in the fields themselves. */
  function Total(f: seq<string>): nat {
    if f == [] then 0 else |f[0]| + Total(f[1..])
  }

  lemma {:induction false} JoinTotal(f: seq<string>)
    ensures |Join(f)| == Total(f) + |f|
    decreases |f|
  {
    if f != [] { JoinTotal(f[1..]); }
  }

  const PIN_FIELDS := 18
  const PIN_WIDTH := 36

  /** A pin record of 18 fields in 36 characters is never corrupted while its fields take fewer than
      18 characters. */
  lemma PinRecordUpdate(s: string, i: nat, v: string)
    requires WellKept(s, PIN_WIDTH) && i < PIN_FIELDS && Plain(v)
    requires Total(Fields(s, PIN_FIELDS)) < 18 && Total(Fields(s, PIN_FIELDS)[i := v]) < 18
    ensures var w := Written(s, i, v, PIN_WIDTH);
            Fields(w, PIN_FIELDS) == Fields(s, PIN_FIELDS)[i := v] && WellKept(w, PIN_WIDTH)
  {
    JoinTotal(Fields(s, PIN_FIELDS));
    JoinTotal(Fields(s, PIN_FIELDS)[i := v]);
    WriteIsUpdate(s, i, v, PIN_WIDTH, PIN_FIELDS);
  }

  // ----- Exactly when a write survives -----

  /** The fields up to the last one that is not empty. */
  function Trim(f: seq<string>): (t: seq<string>)
    ensures |t| <= |f| && t == f[..|t|]
    ensures forall j | |t| <= j < |f| :: f[j] == ""
    ensures t != [] ==> t[|t| - 1] != ""
  {
    if f != [] && f[|f| - 1] == "" then Trim(f[..|f| - 1]) else f
  }

  /** The printed fields stay below the width, or the last one that is not empty ends exactly there. */
  predicate Survives(f: seq<string>, cap: nat) {
    |Join(f)| < cap || (Trim(f) != [] && |Join(Trim(f))| == cap + 1)
  }

  lemma {:induction false} TrimUnique(f: seq<string>, n: nat)
    requires 0 < n <= |f| && f[n - 1] != "" && forall j | n <= j < |f| :: f[j] == ""
    ensures Trim(f) == f[..n]
  {
    var t := Trim(f);
    assert !(|t| < n);
    assert !(|t| > n);
  }

  lemma TrimCons(f: seq<string>)
    requires f != [] && Trim(f[1..]) != []
    ensures Trim(f) != [] && Join(Trim(f)) == f[0] + [SEPARATOR] + Join(Trim(f[1..]))
  {
    var t := Trim(f[1..]);
    assert t[|t| - 1] == f[|t|];
    forall j | |t| + 1 <= j < |f| ensures f[j] == "" { assert f[1..][j - 1] == ""; }
    TrimUnique(f, |t| + 1);
    assert f[..|t| + 1][1..] == t;
  }

  lemma LastElementOnly(w: string, n: nat)
    requires w != "" && Plain(w) && n > 0
    ensures Trim(Fields(w, n)) == [w] && Join([w]) == w + [SEPARATOR]
  {
    FirstSeparatorOfPlain(w);
    assert w[..|w|] == w;
    assert Elem(w, 0) == w;
    TrimUnique(Fields(w, n), 1);
    assert Fields(w, n)[..1] == [w];
    assert [w][1..] == [];
  }

  lemma FieldsStep(w: string, n: nat)
    requires n > 0 && FirstSeparator(w) + 1 < |w|
    ensures var c := FirstSeparator(w);
            var rest := w[c + 1..];
            && Fields(w, n) == [w[..c]] + Fields(rest, n - 1)
            && Join(Fields(w, n)) == w[..c + 1] + Join(Fields(rest, n - 1))
            && (EndsInSeparator(w) <==> EndsInSeparator(rest))
  {
    var c := FirstSeparator(w);
    assert Fields(w, n) == [w[..c]] + Fields(w[c + 1..], n - 1);
    assert w[..c + 1] == w[..c] + [SEPARATOR];
  }

  /** The first `n` elements of `w`, printed, end before `w` does, or include its last character. */
  ghost predicate EndsWithin(w: string, n: nat) {
    var f := Fields(w, n);
    || |Join(f)| < |w|
    || (!EndsInSeparator(w) && Trim(f) != [] && |Join(Trim(f))| == |w| + 1)
  }

  lemma EndsWithinStep(w: string, n: nat)
    requires n > 0 && FirstSeparator(w) + 1 < |w| && EndsWithin(w[FirstSeparator(w) + 1..], n - 1)
    ensures EndsWithin(w, n)
  {
    var f := Fields(w, n);
    FieldsStep(w, n);
    assert f[1..] == Fields(w[FirstSeparator(w) + 1..], n - 1);
    if Trim(f[1..]) != [] {
      TrimCons(f);
    }
  }

  lemma {:induction false} FieldsWithinString(w: string, n: nat)
    requires w != ""
    requires EndsInSeparator(w) ==> AllPlain(Fields(w, n))
    ensures EndsWithin(w, n)
    decreases n
  {
    if n > 0 {
      var c := FirstSeparator(w);
      assert Fields(w, n)[0] == Elem(w, 0);
      assert EndsInSeparator(w) ==> Plain(Fields(w, n)[0]);
      if c == |w| {
        LastElementOnly(w, n);
      } else if c + 1 < |w| {
        FieldsStep(w, n);
        assert Fields(w, n)[1..] == Fields(w[c + 1..], n - 1);
        FieldsWithinString(w[c + 1..], n - 1);
        EndsWithinStep(w, n);
      }
    }
  }

  lemma ExactFitReadsBack(f: seq<string>, w: string, cap: nat)
    requires AllPlain(f) && Trim(f) != [] && |Join(Trim(f))| == cap + 1
    requires |Join(f)| >= cap && w == Join(f)[..cap]
    ensures Fields(w, |f|) == f
  {
    var t := Trim(f);
    JoinPrefix(f, |t|);
    OpenJoinIsJoin(t);
    assert w == OpenJoin(t);
    forall j | 0 <= j < |f| ensures Fields(w, |f|)[j] == f[j] { ElemOfOpenJoin(t, j); }
  }

  /** A write of a plain value between plain fields reads back in the first `n` fields exactly when
      they survive. */
  lemma WriteSurvivesIff(s: string, i: nat, v: string, cap: nat, n: nat)
    requires cap > 0 && AllPlain(NewFields(s, i, v, n))
    ensures Fields(Written(s, i, v, cap), n) == NewFields(s, i, v, n) <==> Survives(NewFields(s, i, v, n), cap)
  {
    var f := NewFields(s, i, v, n);
    var w := Written(s, i, v, cap);
    if |Join(f)| < cap {
      WrittenReadsBack(s, i, v, cap, n);
    } else {
      WrittenIsPrefix(s, i, v, cap, n);
      if Fields(w, n) == f {
        FieldsWithinString(w, n);
      }
      if Survives(f, cap) {
        ExactFitReadsBack(f, w, cap);
      }
    }
  }

  // ----- A stored string that ends in a separator -----

  lemma {:induction false} SeparatorIsLast(s: string, j: nat)
    requires !Plain(Elem(s, j))
    ensures var e := Elem(s, j);
            EndsInSeparator(e) && Plain(e[..|e| - 1])
    decreases |s|
  {
    var c := FirstSeparator(s);
    if j > 0 && c + 1 < |s| {
      SeparatorIsLast(s[c + 1..], j - 1);
    }
  }

  /** Before the element that holds the separator all elements are free of it. */
  lemma EarlierArePlain(s: string, j: nat, k: nat)
    requires !Plain(Elem(s, j)) && k < j
    ensures Plain(Elem(s, k))
  {
    OnlyLastHasSeparator(s, j);
    OnlyLastHasSeparator(s, k);
    var f := Fields(s, j + 1);
    FieldsPrefix(s, k + 1, j + 1);
    assert f == f[..k + 1] + f[k + 1..];
    JoinAppend(f[..k + 1], f[k + 1..]);
    JoinLength(f[k + 1..]);
  }

  lemma JoinOne(f: seq<string>, e: string)
    ensures Join(f + [e]) == Join(f) + e + [SEPARATOR]
  {
    JoinAppend(f, [e]);
    assert [e][1..] == [];
  }

  /** A last field that ends in a separator is printed with two, and reads back without the first. */
  lemma LastOfPrinted(f: seq<string>, x: string, e: string, w: string)
    requires AllPlain(f) && Plain(x) && e == x + [SEPARATOR] && Join(f + [e]) <= w
    ensures Elem(w, |f|) == x
  {
    JoinOne(f, e);
    JoinOne(f, x);
    var n := |Join(f + [x])|;
    PrintedTwice(Join(f), x, e);
    assert Join(f + [e]) == Join(f + [x]) + [SEPARATOR];
    SplitAt(Join(f + [x]), w);
    ElemOfJoin(f + [x], w[n..], |f|);
  }

  lemma SplitAt(p: string, w: string)
    requires p + [SEPARATOR] <= w
    ensures w == p + w[|p|..] && w[|p|..] != ""
  {
  }

  lemma OthersPlain(s: string, j: nat, i: nat, v: string)
    requires !Plain(Elem(s, j)) && Plain(v)
    ensures AllPlain(NewFields(s, i, v, j))
  {
    forall k | 0 <= k < j && k != i ensures Plain(Elem(s, k)) { EarlierArePlain(s, j, k); }
  }

  lemma PrintedTwice(p: string, x: string, e: string)
    requires e == x + [SEPARATOR]
    ensures p + e + [SEPARATOR] == p + x + [SEPARATOR] + [SEPARATOR]
  {
    assert p + e == p + x + [SEPARATOR];
  }

  lemma NewFieldsMore(s: string, i: nat, v: string, j: nat)
    requires i != j
    ensures NewFields(s, i, v, j + 1) == NewFields(s, i, v, j) + [Elem(s, j)]
  {
  }

  /** However the string goes on after the printed fields. */
  lemma SeparatorMovesIn(s: string, j: nat, i: nat, v: string, w: string)
    requires !Plain(Elem(s, j)) && i != j && Plain(v) && Join(NewFields(s, i, v, j + 1)) <= w
    ensures Elem(w, j) + [SEPARATOR] == Elem(s, j)
  {
    var e := Elem(s, j);
    SeparatorIsLast(s, j);
    OthersPlain(s, j, i, v);
    NewFieldsMore(s, i, v, j);
    LastOfPrinted(NewFields(s, i, v, j), e[..|e| - 1], e, w);
  }

  /** Writing any other element of such a string takes the separator away from the one that held it. */
  lemma TrailingSeparatorMoves(s: string, j: nat, i: nat, v: string, cap: nat)
    requires !Plain(Elem(s, j)) && i != j && Plain(v) && |Join(NewFields(s, i, v, j + 1))| < cap
    ensures Elem(Written(s, i, v, cap), j) + [SEPARATOR] == Elem(s, j)
  {
    WrittenBegins(s, i, v, cap, j + 1);
    SeparatorMovesIn(s, j, i, v, Written(s, i, v, cap));
  }

  /** So in "a,", where element 0 reads as "a,", writing element 1 turns it into "a". */
  lemma TrailingSeparatorExample()
    ensures Elem("a,", 0) == "a," && Elem(Written("a,", 1, "b", 9), 0) == "a"
  {
    FirstSeparatorOf("a", "");
    assert "a" + [SEPARATOR] + "" == "a,";
    var f := NewFields("a,", 1, "b", 1);
    assert f == ["a,"] && f[1..] == [] && Join(f) == "a,,";
    TrailingSeparatorMoves("a,", 0, 1, "b", 9);
    assert Elem(Written("a,", 1, "b", 9), 0) + [SEPARATOR] == "a,";
    assert (Elem(Written("a,", 1, "b", 9), 0) + [SEPARATOR])[..1] == "a";
  }
}
