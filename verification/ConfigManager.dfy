/** One configuration value in its fixed character buffer. */
module ConfigOption {
  import opened CStrings
  import opened ConfigText

  class ConfigOption {
    const key: nat
    const loadKey: bool
    /** Length of the buffer: the declared width and room for the final NUL, or 0. */
    const maxLength: nat
    /** Allocated for loaded keys of some width only. */
    const value: array?<char>

    predicate Shape() {
      && (value != null <==> loadKey && maxLength > 0)
      && (value != null ==> value.Length == maxLength > 1)
    }

    /** The option's string is `t`: what the buffer holds, padded with NULs, or nothing. */
    ghost predicate Holds(t: string)
      reads value
    {
      && Shape()
      && if value == null then t == ""
         else && |t| < maxLength && NulFree(t)
              && forall j | 0 <= j < maxLength :: value[j] == if j < |t| then t[j] else NUL
    }

    /** The buffer as a C string. */
    lemma HeldString(t: string)
      requires Holds(t) && value != null
      ensures NulFree(t) && |t| < maxLength && value[..] == Padded(t, maxLength) && CString(value[..]) == t
    {
      assert value[..] == t + [NUL] + value[|t| + 1..];
      CStringStops(t, value[|t| + 1..]);
    }

    constructor (key: nat, initial: string, declared: nat, loadKey: bool)
      requires NulFree(initial)
      ensures this.key == key && this.loadKey == loadKey && maxLength == if declared > 0 then declared + 1 else 0
      ensures Holds(if loadKey then Take(initial, declared) else "")
      ensures value != null ==> fresh(value)
    {
      this.key, this.loadKey, this.maxLength := key, loadKey, if declared > 0 then declared + 1 else 0;
      var buffer: array?<char> := null;
      if declared > 0 && loadKey {
        buffer := new char[declared + 1](_ => NUL);
      }
      value := buffer;
      new;
      SetValue(initial);
    }

    /** `strncpy` and the final NUL. */
    method SetValue(s: string)
      requires Shape() && NulFree(s)
      modifies value
      ensures Holds(if value != null then Take(s, maxLength - 1) else "")
    {
      if value != null {
        for i := 0 to maxLength
          invariant forall j | 0 <= j < i :: value[j] == if j < |s| then s[j] else NUL
        {
          value[i] := if i < |s| then s[i] else NUL;
        }
        value[maxLength - 1] := NUL;
      }
    }

    /** Reads the buffer up to the NUL. */
    method GetValue(ghost t: string) returns (s: string)
      requires Holds(t)
      ensures s == t
    {
      if value == null {
        s := "";
      } else {
        HeldString(t);
        s := CString(value[..]);
      }
    }

    method GetElement(index: nat, ghost t: string) returns (e: string)
      requires Holds(t)
      ensures e == Elem(t, index)
    {
      var data := GetValue(t);
      e := FindElement(data, index);
    }

    /** The whole list printed again with one element replaced. */
    method ReplaceElement(index: nat, newValue: string, ghost t: string) returns (table: string)
      requires Holds(t) && NulFree(t) && NulFree(newValue)
      ensures NulFree(table)
      ensures maxLength > 0 ==> Take(table, maxLength - 1) == Written(t, index, newValue, maxLength - 1)
    {
      table := "";
      ghost var f := NewFields(t, index, newValue, if maxLength > 0 then maxLength - 1 else 0);
      for i := 0 to maxLength + 1
        invariant if i < maxLength then table == Join(f[..i]) else Join(f) <= table
        invariant NulFree(table)
      {
        var e := newValue;
        if i != index {
          e := GetElement(i, t);
          ElemIsPart(t, i);
        }
        if i < maxLength - 1 {
          JoinOneMore(f, i);
          table := table + e + [SEPARATOR];
        } else {
          assert i == maxLength - 1 ==> f[..i] == f;
          table := table + e;
        }
      }
      JoinLength(f);
    }

    /** The list printed again and stored. */
    method StoreElement(index: nat, newValue: string, ghost t: string)
      requires Holds(t) && NulFree(newValue)
      modifies value
      ensures Holds(if value != null then Written(t, index, newValue, maxLength - 1) else "")
    {
      if value != null {
        HeldString(t);
      }
      var data := ReplaceElement(index, newValue, t);
      SetValue(data);
    }
  }

  lemma JoinOneMore(f: seq<string>, i: nat)
    requires i < |f|
    ensures Join(f[..i + 1]) == Join(f[..i]) + f[i] + [SEPARATOR]
  {
    JoinAppend(f[..i], [f[i]]);
    assert f[..i + 1] == f[..i] + [f[i]];
    assert [f[i]][1..] == [];
  }

  lemma {:induction false} ElemIsPart(s: string, i: nat)
    ensures forall c | c in Elem(s, i) :: c in s
    decreases |s|
  {
    var c := FirstSeparator(s);
    if i > 0 && c + 1 < |s| {
      ElemIsPart(s[c + 1..], i - 1);
    }
  }

  /** Scanning at `i` after an element that ended at `to`: `want` is `left` elements further on. */
  ghost predicate Scanning(data: string, want: string, left: nat, i: nat, to: int) {
    && i <= |data|
    && (i < |data| ==> -1 <= to < i && Plain(data[to + 1..i]) && Elem(data[to + 1..], left) == want)
    && (i == |data| ==> want == "")
  }

  lemma ScanSkips(data: string, want: string, left: nat, i: nat, to: int)
    requires Scanning(data, want, left, i, to) && i + 1 < |data| && data[i] != SEPARATOR
    ensures Scanning(data, want, left, i + 1, to)
  {
    assert data[to + 1..i + 1] == data[to + 1..i] + [data[i]];
  }

  lemma ScanPasses(data: string, want: string, left: nat, i: nat, to: int)
    requires Scanning(data, want, left, i, to) && i < |data| && (data[i] == SEPARATOR || i == |data| - 1)
    ensures var to' := if i == |data| - 1 then i + 1 else i;
            if left == 0 then data[to + 1..to'] == want else Scanning(data, want, left - 1, i + 1, to')
  {
    ElementEnds(data, to + 1, i, left);
  }

  /** Either `want` is still `left` elements further on, or it is what `from` and `to` bound. */
  ghost predicate ScanState(data: string, want: string, left: int, i: nat, from: int, to: int) {
    if left >= 0 then Scanning(data, want, left, i, to)
    else 0 <= from <= to <= |data| && data[from..to] == want
  }

  lemma ScanStarts(data: string, index: nat) returns (want: string)
    ensures want == Elem(data, index) && ScanState(data, want, index, 0, 0, -1)
  {
    want := Elem(data, index);
    assert data[0..] == data;
  }

  /** One character of the scan. */
  lemma ScanStep(data: string, want: string, left: nat, i: nat, from: int, to: int)
    requires ScanState(data, want, left, i, from, to) && i < |data|
    ensures if data[i] == SEPARATOR || i == |data| - 1
            then ScanState(data, want, left - 1, i + 1, to + 1, if i == |data| - 1 then i + 1 else i)
            else ScanState(data, want, left, i + 1, from, to)
  {
    if data[i] == SEPARATOR || i == |data| - 1 {
      ScanPasses(data, want, left, i, to);
    } else {
      ScanSkips(data, want, left, i, to);
    }
  }

  /** The scan behind `getElement`: `from` and `to` bound the last element that ended. */
  method FindElement(data: string, index: nat) returns (e: string)
    ensures e == Elem(data, index)
  {
    ghost var want := ScanStarts(data, index);
    ghost var left: int := index;
    var found, from, to := 0, 0, -1;
    var maxIndex := |data| - 1;
    var i := 0;
    while i <= maxIndex && found <= index
      invariant 0 <= i <= maxIndex + 1 && 0 <= found <= index + 1 && left == index - found
      invariant ScanState(data, want, left, i, from, to)
      decreases maxIndex - i
    {
      ScanStep(data, want, left, i, from, to);
      if data[i] == SEPARATOR || i == maxIndex {
        found, left := found + 1, left - 1;
        from := to + 1;
        to := if i == maxIndex then i + 1 else i;
      }
      i := i + 1;
    }
    e := if found > index then data[from..to] else "";
  }

  /** The stretch from `from` up to the separator or last character at `i` is element 0 of what begins
      at `from`; the later ones begin after `i`. */
  lemma ElementEnds(data: string, from: nat, i: nat, j: nat)
    requires from <= i < |data| && Plain(data[from..i]) && (data[i] == SEPARATOR || i == |data| - 1)
    ensures Elem(data[from..], j)
            == if j == 0 then data[from..if i == |data| - 1 then i + 1 else i]
               else if i == |data| - 1 then "" else Elem(data[i + 1..], j - 1)
  {
    var rest := data[from..];
    var (a, b) := (data[from..i], data[i + 1..]);
    if data[i] == SEPARATOR {
      assert rest == a + [SEPARATOR] + b;
      FirstSeparatorOf(a, b);
      assert rest[|a| + 1..] == b;
    } else {
      assert rest == data[from..i + 1] == a + [data[i]];
      assert Plain(rest);
      FirstSeparatorOfPlain(rest);
    }
  }
}

/** The table of all options, and its image in the configuration file. */
module ConfigManager {
  import opened CStrings
  import opened ConfigText
  import opened ConfigOption

  // ----- The file image -----

  /** An option as the file sees it; `loaded` if there is a buffer for it. */
  datatype Slot = Slot(width: nat, loaded: bool, text: string) {
    predicate Valid() {
      NulFree(text) && if loaded then |text| < width else text == ""
    }
  }

  predicate AllValid(t: seq<Slot>) {
    forall i | 0 <= i < |t| :: t[i].Valid()
  }

  /** Where block `i` of the image begins. */
  function Offset(t: seq<Slot>, i: nat): nat
    requires i <= |t|
  {
    if i == 0 then 0 else Offset(t, i - 1) + t[i - 1].width
  }

  lemma {:induction false} OffsetsIncrease(t: seq<Slot>, i: nat, j: nat)
    requires i <= j <= |t|
    ensures Offset(t, i) <= Offset(t, j)
    ensures i < j ==> Offset(t, i) + t[i].width <= Offset(t, j)
    decreases j
  {
    if i < j {
      OffsetsIncrease(t, i, j - 1);
    }
  }

  /** Two builds with the same widths put their blocks at the same places. */
  predicate SameLayout(t: seq<Slot>, u: seq<Slot>) {
    |t| == |u| && forall i | 0 <= i < |t| :: t[i].width == u[i].width
  }

  lemma {:induction false} SameOffsets(t: seq<Slot>, u: seq<Slot>, i: nat)
    requires SameLayout(t, u) && i <= |t|
    ensures Offset(t, i) == Offset(u, i)
    decreases i
  {
    if i > 0 { SameOffsets(t, u, i - 1); }
  }

  /** Each block of the image that is not empty starts with the option's C string. */
  ghost predicate IsImage(t: seq<Slot>, image: seq<char>) {
    && |image| == Offset(t, |t|)
    && forall i {:trigger Block(t, image, i)} | 0 <= i < |t| :: Block(t, image, i)
  }

  ghost predicate Block(t: seq<Slot>, image: seq<char>, i: nat)
    requires i < |t|
  {
    Offset(t, i) <= |image| && (t[i].width > 0 ==> CString(image[Offset(t, i)..]) == t[i].text)
  }

  /** What loading an image makes of one option. */
  function Loaded(t: seq<Slot>, image: seq<char>, i: nat): string
    requires i < |t| && t[i].Valid() && |image| == Offset(t, |t|) && Offset(t, i) <= |image|
  {
    var stored := CString(image[Offset(t, i)..]);
    if t[i].loaded && stored != "" then Take(stored, t[i].width - 1) else t[i].text
  }

  function TextsOf(t: seq<Slot>): (r: seq<string>)
    ensures |r| == |t|
  {
    seq(|t|, i requires 0 <= i < |t| => t[i].text)
  }

  /** All options after an image was loaded. */
  ghost function LoadedTexts(t: seq<Slot>, image: seq<char>): (r: seq<string>)
    requires AllValid(t) && |image| == Offset(t, |t|)
    ensures |r| == |t|
  {
    seq(|t|, i requires 0 <= i < |t| => OffsetsIncrease(t, i, |t|); Loaded(t, image, i))
  }

  lemma LoadedAt(t: seq<Slot>, image: seq<char>, i: nat)
    requires AllValid(t) && |image| == Offset(t, |t|) && i < |t|
    ensures Offset(t, i) <= |image| && LoadedTexts(t, image)[i] == Loaded(t, image, i)
  {
    OffsetsIncrease(t, i, |t|);
  }

  /** The first `n` strings from `after`, the others from `before`. */
  function Overlay(before: seq<string>, after: seq<string>, n: nat): (r: seq<string>)
    requires n <= |before| == |after|
    ensures |r| == |before|
  {
    if n == 0 then before else Overlay(before, after, n - 1)[n - 1 := after[n - 1]]
  }

  lemma {:induction false} OverlayAt(before: seq<string>, after: seq<string>, n: nat, i: nat)
    requires n <= |before| == |after| && i < |before|
    ensures Overlay(before, after, n)[i] == if i < n then after[i] else before[i]
    decreases n
  {
    if n > 0 { OverlayAt(before, after, n - 1, i); }
  }

  lemma OverlayEnds(before: seq<string>, after: seq<string>)
    requires |before| == |after|
    ensures Overlay(before, after, 0) == before && Overlay(before, after, |before|) == after
  {
    forall i | 0 <= i < |before| ensures Overlay(before, after, |before|)[i] == after[i] {
      OverlayAt(before, after, |before|, i);
    }
  }

  /** A buffer after a file was read into it: a shorter file leaves the rest as it was. */
  function ReadInto(buffer: seq<char>, file: seq<char>): (content: seq<char>)
    ensures |content| == |buffer|
    ensures forall i | 0 <= i < |buffer| :: content[i] == if i < |file| then file[i] else buffer[i]
    ensures |file| == |buffer| ==> content == file
  {
    if |file| >= |buffer| then file[..|buffer|] else file + buffer[|file|..]
  }

  /** Saving in one build and loading in another with the same widths gives every key that both load
      its saved value if there was one; every other key keeps what it had. The loading build reads the image
      into a buffer of any contents. */
  lemma SaveThenLoad(saved: seq<Slot>, image: seq<char>, t: seq<Slot>, undefined: seq<char>, i: nat)
    requires AllValid(saved) && AllValid(t) && SameLayout(saved, t) && IsImage(saved, image) && i < |t|
    requires |undefined| == Offset(t, |t|)
    ensures LoadedTexts(t, ReadInto(undefined, image))[i]
            == if saved[i].loaded && t[i].loaded && saved[i].text != "" then saved[i].text else t[i].text
  {
    SameOffsets(saved, t, i);
    SameOffsets(saved, t, |t|);
    LoadedAt(t, image, i);
    assert Block(saved, image, i);
  }

  /** What a file gives one option: the C string of its block if the whole block is in the file. */
  predicate FromFile(slot: Slot, offset: nat, file: seq<char>, after: string) {
    if !slot.loaded then after == slot.text
    else offset + slot.width <= |file| ==>
      var stored := CString(file[offset..offset + slot.width]);
      after == if stored == "" then slot.text else Take(stored, slot.width - 1)
  }

  lemma CStringOfLonger(b: seq<char>, n: nat)
    requires 0 < n <= |b|
    ensures Take(CString(b), n - 1) == Take(CString(b[..n]), n - 1) && (CString(b) == "" <==> CString(b[..n]) == "")
  {
    CStringPrefix(b, n);
  }

  lemma LoadedBlock(t: seq<Slot>, content: seq<char>, i: nat, at: nat, end: nat, b: seq<char>)
    requires AllValid(t) && |content| == Offset(t, |t|) && i < |t| && t[i].loaded
    requires at == Offset(t, i) && end == at + t[i].width <= |content| && b == content[at..end]
    ensures Loaded(t, content, i) == if CString(b) == "" then t[i].text else Take(CString(b), t[i].width - 1)
  {
    assert content[at..][..t[i].width] == b;
    CStringOfLonger(content[at..], t[i].width);
  }

  lemma StretchRead(buffer: seq<char>, file: seq<char>, at: nat, end: nat)
    requires at <= end <= |file| && end <= |buffer|
    ensures ReadInto(buffer, file)[at..end] == file[at..end]
  {
  }

  /** Loading in terms of the file itself. */
  lemma LoadedFromFile(t: seq<Slot>, undefined: seq<char>, file: seq<char>, i: nat)
    requires AllValid(t) && |undefined| == Offset(t, |t|) && i < |t|
    ensures FromFile(t[i], Offset(t, i), file, LoadedTexts(t, ReadInto(undefined, file))[i])
  {
    var (content, at, end) := (ReadInto(undefined, file), Offset(t, i), Offset(t, i) + t[i].width);
    LoadedAt(t, content, i);
    if t[i].loaded && end <= |file| {
      OffsetsIncrease(t, i + 1, |t|);
      StretchRead(undefined, file, at, end);
      LoadedBlock(t, content, i, at, end, file[at..end]);
    }
  }

  // ----- Laying out the image -----

  /** The bytes of one block: as many as the option's width, its C string and NULs. */
  predicate IsBlock(slot: Slot, b: seq<char>) {
    |slot.text| <= slot.width && b == Padded(slot.text, slot.width)
  }

  /** The image byte by byte. */
  ghost predicate Exact(t: seq<Slot>, image: seq<char>) {
    && |image| == Offset(t, |t|)
    && forall i {:trigger BlockIn(t, image, i)} | 0 <= i < |t| :: BlockIn(t, image, i)
  }

  predicate BlockIn(t: seq<Slot>, image: seq<char>, i: nat)
    requires i < |t|
  {
    && |t[i].text| <= t[i].width && Offset(t, i) + t[i].width <= |image|
    && image[Offset(t, i)..Offset(t, i) + t[i].width] == Padded(t[i].text, t[i].width)
  }

  predicate AllBlocks(t: seq<Slot>, blocks: seq<seq<char>>) {
    |blocks| <= |t| && forall i {:trigger blocks[i]} | 0 <= i < |blocks| :: IsBlock(t[i], blocks[i])
  }

  function Flatten(blocks: seq<seq<char>>): seq<char> {
    if blocks == [] then [] else Flatten(blocks[..|blocks| - 1]) + blocks[|blocks| - 1]
  }

  lemma AllBlocksMore(t: seq<Slot>, blocks: seq<seq<char>>, b: seq<char>)
    requires AllBlocks(t, blocks) && |blocks| < |t| && IsBlock(t[|blocks|], b)
    ensures AllBlocks(t, blocks + [b])
  {
    forall i | 0 <= i < |blocks| + 1 ensures IsBlock(t[i], (blocks + [b])[i]) {
      assert i < |blocks| ==> IsBlock(t[i], blocks[i]);
    }
  }

  lemma FlattenMore(blocks: seq<seq<char>>, b: seq<char>)
    ensures Flatten(blocks + [b]) == Flatten(blocks) + b
  {
    assert (blocks + [b])[..|blocks|] == blocks;
  }

  lemma {:induction false} FlattenLength(t: seq<Slot>, blocks: seq<seq<char>>)
    requires AllBlocks(t, blocks)
    ensures |Flatten(blocks)| == Offset(t, |blocks|)
    decreases |blocks|
  {
    if blocks != [] {
      FlattenLength(t, blocks[..|blocks| - 1]);
    }
  }

  lemma {:induction false} BlockInPlace(t: seq<Slot>, blocks: seq<seq<char>>, i: nat)
    requires AllBlocks(t, blocks) && i < |blocks|
    ensures Offset(t, i) <= |Flatten(blocks)| && blocks[i] <= Flatten(blocks)[Offset(t, i)..]
    decreases |blocks|
  {
    var n := |blocks| - 1;
    FlattenLength(t, blocks[..n]);
    if i < n {
      BlockInPlace(t, blocks[..n], i);
    }
  }

  lemma CStringOfBlock(text: string, image: seq<char>)
    requires NulFree(text) && text + [NUL] <= image
    ensures CString(image) == text
  {
    assert image == text + [NUL] + image[|text| + 1..];
    CStringStops(text, image[|text| + 1..]);
  }

  lemma BlocksMakeImage(t: seq<Slot>, blocks: seq<seq<char>>)
    requires AllValid(t) && AllBlocks(t, blocks) && |blocks| == |t|
    ensures IsImage(t, Flatten(blocks)) && Exact(t, Flatten(blocks))
  {
    FlattenLength(t, blocks);
    forall i | 0 <= i < |t| ensures Block(t, Flatten(blocks), i) && BlockIn(t, Flatten(blocks), i) {
      BlockInPlace(t, blocks, i);
      BlockOfImage(t, Flatten(blocks), i, blocks[i]);
    }
  }

  lemma BlockOfImage(t: seq<Slot>, image: seq<char>, i: nat, b: seq<char>)
    requires i < |t| && t[i].Valid() && IsBlock(t[i], b) && Offset(t, i) <= |image| && b <= image[Offset(t, i)..]
    ensures Block(t, image, i) && BlockIn(t, image, i)
  {
    var (text, rest) := (t[i].text, image[Offset(t, i)..]);
    assert image[Offset(t, i)..Offset(t, i) + t[i].width] == rest[..t[i].width] == b;
    if t[i].width > 0 {
      assert rest[..|text| + 1] == b[..|text| + 1] == text + [NUL];
      CStringOfBlock(text, rest);
    }
  }

  class ConfigManager {
    /** The option with key `i` is at index `i`. */
    const options: seq<ConfigOption>
    /** The buffers of the options. */
    ghost const buffers: set<array?<char>>
    /** The stored strings, by key. */
    ghost var texts: seq<string>

    ghost predicate Valid()
      reads this, buffers
    {
      && |texts| == |options|
      && forall i | 0 <= i < |options| ::
           options[i].value in buffers && options[i].Holds(texts[i]) && options[i].key == i
    }

    /** Different options have different buffers, for good. */
    ghost predicate BuffersApart() {
      forall i, j | 0 <= i < j < |options| :: options[i].value != options[j].value || options[i].value == null
    }

    /** The options as the file sees them when their strings are `texts`. */
    ghost function Slots(texts: seq<string>): (t: seq<Slot>)
      requires |texts| == |options|
    {
      seq(|options|, i requires 0 <= i < |options| => Slot(options[i].maxLength, options[i].value != null, texts[i]))
    }

    /** The widths and buffers that `t` records are those of the options. */
    ghost predicate Layout(t: seq<Slot>) {
      && |t| == |options|
      && forall i {:trigger t[i]} | 0 <= i < |t| ::
           t[i].width == options[i].maxLength && t[i].loaded == (options[i].value != null)
    }

    lemma SlotsValid()
      requires Valid()
      ensures AllValid(Slots(texts)) && Layout(Slots(texts)) && TextsOf(Slots(texts)) == texts
    {
      forall i | 0 <= i < |options| ensures Slots(texts)[i].Valid() {
        if options[i].value != null { options[i].HeldString(texts[i]); }
      }
    }

    constructor (options: seq<ConfigOption>, ghost texts: seq<string>)
      requires |texts| == |options|
      requires forall i | 0 <= i < |options| :: options[i].Holds(texts[i]) && options[i].key == i
      requires forall i, j | 0 <= i < j < |options| :: options[i].value != options[j].value || options[i].value == null
      ensures Valid() && BuffersApart() && this.options == options && this.texts == texts
      ensures buffers == set o | o in options :: o.value
    {
      this.options, this.texts := options, texts;
      this.buffers := set o | o in options :: o.value;
    }

    /** The option that `key` names. */
    method Get(key: nat) returns (option: ConfigOption?)
      requires Valid()
      ensures option == if key < |options| then options[key] else null
    {
      for i := 0 to |options|
        invariant key >= i
      {
        if options[i].key == key {
          return options[i];
        }
      }
      return null;
    }

    method GetElement(key: nat, index: nat) returns (e: string)
      requires Valid() && key < |options|
      ensures e == Elem(texts[key], index)
    {
      var option := Get(key);
      e := option.GetElement(index, texts[key]);
    }

    /** Replaces a whole value: the others keep theirs. */
    method Set(key: nat, text: string) returns (ok: bool)
      requires Valid() && BuffersApart() && NulFree(text)
      modifies this`texts, buffers
      ensures Valid() && ok == (key < |options|)
      ensures texts == if ok && options[key].value != null
                       then old(texts)[key := Take(text, options[key].maxLength - 1)]
                       else old(texts)
    {
      var option := Get(key);
      ok := option != null;
      if ok {
        option.SetValue(text);
        texts := if option.value != null then texts[key := Take(text, option.maxLength - 1)] else texts;
      }
    }

    /** Replaces one element of a list: exactly that option changes, to the string `Written`. */
    method SetElement(key: nat, index: nat, text: string) returns (ok: bool)
      requires Valid() && BuffersApart() && NulFree(text)
      modifies this`texts, buffers
      ensures Valid() && ok == (key < |options|)
      ensures texts == if ok && options[key].value != null
                       then old(texts)[key := Written(old(texts)[key], index, text, options[key].maxLength - 1)]
                       else old(texts)
    {
      var option := Get(key);
      ok := option != null;
      if ok {
        option.StoreElement(index, text, texts[key]);
        texts := if option.value != null
                 then texts[key := Written(texts[key], index, text, option.maxLength - 1)] else texts;
      }
    }

    /** Room for the blocks of all options. */
    method Length() returns (length: nat)
      requires Valid()
      ensures length == Offset(Slots(texts), |options|)
    {
      length := 0;
      for i := 0 to |options|
        invariant length == Offset(Slots(texts), i)
      {
        length := length + options[i].maxLength;
      }
    }

    /** What `save` puts into the block of one option: its whole buffer, or zeros. */
    method BlockBytes(i: nat) returns (b: seq<char>)
      requires Valid() && i < |options|
      ensures IsBlock(Slots(texts)[i], b)
    {
      var option := options[i];
      var text := option.GetValue(texts[i]);
      if option.loadKey && text != "" {
        option.HeldString(text);
        b := option.value[..];
      } else {
        b := seq(option.maxLength, _ => NUL);
      }
    }

    /** Appends the block of option `i` to the image so far. */
    method PutBlock(ghost blocks: seq<seq<char>>, i: nat, content: array<char>, offset: nat)
        returns (ghost b: seq<char>)
      requires Valid() && i == |blocks| < |options| && AllBlocks(Slots(texts), blocks) && content !in buffers
      requires offset + options[i].maxLength <= content.Length && content[..offset] == Flatten(blocks)
      modifies content
      ensures Valid() && AllBlocks(Slots(texts), blocks + [b])
      ensures content[..offset + options[i].maxLength] == Flatten(blocks + [b])
    {
      var bytes := BlockBytes(i);
      b := bytes;
      Copy(bytes, content, offset);
      FlattenMore(blocks, b);
      AllBlocksMore(Slots(texts), blocks, b);
    }

    /** One block of an image of the expected length. */
    method PutNext(ghost t: seq<Slot>, ghost blocks: seq<seq<char>>, i: nat, content: array<char>, offset: nat)
        returns (ghost b: seq<char>, next: nat)
      requires Valid() && t == Slots(texts) && i == |blocks| < |t| && AllBlocks(t, blocks) && content !in buffers
      requires content.Length == Offset(t, |t|) && offset == Offset(t, i) <= content.Length
      requires content[..offset] == Flatten(blocks)
      modifies content
      ensures Valid() && AllBlocks(t, blocks + [b])
      ensures next == Offset(t, i + 1) <= content.Length && content[..next] == Flatten(blocks + [b])
    {
      OffsetsIncrease(t, i + 1, |t|);
      b := PutBlock(blocks, i, content, offset);
      next := offset + options[i].maxLength;
    }

    /** Block after block at a running offset. */
    method Fill(content: array<char>)
      requires Valid() && content !in buffers && content.Length == Offset(Slots(texts), |options|)
      modifies content
      ensures Valid() && IsImage(Slots(texts), content[..]) && Exact(Slots(texts), content[..])
    {
      ghost var t := Slots(texts);
      ghost var blocks := [];
      var offset := 0;
      assert content[..0] == [];
      for i := 0 to |options|
        invariant Valid() && |blocks| == i && AllBlocks(t, blocks)
        invariant offset == Offset(t, i) <= content.Length && content[..offset] == Flatten(blocks)
      {
        ghost var b;
        b, offset := PutNext(t, blocks, i, content, offset);
        blocks := blocks + [b];
      }
      SlotsValid();
      BlocksMakeImage(t, blocks);
      assert content[..] == content[..offset];
    }

    /** The image of the current values. */
    method Save() returns (content: array<char>)
      requires Valid()
      ensures Valid() && fresh(content) && IsImage(Slots(texts), content[..]) && Exact(Slots(texts), content[..])
    {
      var length := Length();
      content := new char[length];
      Fill(content);
    }

    /** A block that is not empty sets its option, if that one is loaded. */
    method LoadOne(ghost t: seq<Slot>, content: seq<char>, i: nat, offset: nat)
      requires Valid() && BuffersApart() && Layout(t) && AllValid(t) && i < |t| && texts[i] == t[i].text
      requires |content| == Offset(t, |t|) && offset == Offset(t, i) <= |content|
      modifies this`texts, buffers
      ensures Valid() && texts == old(texts)[i := Loaded(t, content, i)]
    {
      if options[i].loadKey {
        var stored := CString(content[offset..]);
        if stored != "" {
          var _ := Set(i, stored);
        }
      }
    }

    /** One block of a whole image, of which the first `i` are loaded. */
    method LoadNext(ghost t: seq<Slot>, content: seq<char>, i: nat, offset: nat) returns (next: nat)
      requires Valid() && BuffersApart() && Layout(t) && AllValid(t) && |content| == Offset(t, |t|) && i < |t|
      requires offset == Offset(t, i) && texts == Overlay(TextsOf(t), LoadedTexts(t, content), i)
      modifies this`texts, buffers
      ensures Valid() && texts == Overlay(TextsOf(t), LoadedTexts(t, content), i + 1) && next == Offset(t, i + 1)
    {
      ghost var (before, after) := (TextsOf(t), LoadedTexts(t, content));
      OverlayAt(before, after, i, i);
      LoadedAt(t, content, i);
      LoadOne(t, content, i, offset);
      next := offset + options[i].maxLength;
    }

    /** Block after block at a running offset. */
    method LoadBlocks(ghost t: seq<Slot>, content: seq<char>)
      requires Valid() && BuffersApart() && Layout(t) && AllValid(t) && |content| == Offset(t, |t|)
      requires texts == Overlay(TextsOf(t), LoadedTexts(t, content), 0)
      modifies this`texts, buffers
      ensures Valid() && texts == Overlay(TextsOf(t), LoadedTexts(t, content), |t|)
    {
      ghost var (before, after) := (TextsOf(t), LoadedTexts(t, content));
      var offset := 0;
      for i := 0 to |options|
        invariant Valid() && offset == Offset(t, i) && texts == Overlay(before, after, i)
      {
        offset := LoadNext(t, content, i, offset);
      }
    }

    /** Reads a file into a buffer of the expected length, whose bytes are `undefined` at first, and loads
        the buffer. */
    method Load(file: seq<char>, undefined: seq<char>)
      requires Valid() && BuffersApart() && |undefined| == Offset(Slots(texts), |options|)
      modifies this`texts, buffers
      ensures AllValid(Slots(old(texts)))
      ensures Valid() && texts == LoadedTexts(Slots(old(texts)), ReadInto(undefined, file))
      ensures forall i | 0 <= i < |texts| ::
                FromFile(Slots(old(texts))[i], Offset(Slots(old(texts)), i), file, texts[i])
    {
      SlotsValid();
      ghost var t := Slots(texts);
      forall i | 0 <= i < |t|
        ensures FromFile(t[i], Offset(t, i), file, LoadedTexts(t, ReadInto(undefined, file))[i])
      {
        LoadedFromFile(t, undefined, file, i);
      }
      var content := ReadInto(undefined, file);
      OverlayEnds(TextsOf(t), LoadedTexts(t, content));
      LoadBlocks(t, content);
    }
  }

  /** `memcpy` of one block. */
  method Copy(bytes: seq<char>, content: array<char>, offset: nat)
    requires offset + |bytes| <= content.Length
    modifies content
    ensures content[..offset + |bytes|] == old(content[..offset]) + bytes
  {
    for i := 0 to |bytes|
      invariant content[..offset] == old(content[..offset])
      invariant content[offset..offset + i] == bytes[..i]
    {
      content[offset + i] := bytes[i];
    }
    assert content[..offset + |bytes|] == content[..offset] + content[offset..offset + |bytes|];
  }
}
