/** Which pin serves which function: the table behind the pin forms of the web interface, on values. */
module PinTable {
  import opened Options

  // ----- One pin record -----

  const FIELDS := 18

  const NR := 0
  const FUNCTION := 1
  const LEVEL_RELAY := 2
  const PULL_UP := 3
  const MEMORY := 4
  const ACTION := 5
  const EVENT := 6
  const CFG := 7
  const INVERSED := 16
  const CFG_LED := 17

  const FUNCTION_OFF := 0
  const FUNCTION_RELAY := 1
  const FUNCTION_BUTTON := 2
  const FUNCTION_LIMIT_SWITCH := 3
  const FUNCTION_CFG_LED := 4
  const FUNCTION_CFG_BUTTON := 5
  const FUNCTION_LED := 21
  const FUNCTION_BUTTON_STOP := 32

  const TOGGLE := 2
  const OPEN_OR_CLOSE := 2
  const ON_PRESS := 0
  const MEMORY_RESTORE := 2
  const LOW := 0

  type Rec = r: seq<nat> | |r| == FIELDS witness seq(FIELDS, _ => 0)
  type Table = seq<Rec>

  predicate IsCfg(func: nat) {
    func == FUNCTION_CFG_BUTTON || func == FUNCTION_CFG_LED
  }

  /** The configuration button or LED sits at this pin. */
  predicate BusyCfg(r: Rec, func: nat) {
    || (func == FUNCTION_CFG_BUTTON && r[CFG] == 1)
    || (func == FUNCTION_CFG_LED && (r[FUNCTION] == FUNCTION_CFG_LED || r[CFG_LED] == 1))
  }

  /** This pin serves function number `nr`. */
  predicate Serves(r: Rec, nr: nat, func: nat) {
    BusyCfg(r, func) || (r[FUNCTION] == func && r[NR] == nr + 1)
  }

  /** The record after the pin is given away; the number is a byte. */
  function Assigned(r: Rec, nr: nat, func: nat): Rec {
    if func == FUNCTION_CFG_BUTTON then r[CFG := 1]
    else if func == FUNCTION_CFG_LED then r[CFG_LED := 1]
    else r[NR := (nr + 1) % 256][FUNCTION := func]
  }

  /** The settings a function leaves behind. */
  function WithDefaults(r: Rec, func: nat): Rec {
    if func == FUNCTION_BUTTON || func == FUNCTION_BUTTON_STOP then
      r[PULL_UP := 1][INVERSED := 1][ACTION := TOGGLE][EVENT := ON_PRESS]
    else if func == FUNCTION_RELAY then r[LEVEL_RELAY := LOW][MEMORY := MEMORY_RESTORE]
    else if func == FUNCTION_LIMIT_SWITCH then r[PULL_UP := 1]
    else r
  }

  /** The record after the pin is taken back, with the defaults of its function. */
  function Cleared(r: Rec, func: nat): Rec {
    if func == FUNCTION_CFG_BUTTON then r[CFG := 0]
    else if func == FUNCTION_CFG_LED then r[CFG_LED := 0]
    else WithDefaults(r[NR := 0][FUNCTION := FUNCTION_OFF], func)
  }

  /** The stored number minus one, as a byte. */
  function Previous(number: nat): nat {
    (number + 255) % 256
  }

  /** What keeps a pin from being given to `func`. */
  function Occupant(r: Rec, func: nat): nat {
    if func == FUNCTION_CFG_BUTTON then r[CFG]
    else if func == FUNCTION_CFG_LED then r[CFG_LED]
    else r[FUNCTION]
  }

  // ----- The table -----

  /** The first pin from `pin` on that serves the function; the length of the table if there is none. */
  function Holder(t: Table, pin: nat, nr: nat, func: nat): (p: nat)
    requires pin <= |t|
    ensures pin <= p <= |t|
    ensures p < |t| ==> Serves(t[p], nr, func)
    ensures forall q | pin <= q < p :: !Serves(t[q], nr, func)
    decreases |t| - pin
  {
    if pin == |t| || Serves(t[pin], nr, func) then pin else Holder(t, pin + 1, nr, func)
  }

  function GetGpio(t: Table, nr: nat, func: nat): nat {
    Holder(t, 0, nr, func)
  }

  /** Writes to the slot after the last pin do not reach the table. */
  function SetGpio(t: Table, pin: nat, nr: nat, func: nat): (u: Table)
    ensures |u| == |t|
  {
    if pin < |t| then t[pin := Assigned(t[pin], nr, func)] else t
  }

  function ClearGpio(t: Table, pin: nat, func: nat): (u: Table)
    ensures |u| == |t|
  {
    if pin < |t| then t[pin := Cleared(t[pin], func)] else t
  }

  /** A line of a submitted form: function and number, the chosen pin if the field was filled in, how
      many of the function there may be if the page says so, and the number of roller shutters. */
  datatype Request = Request(nr: nat, func: nat, choice: Option<nat>, limit: Option<nat>, shutters: nat) {
    predicate Valid(pins: nat) {
      && nr < 256 && FUNCTION_OFF < func < 256
      && (choice.Some? ==> choice.value <= pins)
      && (limit.Some? ==> limit.value < 256)
    }
  }

  /** A free pin: the old one is taken back, the new one cleared and given away. */
  function Move(t: Table, q: Request, pin: nat): (u: Table)
    requires pin < |t|
    ensures |u| == |t|
  {
    var freed := ClearGpio(t, GetGpio(t, q.nr, q.func), q.func);
    var given := SetGpio(ClearGpio(freed, pin, q.func), pin, q.nr, q.func);
    if q.shutters * 2 > q.nr then given[pin := given[pin][EVENT := ON_PRESS][ACTION := OPEN_OR_CLOSE]] else given
  }

  /** The chosen pin carries a number beyond the limit. */
  predicate OverLimit(r: Rec, q: Request) {
    q.limit.Some? && r[NR] - 1 >= q.limit.value
  }

  datatype Outcome = Outcome(ok: bool, table: Table)

  function SaveReal(t: Table, q: Request, pin: nat): (o: Outcome)
    requires pin < |t| && q.Valid(|t|)
    ensures |o.table| == |t|
  {
    var holder := GetGpio(t, q.nr, q.func);
    var occupant := Occupant(t[pin], q.func) % 256;
    if occupant == FUNCTION_OFF then Outcome(true, Move(t, q, pin))
    else if IsCfg(q.func) then Outcome(true, SetGpio(t, pin, 0, q.func))
    else if holder == pin && occupant == q.func && Previous(t[pin][NR]) == q.nr
      then Outcome(true, SetGpio(t, pin, q.nr, q.func))
    else Outcome(false, t)
  }

  /** `saveGPIO` for real pins and "no pin". */
  function Save(t: Table, q: Request): (o: Outcome)
    requires q.Valid(|t|)
    ensures |o.table| == |t|
  {
    if q.choice.None? then Outcome(true, t)
    else
      var pin := q.choice.value;
      var holder := GetGpio(t, q.nr, q.func);
      if pin == |t| then Outcome(true, ClearGpio(t, holder, q.func))
      else
        var o := SaveReal(t, q, pin);
        if o.ok && OverLimit(o.table[pin], q) then Outcome(true, ClearGpio(o.table, holder, q.func)) else o
  }

  // ----- The invariant -----

  /** Bytes in the two main fields, flags in the others; configuration functions are flags only. */
  predicate WellFormed(r: Rec) {
    && r[NR] < 256 && r[FUNCTION] < 256 && !IsCfg(r[FUNCTION])
    && r[CFG] <= 1 && r[CFG_LED] <= 1
  }

  predicate AllWellFormed(t: Table) {
    forall p {:trigger t[p]} | 0 <= p < |t| :: WellFormed(t[p])
  }

  /** Two pins do not clash: they serve no function together. */
  predicate Distinct(r: Rec, s: Rec) {
    && (r[FUNCTION] == s[FUNCTION] != FUNCTION_OFF ==> r[NR] != s[NR])
    && !(r[CFG] == 1 && s[CFG] == 1)
    && !(r[CFG_LED] == 1 && s[CFG_LED] == 1)
  }

  /** No function and number is held by two pins, and at most one pin carries each flag. */
  predicate NoClash(t: Table) {
    forall p, q {:trigger t[p], t[q]} | 0 <= p < q < |t| :: Distinct(t[p], t[q])
  }

  predicate Inv(t: Table) {
    NoClash(t) && AllWellFormed(t)
  }

  lemma OneServes(r: Rec, s: Rec, nr: nat, func: nat)
    requires WellFormed(r) && WellFormed(s) && Distinct(r, s) && func != FUNCTION_OFF
    ensures !(Serves(r, nr, func) && Serves(s, nr, func))
  {
  }

  /** Under the invariant there is at most one holder. */
  lemma HolderUnique(t: Table, pin: nat, nr: nat, func: nat)
    requires Inv(t) && pin < |t| && func != FUNCTION_OFF
    ensures Serves(t[pin], nr, func) <==> GetGpio(t, nr, func) == pin
  {
    var p := GetGpio(t, nr, func);
    if p < |t| && p != pin {
      OneServes(t[p], t[pin], nr, func);
      OneServes(t[pin], t[p], nr, func);
      assert Distinct(t[p], t[pin]) || Distinct(t[pin], t[p]);
    }
  }

  /** Replacing one record keeps the invariant if the new one clashes with no other. */
  lemma Replace(t: Table, pin: nat, r: Rec)
    requires Inv(t) && pin < |t| && WellFormed(r)
    requires forall p | 0 <= p < |t| && p != pin :: Distinct(t[p], r)
    ensures Inv(t[pin := r])
  {
    var u := t[pin := r];
    forall p, q | 0 <= p < q < |u| ensures Distinct(u[p], u[q]) {
      assert p != pin && q != pin ==> Distinct(t[p], t[q]);
    }
  }

  lemma ClearKeeps(t: Table, pin: nat, func: nat)
    requires Inv(t)
    ensures Inv(ClearGpio(t, pin, func))
  {
    if pin < |t| {
      forall p | 0 <= p < |t| && p != pin ensures Distinct(t[p], Cleared(t[pin], func)) {
        assert Distinct(t[p], t[pin]);
      }
      Replace(t, pin, Cleared(t[pin], func));
    }
  }

  /** The pin is stored under this function and number; the stored number is a byte. */
  predicate Carries(r: Rec, nr: nat, func: nat) {
    BusyCfg(r, func) || (!IsCfg(func) && r[FUNCTION] == func && r[NR] == (nr + 1) % 256)
  }

  /** A pin may be given away exactly when no other pin is stored under the same function and number. */
  lemma SetKeepsIff(t: Table, pin: nat, nr: nat, func: nat)
    requires Inv(t) && pin < |t| && FUNCTION_OFF < func < 256
    ensures Inv(SetGpio(t, pin, nr, func)) <==> forall p | 0 <= p < |t| && p != pin :: !Carries(t[p], nr, func)
  {
    var r := Assigned(t[pin], nr, func);
    if forall p | 0 <= p < |t| && p != pin :: !Carries(t[p], nr, func) {
      forall p | 0 <= p < |t| && p != pin ensures Distinct(t[p], r) { DistinctPins(t, p, pin); }
      Replace(t, pin, r);
    } else {
      var p :| 0 <= p < |t| && p != pin && Carries(t[p], nr, func);
      var u := SetGpio(t, pin, nr, func);
      assert u[p] == t[p] && u[pin] == r && !Distinct(u[p], u[pin]) && !Distinct(u[pin], u[p]);
    }
  }

  lemma DistinctPins(t: Table, p: nat, q: nat)
    requires Inv(t) && p < |t| && q < |t| && p != q
    ensures Distinct(t[p], t[q])
  {
    assert p < q ==> Distinct(t[p], t[q]);
    assert q < p ==> Distinct(t[q], t[p]);
  }

  /** Once its holder is cleared, no pin serves the function. */
  lemma FreedServesNobody(t: Table, nr: nat, func: nat, p: nat)
    requires Inv(t) && p < |t| && func != FUNCTION_OFF
    ensures !Serves(ClearGpio(t, GetGpio(t, nr, func), func)[p], nr, func)
  {
    HolderUnique(t, p, nr, func);
  }

  /** No pin is ever found under number 255 of an ordinary function: 255 is looked up as 256. */
  lemma NobodyServes255(t: Table, func: nat)
    requires AllWellFormed(t) && !IsCfg(func)
    ensures GetGpio(t, 255, func) == |t|
  {
  }

  /** Once its holder is cleared, no pin is stored under the function and number, unless the number is one
      that is never found. */
  lemma FreedIsCarriedByNobody(t: Table, nr: nat, func: nat, p: nat)
    requires Inv(t) && p < |t| && FUNCTION_OFF < func && (nr < 255 || IsCfg(func))
    ensures !Carries(ClearGpio(t, GetGpio(t, nr, func), func)[p], nr, func)
  {
    HolderUnique(t, p, nr, func);
  }

  /** Another pin is stored under the function and number. */
  predicate CarriedElsewhere(t: Table, pin: nat, nr: nat, func: nat) {
    exists p :: 0 <= p < |t| && p != pin && Carries(t[p], nr, func)
  }

  lemma MoveKeepsIff(t: Table, q: Request, pin: nat)
    requires Inv(t) && q.Valid(|t|) && q.nr < 256 && pin < |t|
    ensures Inv(Move(t, q, pin)) <==> q.nr < 255 || IsCfg(q.func) || !CarriedElsewhere(t, pin, q.nr, q.func)
  {
    var freed := ClearGpio(t, GetGpio(t, q.nr, q.func), q.func);
    ClearKeeps(t, GetGpio(t, q.nr, q.func), q.func);
    ClearKeeps(freed, pin, q.func);
    var clear := ClearGpio(freed, pin, q.func);
    if q.nr < 255 || IsCfg(q.func) {
      forall p | 0 <= p < |t| && p != pin ensures !Carries(clear[p], q.nr, q.func) {
        FreedIsCarriedByNobody(t, q.nr, q.func, p);
      }
    } else {
      NobodyServes255(t, q.func);
      assert forall p | 0 <= p < |t| && p != pin :: clear[p] == t[p];
    }
    SetKeepsIff(clear, pin, q.nr, q.func);
    var given := SetGpio(clear, pin, q.nr, q.func);
    OpenKeepsIff(given, pin);
  }

  lemma OpenKeepsIff(t: Table, pin: nat)
    requires pin < |t|
    ensures Inv(t[pin := t[pin][EVENT := ON_PRESS][ACTION := OPEN_OR_CLOSE]]) <==> Inv(t)
  {
    var u := t[pin := t[pin][EVENT := ON_PRESS][ACTION := OPEN_OR_CLOSE]];
    assert forall p | 0 <= p < |t| :: SameRoles(t[p], u[p]);
    RolesDecide(t, u);
    RolesDecide(u, t);
  }

  /** Two records that differ in settings only. */
  predicate SameRoles(r: Rec, s: Rec) {
    r[NR] == s[NR] && r[FUNCTION] == s[FUNCTION] && r[CFG] == s[CFG] && r[CFG_LED] == s[CFG_LED]
  }

  lemma RolesDecide(t: Table, u: Table)
    requires |t| == |u| && forall p | 0 <= p < |t| :: SameRoles(t[p], u[p])
    ensures Inv(t) ==> Inv(u)
  {
    if Inv(t) {
      forall p, q | 0 <= p < q < |u| ensures Distinct(u[p], u[q]) {
        assert SameRoles(t[p], u[p]) && SameRoles(t[q], u[q]) && Distinct(t[p], t[q]);
      }
      forall p | 0 <= p < |u| ensures WellFormed(u[p]) {
        assert SameRoles(t[p], u[p]) && WellFormed(t[p]);
      }
    }
  }

  /** The request gives a second pin to number 255 of an ordinary function, which is stored as number 0. */
  predicate Doubles(t: Table, q: Request) {
    && !IsCfg(q.func) && q.nr == 255 && q.choice.Some? && q.choice.value < |t|
    && t[q.choice.value][FUNCTION] == FUNCTION_OFF && CarriedElsewhere(t, q.choice.value, q.nr, q.func)
  }

  lemma StepsWellFormed(t: Table, pin: nat, nr: nat, func: nat)
    requires AllWellFormed(t) && FUNCTION_OFF < func < 256
    ensures AllWellFormed(ClearGpio(t, pin, func)) && AllWellFormed(SetGpio(t, pin, nr, func))
  {
  }

  lemma MoveWellFormed(t: Table, q: Request, pin: nat)
    requires AllWellFormed(t) && q.Valid(|t|) && pin < |t|
    ensures AllWellFormed(Move(t, q, pin))
  {
    var freed := ClearGpio(t, GetGpio(t, q.nr, q.func), q.func);
    StepsWellFormed(t, GetGpio(t, q.nr, q.func), q.nr, q.func);
    StepsWellFormed(freed, pin, q.nr, q.func);
    StepsWellFormed(ClearGpio(freed, pin, q.func), pin, q.nr, q.func);
  }

  lemma SaveWellFormed(t: Table, q: Request)
    requires AllWellFormed(t) && q.Valid(|t|)
    ensures AllWellFormed(Save(t, q).table)
  {
    if q.choice.Some? {
      var holder := GetGpio(t, q.nr, q.func);
      StepsWellFormed(t, holder, q.nr, q.func);
      if q.choice.value < |t| {
        var pin := q.choice.value;
        MoveWellFormed(t, q, pin);
        StepsWellFormed(t, pin, q.nr, q.func);
        StepsWellFormed(t, pin, 0, q.func);
        StepsWellFormed(SaveReal(t, q, pin).table, holder, q.nr, q.func);
      }
    }
  }

  /** An accepted request for a pin in use gives the pin again what it carries. */
  lemma OccupiedIsGivenAgain(t: Table, q: Request, pin: nat, nr: nat)
    requires Inv(t) && q.Valid(|t|) && pin < |t| && nr == (if IsCfg(q.func) then 0 else q.nr)
    requires Occupant(t[pin], q.func) != FUNCTION_OFF && SaveReal(t, q, pin).ok
    ensures Carries(t[pin], nr, q.func) && SaveReal(t, q, pin).table == SetGpio(t, pin, nr, q.func)
  {
    HolderUnique(t, pin, nr, q.func);
  }

  lemma OneCarries(r: Rec, s: Rec, nr: nat, func: nat)
    requires WellFormed(r) && WellFormed(s) && Distinct(r, s) && func != FUNCTION_OFF
    ensures !(Carries(r, nr, func) && Carries(s, nr, func))
  {
  }

  lemma GivenAgainKeeps(t: Table, pin: nat, nr: nat, func: nat)
    requires Inv(t) && pin < |t| && FUNCTION_OFF < func < 256 && Carries(t[pin], nr, func)
    ensures Inv(SetGpio(t, pin, nr, func))
  {
    forall p | 0 <= p < |t| && p != pin ensures !Carries(t[p], nr, func) {
      DistinctPins(t, p, pin);
      OneCarries(t[p], t[pin], nr, func);
    }
    SetKeepsIff(t, pin, nr, func);
  }

  lemma SaveRealKeepsIff(t: Table, q: Request, pin: nat)
    requires Inv(t) && q.Valid(|t|) && q.choice == Some(pin) && pin < |t|
    ensures Inv(SaveReal(t, q, pin).table) <==> !Doubles(t, q)
  {
    var nr := if IsCfg(q.func) then 0 else q.nr;
    if Occupant(t[pin], q.func) == FUNCTION_OFF {
      MoveKeepsIff(t, q, pin);
    } else if SaveReal(t, q, pin).ok {
      OccupiedIsGivenAgain(t, q, pin, nr);
      GivenAgainKeeps(t, pin, nr, q.func);
    }
  }

  /** A request keeps the invariant exactly when it does not double. */
  lemma SaveKeepsIff(t: Table, q: Request)
    requires Inv(t) && q.Valid(|t|)
    ensures Inv(Save(t, q).table) <==> !Doubles(t, q)
  {
    if q.choice.Some? {
      var holder := GetGpio(t, q.nr, q.func);
      ClearKeeps(t, holder, q.func);
      if q.choice.value < |t| {
        SaveRealKeepsIff(t, q, q.choice.value);
        if Doubles(t, q) {
          NobodyServes255(t, q.func);
        } else {
          ClearKeeps(SaveReal(t, q, q.choice.value).table, holder, q.func);
        }
      }
    }
  }

  // ----- Runs -----

  predicate Lines(requests: seq<Request>, pins: nat) {
    forall i | 0 <= i < |requests| :: requests[i].Valid(pins)
  }

  function Run(t: Table, requests: seq<Request>): (u: Table)
    requires Lines(requests, |t|)
    ensures |u| == |t|
    decreases |requests|
  {
    if requests == [] then t
    else Save(Run(t, requests[..|requests| - 1]), requests[|requests| - 1]).table
  }

  /** The requests whose field was filled in. */
  function Filled(requests: seq<Request>): (r: seq<Request>)
    ensures forall i | 0 <= i < |r| :: r[i].choice.Some? && r[i] in requests
  {
    if requests == [] then []
    else
      var m := |requests| - 1;
      Filled(requests[..m]) + if requests[m].choice.None? then [] else [requests[m]]
  }

  /** The others can be dropped from a run. */
  lemma {:induction false} UnfilledDropped(t: Table, requests: seq<Request>)
    requires Lines(requests, |t|)
    ensures Lines(Filled(requests), |t|) && Run(t, Filled(requests)) == Run(t, requests)
    decreases |requests|
  {
    if requests != [] {
      var m := |requests| - 1;
      UnfilledDropped(t, requests[..m]);
      if requests[m].choice.Some? {
        assert Filled(requests)[..|Filled(requests)| - 1] == Filled(requests[..m]);
      } else {
        assert Filled(requests) == Filled(requests[..m]);
      }
    }
  }

  function ClearedTable(pins: nat): Table {
    seq(pins, _ => seq(FIELDS, _ => 0))
  }

  /** After every request of the run no two pins clash. */
  predicate NeverClashes(t: Table, requests: seq<Request>)
    requires Lines(requests, |t|)
    decreases |requests|
  {
    NoClash(Run(t, requests)) && (requests != [] ==> NeverClashes(t, requests[..|requests| - 1]))
  }

  /** No request of the run doubles. */
  predicate NeverDoubles(t: Table, requests: seq<Request>)
    requires Lines(requests, |t|)
    decreases |requests|
  {
    requests == [] ||
    (var m := |requests| - 1;
     NeverDoubles(t, requests[..m]) && !Doubles(Run(t, requests[..m]), requests[m]))
  }

  lemma {:induction false} RunKeepsIff(t: Table, requests: seq<Request>)
    requires Inv(t) && Lines(requests, |t|)
    ensures NeverClashes(t, requests) <==> NeverDoubles(t, requests)
    ensures NeverClashes(t, requests) ==> Inv(Run(t, requests))
    decreases |requests|
  {
    if requests != [] {
      var m := |requests| - 1;
      RunKeepsIff(t, requests[..m]);
      if NeverClashes(t, requests[..m]) {
        SaveKeepsIff(Run(t, requests[..m]), requests[m]);
        SaveWellFormed(Run(t, requests[..m]), requests[m]);
      }
    }
  }

  // ----- One request -----

  /** A request is refused exactly when it names a real pin that serves another function or number; a
      refused request changes nothing. */
  lemma RefusedIff(t: Table, q: Request)
    requires Inv(t) && q.Valid(|t|)
    ensures !Save(t, q).ok <==>
              && q.choice.Some? && q.choice.value < |t| && !IsCfg(q.func)
              && t[q.choice.value][FUNCTION] != FUNCTION_OFF && !Serves(t[q.choice.value], q.nr, q.func)
    ensures !Save(t, q).ok ==> Save(t, q).table == t
  {
    if q.choice.Some? && q.choice.value < |t| {
      HolderUnique(t, q.choice.value, q.nr, q.func);
    }
  }

  /** Only the old and the new pin of the function are touched, and none if the field was not filled in. */
  lemma OthersUntouched(t: Table, q: Request, p: nat)
    requires q.Valid(|t|) && p < |t|
    ensures q.choice != Some(p) && p != GetGpio(t, q.nr, q.func) ==> Save(t, q).table[p] == t[p]
    ensures q.choice.None? ==> Save(t, q).ok && Save(t, q).table == t
  {
  }

  /** The chosen pin is free for the function. */
  predicate Free(t: Table, q: Request)
    requires q.choice.Some? && q.choice.value < |t|
  {
    var r := t[q.choice.value];
    r[if q.func == FUNCTION_CFG_BUTTON then CFG else if q.func == FUNCTION_CFG_LED then CFG_LED else FUNCTION] == 0
  }

  /** When a record changes: at the chosen pin of an accepted request, or at the old pin if that one is given
      up for "no pin" or for a free pin. */
  lemma ChangedOnlyIf(t: Table, q: Request, p: nat)
    requires Inv(t) && q.Valid(|t|) && p < |t| && Save(t, q).table[p] != t[p]
    ensures q.choice.Some? && Save(t, q).ok
    ensures p == q.choice.value || (p == GetGpio(t, q.nr, q.func) && (q.choice.value == |t| || Free(t, q)))
  {
    OthersUntouched(t, q, p);
    if q.choice.value < |t| && p != q.choice.value && !Free(t, q) && Save(t, q).ok {
      var nr := if IsCfg(q.func) then 0 else q.nr;
      OccupiedIsGivenAgain(t, q, q.choice.value, nr);
      HolderUnique(t, q.choice.value, q.nr, q.func);
    }
  }

  // ----- What a request leaves at a pin, field by field -----

  /** What a function sets beside its number: table of settings. */
  function Setting(func: nat, field: nat, before: nat): nat {
    var button := func == FUNCTION_BUTTON || func == FUNCTION_BUTTON_STOP;
    if field == PULL_UP && (button || func == FUNCTION_LIMIT_SWITCH) then 1
    else if field == INVERSED && button then 1
    else if field == ACTION && button then TOGGLE
    else if field == EVENT && button then ON_PRESS
    else if field == LEVEL_RELAY && func == FUNCTION_RELAY then LOW
    else if field == MEMORY && func == FUNCTION_RELAY then MEMORY_RESTORE
    else before
  }

  /** A pin after it was taken back. */
  function TakenField(func: nat, field: nat, before: nat): nat {
    if func == FUNCTION_CFG_BUTTON then if field == CFG then 0 else before
    else if func == FUNCTION_CFG_LED then if field == CFG_LED then 0 else before
    else if field == NR || field == FUNCTION then 0
    else Setting(func, field, before)
  }

  /** A free pin after it was given away; where there are shutters for the number, as their button. */
  function GivenField(q: Request, field: nat, before: nat): nat {
    if 2 * q.shutters > q.nr && field == ACTION then OPEN_OR_CLOSE
    else if 2 * q.shutters > q.nr && field == EVENT then ON_PRESS
    else if q.func == FUNCTION_CFG_BUTTON then if field == CFG then 1 else before
    else if q.func == FUNCTION_CFG_LED then if field == CFG_LED then 1 else before
    else if field == NR then if q.nr == 255 then 0 else q.nr + 1
    else if field == FUNCTION then q.func
    else Setting(q.func, field, before)
  }

  lemma ClearedField(r: Rec, func: nat, field: nat)
    requires field < FIELDS
    ensures Cleared(r, func)[field] == TakenField(func, field, r[field])
  {
  }

  lemma MovedField(t: Table, q: Request, pin: nat, field: nat)
    requires Inv(t) && q.Valid(|t|) && q.choice == Some(pin) && pin < |t| && field < FIELDS && Free(t, q)
    ensures GetGpio(t, q.nr, q.func) != pin
    ensures Move(t, q, pin)[pin][field] == GivenField(q, field, t[pin][field])
  {
    HolderUnique(t, pin, q.nr, q.func);
    ClearedField(t[pin], q.func, field);
  }

  /** The settings of the chosen pin after an accepted request that does not take it back: those of a pin just
      given away if it was free, and what it had if the function was there already. */
  lemma ChosenPin(t: Table, q: Request, pin: nat, field: nat)
    requires Inv(t) && q.Valid(|t|) && Save(t, q).ok && q.choice == Some(pin) && pin < |t| && field < FIELDS
    requires !TakenBack(t, q, pin)
    ensures Save(t, q).table[pin][field]
            == if Free(t, q) then GivenField(q, field, t[pin][field]) else t[pin][field]
  {
    if Free(t, q) {
      MovedField(t, q, pin, field);
    } else {
      OccupiedKeeps(t, q, pin);
      if GetGpio(t, q.nr, q.func) == pin {
        TakenBackIsOverLimit(t, q, pin);
      }
    }
  }

  lemma OccupiedKeeps(t: Table, q: Request, pin: nat)
    requires Inv(t) && q.Valid(|t|) && q.choice == Some(pin) && pin < |t| && !Free(t, q) && SaveReal(t, q, pin).ok
    ensures SaveReal(t, q, pin).table == t && GetGpio(t, q.nr, q.func) == pin
  {
    var nr := if IsCfg(q.func) then 0 else q.nr;
    OccupiedIsGivenAgain(t, q, pin, nr);
    HolderUnique(t, pin, q.nr, q.func);
    assert t[pin := Assigned(t[pin], nr, q.func)] == t by {
      assert Assigned(t[pin], nr, q.func) == t[pin];
    }
  }

  /** The settings of a pin that the function leaves: for "no pin", for a free pin, or taken back at the limit. */
  lemma LeftPin(t: Table, q: Request, p: nat, field: nat)
    requires Inv(t) && q.Valid(|t|) && q.choice.Some? && p == GetGpio(t, q.nr, q.func) < |t| && field < FIELDS
    requires q.choice.value == |t| || Free(t, q) || TakenBack(t, q, q.choice.value)
    ensures Save(t, q).table[p][field] == TakenField(q.func, field, t[p][field])
  {
    ClearedField(t[p], q.func, field);
    if q.choice.value < |t| {
      if Free(t, q) {
        LeftForFree(t, q, q.choice.value, p);
      } else {
        HolderUnique(t, p, q.nr, q.func);
        OccupiedKeeps(t, q, p);
        TakenBackIsOverLimit(t, q, p);
      }
    }
  }

  lemma ClearedTwice(r: Rec, func: nat)
    ensures Cleared(Cleared(r, func), func) == Cleared(r, func)
  {
    var s := Cleared(r, func);
    forall field | 0 <= field < FIELDS ensures Cleared(s, func)[field] == s[field] {
      ClearedField(r, func, field);
      ClearedField(s, func, field);
    }
  }

  lemma LeftForFree(t: Table, q: Request, pin: nat, p: nat)
    requires Inv(t) && q.Valid(|t|) && q.choice == Some(pin) && pin < |t| && Free(t, q)
    requires p == GetGpio(t, q.nr, q.func) < |t|
    ensures Save(t, q).table[p] == Cleared(t[p], q.func)
  {
    MovedField(t, q, pin, 0);
    ClearedTwice(t[p], q.func);
  }

  /** Fields that requests for a function never touch: for ordinary functions the configuration flags, for
      these the function and its number, and always the expander's fields. */
  predicate Foreign(func: nat, field: nat) {
    || (!IsCfg(func) && (field == CFG || field == CFG_LED))
    || (IsCfg(func) && (field == FUNCTION || field == NR))
    || 8 <= field < 16
  }

  lemma ForeignKept(t: Table, pin: nat, nr: nat, func: nat, p: nat, field: nat)
    requires p < |t| && field < FIELDS && Foreign(func, field)
    ensures ClearGpio(t, pin, func)[p][field] == t[p][field]
    ensures SetGpio(t, pin, nr, func)[p][field] == t[p][field]
  {
  }

  lemma MoveKeepsForeign(t: Table, q: Request, pin: nat, p: nat, field: nat)
    requires pin < |t| && p < |t| && field < FIELDS && Foreign(q.func, field)
    ensures Move(t, q, pin)[p][field] == t[p][field]
  {
    var freed := ClearGpio(t, GetGpio(t, q.nr, q.func), q.func);
    ForeignKept(t, GetGpio(t, q.nr, q.func), q.nr, q.func, p, field);
    ForeignKept(freed, pin, q.nr, q.func, p, field);
    ForeignKept(ClearGpio(freed, pin, q.func), pin, q.nr, q.func, p, field);
  }

  /** Functions and configuration flags are independent: a request leaves foreign fields alone on every
      pin. */
  lemma Independent(t: Table, q: Request, p: nat, field: nat)
    requires q.Valid(|t|) && p < |t| && field < FIELDS && Foreign(q.func, field)
    ensures Save(t, q).table[p][field] == t[p][field]
  {
    if q.choice.Some? {
      var holder := GetGpio(t, q.nr, q.func);
      ForeignKept(t, holder, q.nr, q.func, p, field);
      if q.choice.value < |t| {
        MoveKeepsForeign(t, q, q.choice.value, p, field);
        ForeignKept(t, q.choice.value, 0, q.func, p, field);
        ForeignKept(t, q.choice.value, q.nr, q.func, p, field);
        ForeignKept(SaveReal(t, q, q.choice.value).table, holder, q.nr, q.func, p, field);
      }
    }
  }

  /** The request takes back the pin it names: the function was already there, and the number that the
      limit is compared with (for a configuration function the one stored at the pin) reaches it. */
  predicate TakenBack(t: Table, q: Request, pin: nat)
    requires pin < |t|
  {
    && GetGpio(t, q.nr, q.func) == pin && q.limit.Some?
    && (if IsCfg(q.func) then t[pin][NR] - 1 else q.nr) >= q.limit.value
  }

  /** Comparing after the request comes to the same. */
  lemma TakenBackIsOverLimit(t: Table, q: Request, pin: nat)
    requires Inv(t) && q.Valid(|t|) && pin < |t| && GetGpio(t, q.nr, q.func) == pin
    requires SaveReal(t, q, pin).ok
    ensures OverLimit(SaveReal(t, q, pin).table[pin], q) <==> TakenBack(t, q, pin)
  {
  }

  /** After a successful request for a real pin the function is found there, unless the pin is taken back or
      the number is 255; then it is found nowhere. Number 255 holds its pin all the same. */
  lemma FoundIff(t: Table, q: Request)
    requires Inv(t) && q.Valid(|t|) && Save(t, q).ok
    requires q.choice.Some? && q.choice.value < |t|
    ensures var pin := q.choice.value;
            GetGpio(Save(t, q).table, q.nr, q.func)
            == if !TakenBack(t, q, pin) && (IsCfg(q.func) || q.nr < 255) then pin else |t|
    ensures !TakenBack(t, q, q.choice.value) ==> Carries(Save(t, q).table[q.choice.value], q.nr, q.func)
  {
    var pin := q.choice.value;
    if !IsCfg(q.func) && q.nr == 255 {
      FoundNowhere(t, q, pin);
    } else {
      FoundThere(t, q, pin);
    }
  }

  lemma FoundNowhere(t: Table, q: Request, pin: nat)
    requires Inv(t) && q.Valid(|t|) && Save(t, q).ok && q.choice == Some(pin) && pin < |t|
    requires !IsCfg(q.func) && q.nr == 255
    ensures GetGpio(Save(t, q).table, q.nr, q.func) == |t| && Carries(Save(t, q).table[pin], q.nr, q.func)
  {
    NobodyServes255(t, q.func);
    NobodyServes255(Save(t, q).table, q.func);
  }

  lemma FoundThere(t: Table, q: Request, pin: nat)
    requires Inv(t) && q.Valid(|t|) && Save(t, q).ok && q.choice == Some(pin) && pin < |t|
    requires IsCfg(q.func) || q.nr < 255
    ensures GetGpio(Save(t, q).table, q.nr, q.func) == if TakenBack(t, q, pin) then |t| else pin
    ensures !TakenBack(t, q, pin) ==> Carries(Save(t, q).table[pin], q.nr, q.func)
  {
    var holder := GetGpio(t, q.nr, q.func);
    var u := SaveReal(t, q, pin).table;
    SaveRealKeepsIff(t, q, pin);
    SaveKeepsIff(t, q);
    assert Serves(u[pin], q.nr, q.func);
    HolderUnique(u, pin, q.nr, q.func);
    if holder == pin {
      TakenBackIsOverLimit(t, q, pin);
    }
    if OverLimit(u[pin], q) {
      if holder == pin {
        var w := GetGpio(Save(t, q).table, q.nr, q.func);
        if w < |t| { FreedServesNobody(u, q.nr, q.func, w); }
      } else {
        HolderUnique(Save(t, q).table, pin, q.nr, q.func);
      }
    }
  }

  /** Below the limit, an ordinary function gets the pin it asked for. */
  lemma FoundBelowLimit(t: Table, q: Request)
    requires Inv(t) && q.Valid(|t|) && q.nr < 255 && Save(t, q).ok && !IsCfg(q.func)
    requires q.choice.Some? && q.choice.value < |t| && (q.limit.Some? ==> q.nr < q.limit.value)
    ensures GetGpio(Save(t, q).table, q.nr, q.func) == q.choice.value
  {
    FoundIff(t, q);
  }

  /** "No pin" takes the function away. */
  lemma NoPinFrees(t: Table, q: Request)
    requires Inv(t) && q.Valid(|t|) && q.choice == Some(|t|)
    ensures Save(t, q).ok && GetGpio(Save(t, q).table, q.nr, q.func) == |t|
  {
    var w := GetGpio(Save(t, q).table, q.nr, q.func);
    if w < |t| { FreedServesNobody(t, q.nr, q.func, w); }
  }

  // ----- Safety -----

  lemma ClearedKeepsInv(pins: nat)
    ensures Inv(ClearedTable(pins))
  {
  }

  /** Whatever is submitted, in any order, from a cleared table: all along the run no two pins clash,
      exactly when no request of it doubles. */
  lemma AllocatorSafety(pins: nat, requests: seq<Request>)
    requires Lines(requests, pins)
    ensures NeverClashes(ClearedTable(pins), requests) <==> NeverDoubles(ClearedTable(pins), requests)
  {
    ClearedKeepsInv(pins);
    RunKeepsIff(ClearedTable(pins), requests);
  }

  lemma {:induction false} SmallNeverDouble(t: Table, requests: seq<Request>, n: nat)
    requires Lines(requests, |t|) && Numbers(requests, n) && n < 255
    ensures NeverDoubles(t, requests)
    decreases |requests|
  {
    if requests != [] {
      SmallNeverDouble(t, requests[..|requests| - 1], n);
    }
  }

  predicate Numbers(requests: seq<Request>, n: nat) {
    forall i | 0 <= i < |requests| :: requests[i].nr <= n
  }

  /** With two pins or more: numbers up to `n` are safe in every run exactly when `n` is below 255. */
  lemma SafeNumbers(pins: nat, n: nat)
    requires pins >= 2 && n < 256
    ensures (forall requests | Lines(requests, pins) && Numbers(requests, n) ::
               NoClash(Run(ClearedTable(pins), requests)))
            <==> n < 255
  {
    if n < 255 {
      forall requests | Lines(requests, pins) && Numbers(requests, n)
        ensures NoClash(Run(ClearedTable(pins), requests))
      {
        SmallNeverDouble(ClearedTable(pins), requests, n);
        AllocatorSafety(pins, requests);
      }
    } else {
      var q := Request(255, FUNCTION_LED, Some(0), None, 0);
      var requests := [q, q.(choice := Some(1))];
      Number255Clashes(pins, FUNCTION_LED, 0, 1, None, 0);
      assert Lines(requests, pins) && Numbers(requests, n);
    }
  }

  /** Two requests for number 255 put any ordinary function on any two pins, whatever the limit: both are
      stored as number 0. */
  lemma Number255Clashes(pins: nat, func: nat, p: nat, q: nat, limit: Option<nat>, shutters: nat)
    requires p < pins && q < pins && p != q && FUNCTION_OFF < func < 256 && !IsCfg(func)
    requires limit.Some? ==> limit.value < 256
    ensures var first := Request(255, func, Some(p), limit, shutters);
            var t := Run(ClearedTable(pins), [first, first.(choice := Some(q))]);
            && t[p][FUNCTION] == t[q][FUNCTION] == func && t[p][NR] == t[q][NR] == 0 && !NoClash(t)
  {
    var first := Request(255, func, Some(p), limit, shutters);
    var second := first.(choice := Some(q));
    var t := ClearedTable(pins);
    ClearedKeepsInv(pins);
    Given255(t, first, p);
    var u := Save(t, first).table;
    Given255(u, second, q);
    var v := Save(u, second).table;
    assert [first, second][..1] == [first] && [first][..0] == [];
    assert Run(t, []) == t && Run(t, [first]) == u && Run(t, [first, second]) == v;
    assert v[p] == u[p] && !Distinct(v[p], v[q]) && !Distinct(v[q], v[p]);
  }

  /** A free pin is given to number 255, and nothing else happens. */
  lemma Given255(t: Table, q: Request, pin: nat)
    requires q.Valid(|t|) && q.nr == 255 && !IsCfg(q.func) && q.choice == Some(pin) && pin < |t|
    requires t[pin][FUNCTION] == FUNCTION_OFF && AllWellFormed(t)
    ensures var u := Save(t, q).table;
            && u[pin][FUNCTION] == q.func && u[pin][NR] == 0 && u == t[pin := u[pin]] && WellFormed(u[pin])
  {
    NobodyServes255(t, q.func);
  }

  /** The LED line of the relay page, which takes its number from the request and names no limit, does it
      on a board with two pins. */
  lemma Number255Wraps(pins: nat)
    requires pins == 2
    ensures var first := Request(255, FUNCTION_LED, Some(0), None, 0);
            var t := Run(ClearedTable(pins), [first, first.(choice := Some(1))]);
            t[0][FUNCTION] == t[1][FUNCTION] == FUNCTION_LED && t[0][NR] == t[1][NR]
  {
    Number255Clashes(pins, FUNCTION_LED, 0, 1, None, 0);
  }
}
