/** Pin records as stored strings: writing a field of the string is writing a field of the record. */
module PinStrings {
  import opened ConfigText
  import opened Decimal
  import opened PinTable

  /** Characters a field may take, so that a record never outgrows its string. */
  function Width(field: nat): nat {
    if field == NR || field == FUNCTION then 3
    else if field < 8 || field == INVERSED || field == CFG_LED then 1
    else 0
  }

  /** A pin string that the element store updates faithfully. */
  ghost predicate Stored(s: string) {
    && WellKept(s, PIN_WIDTH)
    && forall j {:trigger Elem(s, j)} | 0 <= j < FIELDS :: |Elem(s, j)| <= Width(j)
  }

  /** The record a pin string stands for. */
  ghost function Decode(s: string): Rec {
    seq(FIELDS, j requires 0 <= j < FIELDS => ToInt(Elem(s, j)))
  }

  /** Values that a field has room for. */
  predicate Fits(field: nat, v: nat) {
    field < FIELDS && if Width(field) == 3 then v < 256 else Width(field) == 1 && v < 10
  }

  function WidthsFrom(j: nat): nat
    decreases FIELDS - j
  {
    if j >= FIELDS then 0 else Width(j) + WidthsFrom(j + 1)
  }

  lemma WidthsTotal()
    ensures WidthsFrom(0) == 14
  {
    assert WidthsFrom(18) == 0 && WidthsFrom(17) == 1 && WidthsFrom(16) == 2;
    assert WidthsFrom(15) == 2 && WidthsFrom(14) == 2 && WidthsFrom(13) == 2 && WidthsFrom(12) == 2;
    assert WidthsFrom(11) == 2 && WidthsFrom(10) == 2 && WidthsFrom(9) == 2 && WidthsFrom(8) == 2;
    assert WidthsFrom(7) == 3 && WidthsFrom(6) == 4 && WidthsFrom(5) == 5 && WidthsFrom(4) == 6;
    assert WidthsFrom(3) == 7 && WidthsFrom(2) == 8 && WidthsFrom(1) == 11;
  }

  lemma {:induction false} TotalWithinWidths(f: seq<string>, j: nat)
    requires j + |f| == FIELDS && forall k | 0 <= k < |f| :: |f[k]| <= Width(j + k)
    ensures Total(f) <= WidthsFrom(j)
    decreases |f|
  {
    if f != [] {
      assert |f[0]| <= Width(j + 0);
      forall k | 0 <= k < |f[1..]| ensures |f[1..][k]| <= Width(j + 1 + k) { assert |f[k + 1]| <= Width(j + (k + 1)); }
      TotalWithinWidths(f[1..], j + 1);
    }
  }

  /** Reading the fields `f` of the record back, of which `field` is new. */
  lemma FieldRead(s: string, w: string, field: nat, v: nat, j: nat)
    requires field < FIELDS && j < FIELDS && Fields(w, PIN_FIELDS) == Fields(s, PIN_FIELDS)[field := Digits(v)]
    requires ToInt(Digits(v)) == v && |Digits(v)| <= Width(field) && |Elem(s, j)| <= Width(j)
    ensures |Elem(w, j)| <= Width(j) && Decode(w)[j] == Decode(s)[field := v][j]
  {
    assert Elem(w, j) == Fields(w, PIN_FIELDS)[j];
  }

  /** Writing a number that fits updates exactly its field of the record. */
  lemma FieldWrite(s: string, field: nat, v: nat)
    requires Stored(s) && Fits(field, v)
    ensures var w := Written(s, field, Digits(v), PIN_WIDTH);
            Stored(w) && Decode(w) == Decode(s)[field := v]
  {
    var d := Digits(v);
    var f := Fields(s, PIN_FIELDS);
    ShortDigits(v);
    DigitsArePlain(v, SEPARATOR);
    WidthsTotal();
    TotalWithinWidths(f, 0);
    TotalWithinWidths(f[field := d], 0);
    PinRecordUpdate(s, field, d);
    ToIntOfDigits(v);
    var w := Written(s, field, d, PIN_WIDTH);
    forall j | 0 <= j < FIELDS ensures |Elem(w, j)| <= Width(j) && Decode(w)[j] == Decode(s)[field := v][j] {
      FieldRead(s, w, field, v, j);
    }
  }

  /** A pin string that was never written. */
  lemma EmptyString()
    ensures Stored("") && Decode("") == seq(FIELDS, _ => 0)
  {
    FirstSeparatorOfPlain("");
    forall j | 0 <= j < FIELDS ensures Elem("", j) == "" {
    }
    EmptyIsZero();
  }
}

/** The pin allocator on the configuration strings. */
module PinAllocator {
  import opened CStrings
  import opened ConfigText
  import opened Decimal
  import opened PinTable
  import opened PinStrings
  import ConfigManager

  const KEY_GPIO := 24

  ghost predicate Represents(s: string, r: Rec) {
    Stored(s) && Decode(s) == r
  }

  /** The strings of the pins stand for the records of the table. */
  ghost predicate Match(texts: seq<string>, t: Table) {
    && |texts| > KEY_GPIO + |t|
    && forall p {:trigger t[p]} | 0 <= p < |t| :: Represents(texts[KEY_GPIO + p], t[p])
  }

  /** One field written; writes to "no pin" do not reach the table. */
  function WithField(t: Table, pin: nat, field: nat, v: nat): (u: Table)
    requires field < FIELDS
    ensures |u| == |t|
  {
    if pin < |t| then t[pin := t[pin][field := v]] else t
  }

  /** Writing a field of a string writes it in the table. */
  lemma WriteMatches(texts: seq<string>, after: seq<string>, t: Table, pin: nat, field: nat, v: nat)
    requires Match(texts, t) && pin <= |t| && Fits(field, v)
    requires |after| == |texts| && after == texts[KEY_GPIO + pin := after[KEY_GPIO + pin]]
    requires pin < |t| ==> after[KEY_GPIO + pin] == Written(texts[KEY_GPIO + pin], field, Digits(v), PIN_WIDTH)
    ensures Match(after, WithField(t, pin, field, v))
  {
    if pin < |t| {
      assert Represents(texts[KEY_GPIO + pin], t[pin]);
      FieldWrite(texts[KEY_GPIO + pin], field, v);
    }
    var u := WithField(t, pin, field, v);
    forall p | 0 <= p < |t| && p != pin ensures Represents(after[KEY_GPIO + p], u[p]) {
      assert Represents(texts[KEY_GPIO + p], t[p]);
    }
  }

  class PinAllocator {
    const config: ConfigManager.ConfigManager
    /** Pins 0 to `pins - 1` exist; `pins` means "no pin", and its key belongs to another option. */
    const pins: nat
    /** Keys of options that are written beside the pins: the relay numbers of buttons, the thermostat types.
        What is written there is not modelled. */
    ghost const beside: set<nat>
    /** What the strings stand for. */
    ghost var table: Table

    ghost predicate Valid()
      reads this, config, config.buffers
    {
      config.Valid() && PinOptions() && |table| == pins && Match(config.texts, table)
    }

    ghost predicate PinOptions() {
      && config.BuffersApart() && |config.options| > KEY_GPIO + pins
      && forall key {:trigger config.options[key]} | KEY_GPIO <= key < KEY_GPIO + pins ::
           config.options[key].value != null && config.options[key].maxLength == PIN_WIDTH + 1
    }

    /** The strings of all options but the pins, "no pin" and those in `beside` are those of `before`. */
    ghost predicate OthersKept(before: seq<string>)
      reads config
    {
      && |config.texts| == |before|
      && forall k | 0 <= k < |before| && !(KEY_GPIO <= k <= KEY_GPIO + pins) && k !in beside ::
           config.texts[k] == before[k]
    }

    /** Starts on a configuration whose pin strings are empty. */
    constructor (config: ConfigManager.ConfigManager, pins: nat, ghost beside: set<nat>)
      requires config.Valid() && config.BuffersApart() && |config.options| > KEY_GPIO + pins
      requires forall key | KEY_GPIO <= key < KEY_GPIO + pins ::
                 && config.options[key].value != null && config.options[key].maxLength == PIN_WIDTH + 1
                 && config.texts[key] == ""
      ensures Valid() && this.config == config && this.pins == pins && this.beside == beside
      ensures table == ClearedTable(pins)
    {
      this.config, this.pins, this.beside, this.table := config, pins, beside, ClearedTable(pins);
      EmptyString();
    }

    /** A field of a pin record; of "no pin", whatever its key holds. */
    method ReadField(pin: nat, field: nat) returns (v: nat)
      requires Valid() && pin <= pins && field < FIELDS
      ensures pin < pins ==> v == table[pin][field]
    {
      var e := config.GetElement(KEY_GPIO + pin, field);
      assert pin < pins ==> Represents(config.texts[KEY_GPIO + pin], table[pin]);
      v := ToInt(e);
    }

    method WriteField(pin: nat, field: nat, v: nat)
      requires Valid() && pin <= pins && Fits(field, v)
      modifies this`table, config`texts, config.buffers
      ensures OthersKept(old(config.texts))
      ensures Valid() && table == WithField(old(table), pin, field, v)
    {
      ghost var texts := config.texts;
      DigitsArePlain(v, NUL);
      var _ := config.SetElement(KEY_GPIO + pin, field, Digits(v));
      WriteMatches(texts, config.texts, table, pin, field, v);
      table := WithField(table, pin, field, v);
    }

    method CheckBusyCfg(pin: nat, func: nat) returns (busy: bool)
      requires Valid() && pin <= pins
      ensures pin < pins ==> busy == BusyCfg(table[pin], func)
      ensures pin < pins && func == FUNCTION_CFG_BUTTON ==> (busy <==> table[pin][CFG] == 1)
      ensures pin < pins && func == FUNCTION_CFG_LED ==>
                (busy <==> table[pin][CFG_LED] == 1 || table[pin][FUNCTION] == FUNCTION_CFG_LED)
      ensures !IsCfg(func) ==> !busy
    {
      busy := false;
      if func == FUNCTION_CFG_BUTTON {
        var cfg := ReadField(pin, CFG);
        busy := cfg == 1;
      } else if func == FUNCTION_CFG_LED {
        var f := ReadField(pin, FUNCTION);
        var led := ReadField(pin, CFG_LED);
        busy := f == FUNCTION_CFG_LED || led == 1;
      }
    }

    method CheckServes(pin: nat, nr: nat, func: nat) returns (serves: bool)
      requires Valid() && pin <= pins
      ensures pin < pins ==> serves == Serves(table[pin], nr, func)
    {
      serves := CheckBusyCfg(pin, func);
      if !serves {
        var f := ReadField(pin, FUNCTION);
        var number := ReadField(pin, NR);
        serves := f == func && number == nr + 1;
      }
    }

    /** The first pin that serves the function. The scan includes the slot after the last pin, which
        stands for "none" anyway. */
    method GetGpio(nr: nat, func: nat) returns (gpio: nat)
      requires Valid()
      ensures gpio == PinTable.GetGpio(table, nr, func)
    {
      ghost var t := table;
      for pin := 0 to pins + 1
        invariant Holder(t, 0, nr, func) == Holder(t, if pin > pins then pins else pin, nr, func)
      {
        var serves := CheckServes(pin, nr, func);
        if serves {
          return pin;
        }
      }
      return pins;
    }

    /** Number and function of a pin. */
    method WriteBoth(pin: nat, number: nat, func: nat)
      requires Valid() && pin <= pins && number < 256 && func < 256
      modifies this`table, config`texts, config.buffers
      ensures OthersKept(old(config.texts))
      ensures Valid()
      ensures table == if pin < pins then old(table)[pin := old(table)[pin][NR := number][FUNCTION := func]]
                       else old(table)
    {
      WriteField(pin, NR, number);
      WriteField(pin, FUNCTION, func);
    }

    method SetGpio(pin: nat, nr: nat, func: nat)
      requires Valid() && pin <= pins && func < 256
      modifies this`table, config`texts, config.buffers
      ensures OthersKept(old(config.texts))
      ensures Valid() && table == PinTable.SetGpio(old(table), pin, nr, func)
    {
      if func == FUNCTION_CFG_BUTTON {
        WriteField(pin, CFG, 1);
      } else if func == FUNCTION_CFG_LED {
        WriteField(pin, CFG_LED, 1);
      } else {
        WriteBoth(pin, (nr + 1) % 256, func);
      }
    }

    method ButtonDefaults(pin: nat)
      requires Valid() && pin <= pins
      modifies this`table, config`texts, config.buffers
      ensures OthersKept(old(config.texts))
      ensures Valid()
      ensures table == if pin < pins
                       then old(table)[pin := old(table)[pin]
                                              [PULL_UP := 1][INVERSED := 1][ACTION := TOGGLE][EVENT := ON_PRESS]]
                       else old(table)
    {
      WriteField(pin, PULL_UP, 1);
      WriteField(pin, INVERSED, 1);
      WriteField(pin, ACTION, TOGGLE);
      WriteField(pin, EVENT, ON_PRESS);
    }

    method RelayDefaults(pin: nat)
      requires Valid() && pin <= pins
      modifies this`table, config`texts, config.buffers
      ensures OthersKept(old(config.texts))
      ensures Valid()
      ensures table == if pin < pins
                       then old(table)[pin := old(table)[pin][LEVEL_RELAY := LOW][MEMORY := MEMORY_RESTORE]]
                       else old(table)
    {
      WriteField(pin, LEVEL_RELAY, LOW);
      WriteField(pin, MEMORY, MEMORY_RESTORE);
    }

    method Defaults(pin: nat, func: nat)
      requires Valid() && pin <= pins && !IsCfg(func)
      modifies this`table, config`texts, config.buffers
      ensures OthersKept(old(config.texts))
      ensures Valid()
      ensures table == if pin < pins then old(table)[pin := WithDefaults(old(table)[pin], func)] else old(table)
    {
      if func == FUNCTION_BUTTON || func == FUNCTION_BUTTON_STOP {
        ButtonDefaults(pin);
      }
      if func == FUNCTION_RELAY {
        RelayDefaults(pin);
      }
      if func == FUNCTION_LIMIT_SWITCH {
        WriteField(pin, PULL_UP, 1);
      }
    }

    method ClearGpio(pin: nat, func: nat)
      requires Valid() && pin <= pins
      modifies this`table, config`texts, config.buffers
      ensures OthersKept(old(config.texts))
      ensures Valid() && table == PinTable.ClearGpio(old(table), pin, func)
    {
      if func == FUNCTION_CFG_BUTTON {
        WriteField(pin, CFG, 0);
      } else if func == FUNCTION_CFG_LED {
        WriteField(pin, CFG_LED, 0);
      } else {
        WriteBoth(pin, 0, FUNCTION_OFF);
        Defaults(pin, func);
      }
    }

    /** The button of a roller shutter. */
    method OpenOrClose(pin: nat)
      requires Valid() && pin < pins
      modifies this`table, config`texts, config.buffers
      ensures OthersKept(old(config.texts))
      ensures Valid() && table == old(table)[pin := old(table)[pin][EVENT := ON_PRESS][ACTION := OPEN_OR_CLOSE]]
    {
      WriteField(pin, EVENT, ON_PRESS);
      WriteField(pin, ACTION, OPEN_OR_CLOSE);
    }

    /** The branch of `saveGPIO` for a free pin. */
    method Move(q: Request, gpio: nat, pin: nat)
      requires Valid() && pin < pins && q.Valid(pins) && gpio == PinTable.GetGpio(table, q.nr, q.func)
      modifies this`table, config`texts, config.buffers
      ensures OthersKept(old(config.texts))
      ensures Valid() && table == PinTable.Move(old(table), q, pin)
    {
      ClearGpio(gpio, q.func);
      ClearGpio(pin, q.func);
      SetGpio(pin, q.nr, q.func);
      if q.shutters * 2 > q.nr {
        OpenOrClose(pin);
      }
    }

    /** What `saveGPIO` reads of the chosen pin: who occupies it, and the number it carries. */
    method ReadOccupant(pin: nat, func: nat) returns (occupant: nat, number: nat)
      requires Valid() && pin <= pins
      ensures pin < pins ==> occupant == Occupant(table[pin], func) % 256
      ensures pin < pins && !IsCfg(func) ==> number == Previous(table[pin][NR])
    {
      number := 0;
      if func == FUNCTION_CFG_BUTTON {
        occupant := ReadField(pin, CFG);
      } else if func == FUNCTION_CFG_LED {
        occupant := ReadField(pin, CFG_LED);
      } else {
        occupant := ReadField(pin, FUNCTION);
        var stored := ReadField(pin, NR);
        number := Previous(stored);
      }
      occupant := occupant % 256;
    }

    /** The branches of `saveGPIO` for an occupied pin. */
    method Reassign(q: Request, gpio: nat, pin: nat, occupant: nat, number: nat) returns (ok: bool)
      requires Valid() && pin < pins && q.Valid(pins)
      modifies this`table, config`texts, config.buffers
      ensures OthersKept(old(config.texts))
      ensures Valid()
      ensures ok == (IsCfg(q.func) || (gpio == pin && occupant == q.func && number == q.nr))
      ensures table == if ok then PinTable.SetGpio(old(table), pin, if IsCfg(q.func) then 0 else q.nr, q.func)
                       else old(table)
    {
      ok := true;
      if IsCfg(q.func) {
        SetGpio(pin, 0, q.func);
      } else if gpio == pin && occupant == q.func && number == q.nr {
        SetGpio(pin, q.nr, q.func);
      } else {
        ok := false;
      }
    }

    method SaveReal(q: Request, gpio: nat, pin: nat) returns (ok: bool)
      requires Valid() && pin < pins && q.Valid(pins) && gpio == PinTable.GetGpio(table, q.nr, q.func)
      modifies this`table, config`texts, config.buffers
      ensures OthersKept(old(config.texts))
      ensures Valid() && Outcome(ok, table) == PinTable.SaveReal(old(table), q, pin)
    {
      var occupant, number := ReadOccupant(pin, q.func);
      if occupant == FUNCTION_OFF {
        Move(q, gpio, pin);
        ok := true;
      } else {
        ok := Reassign(q, gpio, pin, occupant, number);
      }
    }

    /** The check against the number of instances that the page allows. */
    method EnforceLimit(q: Request, gpio: nat, pin: nat)
      requires Valid() && pin <= pins && gpio <= pins
      modifies this`table, config`texts, config.buffers
      ensures OthersKept(old(config.texts))
      ensures Valid()
      ensures pin < pins ==> table == if OverLimit(old(table)[pin], q)
                                      then PinTable.ClearGpio(old(table), gpio, q.func) else old(table)
      ensures table == old(table) || table == PinTable.ClearGpio(old(table), gpio, q.func)
    {
      if q.limit.Some? {
        var number := ReadField(pin, NR);
        if number - 1 >= q.limit.value {
          ClearGpio(gpio, q.func);
        }
      }
    }

    /** A line of a submitted form. */
    method SaveGpio(q: Request) returns (ok: bool)
      requires Valid() && q.Valid(pins)
      modifies this`table, config`texts, config.buffers
      ensures OthersKept(old(config.texts))
      ensures Valid() && Outcome(ok, table) == Save(old(table), q)
      ensures q.choice.None? ==> ok && table == old(table) && config.texts == old(config.texts)
    {
      if q.choice.None? {
        return true;
      }
      var gpio := GetGpio(q.nr, q.func);
      var pin := q.choice.value;
      if pin == pins {
        ClearGpio(gpio, q.func);
        ClearTwice(old(table), gpio, q.func);
      } else {
        ok := SaveReal(q, gpio, pin);
        if !ok {
          return false;
        }
      }
      EnforceLimit(q, gpio, pin);
      return true;
    }
  }

  lemma ClearTwice(t: Table, pin: nat, func: nat)
    ensures PinTable.ClearGpio(PinTable.ClearGpio(t, pin, func), pin, func) == PinTable.ClearGpio(t, pin, func)
  {
    if pin < |t| {
      var r := Cleared(t[pin], func);
      assert Cleared(r, func) == r;
    }
  }
}
