/** Query parameters as a value: an ordered map from keys to lists of values with options. */
module QueryModel {
  import opened Options

  datatype Delimiter = Comma | Space | Pipe | Tab {
    function Char(): char {
      match this
      case Comma => ','
      case Space => ' '
      case Pipe => '|'
      case Tab => '\t'
    }
  }

  /** An optional property: not there, there but `undefined`, or given. */
  datatype Field<+T> = Missing | Undefined | Given(value: T) {
    /** `field ?? otherwise` */
    function Or(otherwise: T): T {
      if Given? then value else otherwise
    }
  }

  datatype ParamOptions = ParamOptions(explode: Field<bool>, delimiter: Field<Delimiter>)

  datatype FullOptions = FullOptions(explode: bool, delimiter: Delimiter)

  function Resolve(local: Option<ParamOptions>, defaults: FullOptions): FullOptions {
    if local.None? then defaults
    else FullOptions(local.value.explode.Or(defaults.explode), local.value.delimiter.Or(defaults.delimiter))
  }

  /** `{...base, ...over}`: a property that is there overrides, even when it is `undefined`. */
  function Spread(base: FullOptions, over: ParamOptions): ParamOptions {
    ParamOptions(if over.explode.Missing? then Given(base.explode) else over.explode,
                 if over.delimiter.Missing? then Given(base.delimiter) else over.delimiter)
  }

  datatype Entry = Entry(values: seq<string>, options: FullOptions)

  /** `order` is the order in which the keys were first stored. */
  datatype Params = Params(order: seq<string>, entries: map<string, Entry>)

  const NoParams := Params([], map[])

  predicate Distinct(keys: seq<string>) {
    forall i, j :: 0 <= i < j < |keys| ==> keys[i] != keys[j]
  }

  lemma DistinctSnoc(keys: seq<string>, key: string)
    requires Distinct(keys) && key !in keys
    ensures Distinct(keys + [key])
    ensures forall k :: k in keys + [key] <==> k in keys || k == key
  {
  }

  ghost predicate Consistent(p: Params) {
    Distinct(p.order) && forall key :: key in p.order <==> key in p.entries
  }

  function Store(p: Params, key: string, entry: Entry): Params {
    Params(if key in p.entries then p.order else p.order + [key], p.entries[key := entry])
  }

  lemma StoreConsistent(p: Params, key: string, entry: Entry)
    requires Consistent(p)
    ensures Consistent(Store(p, key, entry))
  {
  }

  function SetParam(p: Params, defaults: FullOptions, key: string, values: seq<string>,
                    options: Option<ParamOptions>): Params {
    Store(p, key, Entry(values, Resolve(options, defaults)))
  }

  function ExtendEntry(entry: Entry, defaults: FullOptions, value: string,
                       options: Option<ParamOptions>): Entry {
    Entry(entry.values + [value],
          if options.Some? then Resolve(Some(Spread(entry.options, options.value)), defaults)
          else entry.options)
  }

  function AppendParam(p: Params, defaults: FullOptions, key: string, value: string,
                       options: Option<ParamOptions>): Params {
    if key in p.entries then
      Store(p, key, ExtendEntry(p.entries[key], defaults, value, options))
    else SetParam(p, defaults, key, [value], options)
  }

  // ----- sequences of calls

  datatype Op =
    | Set(key: string, values: seq<string>, options: Option<ParamOptions>)
    | Append(key: string, value: string, options: Option<ParamOptions>)

  function Apply(p: Params, defaults: FullOptions, op: Op): Params {
    match op
    case Set(key, values, options) => SetParam(p, defaults, key, values, options)
    case Append(key, value, options) => AppendParam(p, defaults, key, value, options)
  }

  function ApplyAll(p: Params, defaults: FullOptions, ops: seq<Op>): Params {
    if ops == [] then p
    else Apply(ApplyAll(p, defaults, ops[..|ops| - 1]), defaults, ops[|ops| - 1])
  }

  lemma {:induction false} ApplyAllAppend(p: Params, defaults: FullOptions, a: seq<Op>, b: seq<Op>)
    ensures ApplyAll(p, defaults, a + b) == ApplyAll(ApplyAll(p, defaults, a), defaults, b)
  {
    if b == [] {
      assert a + b == a;
    } else {
      assert (a + b)[..|a + b| - 1] == a + b[..|b| - 1];
      ApplyAllAppend(p, defaults, a, b[..|b| - 1]);
    }
  }

  lemma {:induction false} ApplyAllConsistent(p: Params, defaults: FullOptions, ops: seq<Op>)
    requires Consistent(p)
    ensures Consistent(ApplyAll(p, defaults, ops))
  {
    if ops != [] {
      ApplyAllConsistent(p, defaults, ops[..|ops| - 1]);
    }
  }

  /** The calls on a key from its last `set` on, or all of them when it was never set. */
  function Since(ops: seq<Op>, key: string): seq<Op> {
    if ops == [] then []
    else
      var before, last := ops[..|ops| - 1], ops[|ops| - 1];
      if last.key != key then Since(before, key)
      else if last.Set? then [last]
      else Since(before, key) + [last]
  }

  function Contribution(op: Op): seq<string> {
    match op
    case Set(_, values, _) => values
    case Append(_, value, _) => [value]
  }

  function GivenValues(ops: seq<Op>): seq<string> {
    if ops == [] then [] else GivenValues(ops[..|ops| - 1]) + Contribution(ops[|ops| - 1])
  }

  /** The last call that says anything about exploding decides; `undefined` asks for the default. */
  function LastExplode(ops: seq<Op>, defaults: FullOptions): bool {
    if ops == [] then defaults.explode
    else
      var options := ops[|ops| - 1].options;
      if options.Some? && !options.value.explode.Missing?
      then options.value.explode.Or(defaults.explode)
      else LastExplode(ops[..|ops| - 1], defaults)
  }

  function LastDelimiter(ops: seq<Op>, defaults: FullOptions): Delimiter {
    if ops == [] then defaults.delimiter
    else
      var options := ops[|ops| - 1].options;
      if options.Some? && !options.value.delimiter.Missing?
      then options.value.delimiter.Or(defaults.delimiter)
      else LastDelimiter(ops[..|ops| - 1], defaults)
  }

  /** What the calls since the last `set` leave behind. */
  function Remembered(since: seq<Op>, defaults: FullOptions): Entry {
    Entry(GivenValues(since), FullOptions(LastExplode(since, defaults), LastDelimiter(since, defaults)))
  }

  lemma RememberedFirst(op: Op, defaults: FullOptions)
    ensures Remembered([op], defaults) == Entry(Contribution(op), Resolve(op.options, defaults))
  {
    var since := [op];
    assert since[..|since| - 1] == [];
    assert GivenValues(since[..|since| - 1]) == [];
    assert LastExplode(since, defaults) == Resolve(op.options, defaults).explode;
    assert LastDelimiter(since, defaults) == Resolve(op.options, defaults).delimiter;
  }

  lemma RememberedNext(since: seq<Op>, op: Op, defaults: FullOptions)
    requires op.Append?
    ensures Remembered(since + [op], defaults)
         == ExtendEntry(Remembered(since, defaults), defaults, op.value, op.options)
  {
  }

  lemma {:induction false} SinceNames(ops: seq<Op>, key: string)
    ensures Since(ops, key) != [] <==> exists i :: 0 <= i < |ops| && ops[i].key == key
  {
    if ops != [] {
      SinceNames(ops[..|ops| - 1], key);
      if ops[|ops| - 1].key != key && Since(ops[..|ops| - 1], key) != [] {
        var i :| 0 <= i < |ops| - 1 && ops[..|ops| - 1][i].key == key;
        assert ops[i].key == key;
      }
    }
  }

  /**
   After any calls, a key is there exactly when a call named it. It holds exactly the values given
   since it was last set, in order, under the options that the calls since then said last.
   */
  lemma {:induction false} History(ops: seq<Op>, defaults: FullOptions, key: string)
    ensures var entries := ApplyAll(NoParams, defaults, ops).entries;
            && (key in entries <==> Since(ops, key) != [])
            && (key in entries ==> entries[key] == Remembered(Since(ops, key), defaults))
  {
    if ops != [] {
      var before, last := ops[..|ops| - 1], ops[|ops| - 1];
      History(before, defaults, key);
      if last.key == key {
        RememberedFirst(last, defaults);
        if last.Append? {
          RememberedNext(Since(before, key), last, defaults);
        }
      }
    }
  }

  // ----- what survives

  /** The values a key holds, none when it is not there. */
  function ValuesAt(p: Params, key: string): seq<string> {
    if key in p.entries then p.entries[key].values else []
  }

  function OnKey(ops: seq<Op>, key: string): seq<Op> {
    if ops == [] then []
    else OnKey(ops[..|ops| - 1], key) + if ops[|ops| - 1].key == key then [ops[|ops| - 1]] else []
  }

  /** Some `set` of the key comes when values for it have already been given. */
  predicate Overwrites(p: Params, ops: seq<Op>, key: string) {
    ops != []
    && (Overwrites(p, ops[..|ops| - 1], key)
        || (ops[|ops| - 1].key == key && ops[|ops| - 1].Set?
            && ValuesAt(p, key) + GivenValues(OnKey(ops[..|ops| - 1], key)) != []))
  }

  lemma ValuesAfter(p: Params, defaults: FullOptions, op: Op, key: string)
    ensures ValuesAt(Apply(p, defaults, op), key)
         == if op.key != key then ValuesAt(p, key)
            else if op.Set? then op.values
            else ValuesAt(p, key) + [op.value]
  {
  }

  lemma GivenAfter(ops: seq<Op>, key: string)
    requires ops != []
    ensures var before, last := ops[..|ops| - 1], ops[|ops| - 1];
            GivenValues(OnKey(ops, key))
            == GivenValues(OnKey(before, key)) + if last.key == key then Contribution(last) else []
  {
    var on, last := OnKey(ops[..|ops| - 1], key), ops[|ops| - 1];
    if last.key == key {
      assert (on + [last])[..|on|] == on;
    } else {
      assert OnKey(ops, key) == on;
    }
  }

  /** What is held against what was given: all of it, or less when something was overwritten. */
  predicate Kept(held: seq<string>, given: seq<string>, overwritten: bool) {
    if overwritten then |held| < |given| else held == given
  }

  lemma KeptAfter(held: seq<string>, start: seq<string>, given: seq<string>, overwritten: bool, op: Op)
    requires Kept(held, start + given, overwritten)
    ensures Kept(if op.Set? then op.values else held + [op.value], start + (given + Contribution(op)),
                 overwritten || (op.Set? && start + given != []))
  {
  }

  lemma {:induction false} KeptUnlessOverwritten(p: Params, defaults: FullOptions, ops: seq<Op>,
                                                 key: string)
    ensures Kept(ValuesAt(ApplyAll(p, defaults, ops), key),
                 ValuesAt(p, key) + GivenValues(OnKey(ops, key)), Overwrites(p, ops, key))
  {
    if ops != [] {
      var before, last := ops[..|ops| - 1], ops[|ops| - 1];
      KeptUnlessOverwritten(p, defaults, before, key);
      ValuesAfter(ApplyAll(p, defaults, before), defaults, last, key);
      GivenAfter(ops, key);
      if last.key == key {
        KeptAfter(ValuesAt(ApplyAll(p, defaults, before), key), ValuesAt(p, key),
                  GivenValues(OnKey(before, key)), Overwrites(p, before, key), last);
      }
    }
  }

  /**
   A key ends up with everything it held and everything it was given, in order, exactly when no
   `set` of it comes after values for it.
   */
  lemma NothingLostIff(p: Params, defaults: FullOptions, ops: seq<Op>, key: string)
    ensures ValuesAt(ApplyAll(p, defaults, ops), key)
              == ValuesAt(p, key) + GivenValues(OnKey(ops, key))
       <==> !Overwrites(p, ops, key)
  {
    KeptUnlessOverwritten(p, defaults, ops, key);
  }
}
