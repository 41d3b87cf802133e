/** What `toRecord` and `toString` make of the parameters, and what can be read back from it. */
module QueryString {
  import opened Options
  import opened Text
  import opened Sets
  import opened PercentCodec
  import opened QueryModel

  datatype RecordValue = One(text: string) | Many(texts: seq<string>)

  type Record = map<string, RecordValue>

  /** Assigning to this key of a plain object makes no entry: an array becomes the prototype. */
  const PROTO := "__proto__"

  /** A plain object: its own entries, and the array it inherits from when it was given one. */
  datatype PlainObject = PlainObject(own: Record, inherited: seq<string>)

  function Serialized(entry: Entry): RecordValue {
    var encoded := EncodeAll(entry.values);
    if entry.options.explode then Many(encoded)
    else One(Join(encoded, [entry.options.delimiter.Char()]))
  }

  function Put(record: Record, key: string, value: RecordValue): Record {
    if key == PROTO then record else record[key := value]
  }

  function Assign(target: PlainObject, key: string, value: RecordValue): PlainObject {
    PlainObject(Put(target.own, key, value),
                if key == PROTO && value.Many? then value.texts else target.inherited)
  }

  function ObjectOfKeys(keys: seq<string>, entries: map<string, Entry>): PlainObject
    requires forall key <- keys :: key in entries
  {
    if keys == [] then PlainObject(map[], [])
    else
      var last := keys[|keys| - 1];
      Assign(ObjectOfKeys(keys[..|keys| - 1], entries), Encode(last), Serialized(entries[last]))
  }

  function ObjectOf(p: Params): PlainObject
    requires Consistent(p)
  {
    ObjectOfKeys(p.order, p.entries)
  }

  /** The record's own entries. */
  function RecordOf(p: Params): Record
    requires Consistent(p)
  {
    ObjectOf(p).own
  }

  /** The object when the first n keys have been put in. */
  function ObjectUpTo(p: Params, n: nat): PlainObject
    requires Consistent(p) && n <= |p.order|
  {
    ObjectOfKeys(p.order[..n], p.entries)
  }

  lemma ObjectUpToNext(p: Params, n: nat)
    requires Consistent(p) && n < |p.order|
    ensures ObjectUpTo(p, n + 1)
         == Assign(ObjectUpTo(p, n), Encode(p.order[n]), Serialized(p.entries[p.order[n]]))
  {
    assert p.order[..n + 1][..n] == p.order[..n];
  }

  lemma ObjectUpToAll(p: Params)
    requires Consistent(p)
    ensures ObjectUpTo(p, |p.order|) == ObjectOf(p)
  {
    assert p.order[..|p.order|] == p.order;
  }

  // ----- the record

  lemma ProtoEncodesItself()
    ensures Encode(PROTO) == PROTO
  {
    EncodesItselfIff(PROTO);
  }

  lemma OnlyProtoEncodesToProto(key: string)
    ensures Encode(key) == PROTO <==> key == PROTO
  {
    ProtoEncodesItself();
    if Encode(key) == PROTO {
      EncodeInjective(key, PROTO);
    }
  }

  /** Each key but `__proto__` has its own entry. */
  ghost predicate HasEntries(record: Record, keys: seq<string>, entries: map<string, Entry>)
    requires forall key <- keys :: key in entries
  {
    forall key <- keys ::
      key != PROTO ==> Encode(key) in record && record[Encode(key)] == Serialized(entries[key])
  }

  /** The text is the encoding of one of the keys, and not of `__proto__`. */
  predicate Names(text: string, keys: seq<string>) {
    var key := Decode(text);
    key.Some? && key.value in keys && key.value != PROTO && Encode(key.value) == text
  }

  /** Each entry belongs to a key. */
  ghost predicate HasOnlyEntries(record: Record, keys: seq<string>) {
    forall text <- record :: Names(text, keys)
  }

  lemma EncodeNames(key: string, keys: seq<string>)
    requires key in keys
    ensures Names(Encode(key), keys) <==> key != PROTO
  {
    DecodeEncode(key);
  }

  lemma PutKeepsEntries(record: Record, keys: seq<string>, last: string, entries: map<string, Entry>)
    requires last !in keys && last in entries && forall key <- keys :: key in entries
    requires HasEntries(record, keys, entries)
    ensures HasEntries(Put(record, Encode(last), Serialized(entries[last])), keys + [last], entries)
  {
    OnlyProtoEncodesToProto(last);
    forall key | key in keys
      ensures Encode(key) != Encode(last)
    {
      if Encode(key) == Encode(last) {
        EncodeInjective(key, last);
      }
    }
  }

  lemma PutKeepsOnlyEntries(record: Record, keys: seq<string>, last: string, value: RecordValue)
    requires HasOnlyEntries(record, keys)
    ensures HasOnlyEntries(Put(record, Encode(last), value), keys + [last])
  {
    OnlyProtoEncodesToProto(last);
    EncodeNames(last, keys + [last]);
    forall text | text in record
      ensures Names(text, keys + [last])
    {
      assert Names(text, keys);
    }
  }

  lemma {:induction false} RecordOfKeysEntries(keys: seq<string>, entries: map<string, Entry>)
    requires Distinct(keys) && forall key <- keys :: key in entries
    ensures HasEntries(ObjectOfKeys(keys, entries).own, keys, entries)
    ensures HasOnlyEntries(ObjectOfKeys(keys, entries).own, keys)
  {
    if keys != [] {
      var before, last := keys[..|keys| - 1], keys[|keys| - 1];
      DistinctLast(keys);
      RecordOfKeysEntries(before, entries);
      PutKeeps(ObjectOfKeys(before, entries).own, before, last, entries);
    }
  }

  lemma PutKeeps(record: Record, keys: seq<string>, last: string, entries: map<string, Entry>)
    requires last !in keys && last in entries && forall key <- keys :: key in entries
    requires HasEntries(record, keys, entries) && HasOnlyEntries(record, keys)
    ensures forall key <- keys + [last] :: key in entries
    ensures var more := Put(record, Encode(last), Serialized(entries[last]));
            HasEntries(more, keys + [last], entries) && HasOnlyEntries(more, keys + [last])
  {
    PutKeepsEntries(record, keys, last, entries);
    PutKeepsOnlyEntries(record, keys, last, Serialized(entries[last]));
  }

  /** The array that an exploded `__proto__` leaves behind as the prototype. */
  function ProtoTexts(keys: seq<string>, entries: map<string, Entry>): seq<string>
    requires forall key <- keys :: key in entries
  {
    if PROTO in keys && entries[PROTO].options.explode then EncodeAll(entries[PROTO].values) else []
  }

  lemma ProtoTextsSnoc(keys: seq<string>, last: string, entries: map<string, Entry>)
    requires last !in keys && last in entries && forall key <- keys :: key in entries
    ensures ProtoTexts(keys + [last], entries)
         == if last != PROTO then ProtoTexts(keys, entries)
            else if entries[last].options.explode then EncodeAll(entries[last].values) else []
    ensures last == PROTO ==> ProtoTexts(keys, entries) == []
  {
    assert forall key :: key in keys + [last] <==> key in keys || key == last;
  }

  lemma DistinctLast(keys: seq<string>)
    requires Distinct(keys) && keys != []
    ensures Distinct(keys[..|keys| - 1]) && keys[|keys| - 1] !in keys[..|keys| - 1]
    ensures keys == keys[..|keys| - 1] + [keys[|keys| - 1]]
  {
  }

  lemma {:induction false} InheritedTexts(keys: seq<string>, entries: map<string, Entry>)
    requires Distinct(keys) && forall key <- keys :: key in entries
    ensures ObjectOfKeys(keys, entries).inherited == ProtoTexts(keys, entries)
  {
    if keys != [] {
      var before, last := keys[..|keys| - 1], keys[|keys| - 1];
      DistinctLast(keys);
      InheritedTexts(before, entries);
      OnlyProtoEncodesToProto(last);
      ProtoTextsSnoc(before, last, entries);
    }
  }

  /** The record's keys are the encodings of the parameters' keys, without `__proto__`. */
  lemma RecordKeys(p: Params, text: string)
    requires Consistent(p)
    ensures text in RecordOf(p) <==> Names(text, p.order)
    ensures text in RecordOf(p) ==> RecordOf(p)[text] == Serialized(p.entries[Decode(text).value])
  {
    RecordOfKeysEntries(p.order, p.entries);
    if Names(text, p.order) {
      var key := Decode(text).value;
      assert Encode(key) in RecordOf(p);
    }
  }

  /**
   The record has exactly one entry for every parameter but `__proto__`: distinct keys never
   collide, and each encoded key holds its own parameter's encoded values.
   */
  lemma RecordEntries(p: Params)
    requires Consistent(p)
    ensures forall key <- p.entries ::
              key != PROTO ==>
                Encode(key) in RecordOf(p) && RecordOf(p)[Encode(key)] == Serialized(p.entries[key])
    ensures |RecordOf(p)| == |p.entries| - if PROTO in p.entries then 1 else 0
  {
    RecordOfKeysEntries(p.order, p.entries);
    RecordSize(p);
  }

  lemma RecordSize(p: Params)
    requires Consistent(p)
    ensures |RecordOf(p)| == |p.entries| - if PROTO in p.entries then 1 else 0
  {
    var keys, texts := p.entries.Keys - {PROTO}, RecordOf(p).Keys;
    forall a, b | a in keys && b in keys && Encode(a) == Encode(b)
      ensures a == b
    {
      EncodeInjective(a, b);
    }
    var image := set key | key in keys :: Encode(key);
    forall text
      ensures text in texts <==> text in image
    {
      RecordKeys(p, text);
      if text in image {
        var key :| key in keys && Encode(key) == text;
        EncodeNames(key, p.order);
      }
    }
    ImageSize(keys, Encode, texts);
  }

  /** There is an entry for every parameter exactly when none is called `__proto__`. */
  lemma OneEntryPerParameterIff(p: Params)
    requires Consistent(p)
    ensures |RecordOf(p)| == |p.entries| <==> "__proto__" !in p.entries
  {
    RecordEntries(p);
  }

  /** What an exploded parameter keeps in the record decodes to exactly its values. */
  lemma ExplodedReadsBack(p: Params, key: string)
    requires Consistent(p) && key in p.entries && key != PROTO && p.entries[key].options.explode
    ensures Encode(key) in RecordOf(p)
    ensures RecordOf(p)[Encode(key)].Many?
    ensures DecodeAll(RecordOf(p)[Encode(key)].texts) == Some(p.entries[key].values)
  {
    RecordEntries(p);
    DecodeEncodeAll(p.entries[key].values);
  }

  // ----- what the documentation says of the record

  /** The value itself when there is one, and a list of the values when there are more. */
  function Documented(values: seq<string>): RecordValue
    requires values != []
  {
    if |values| == 1 then One(Encode(values[0])) else Many(EncodeAll(values))
  }

  /** A parameter is kept as documented exactly when it is exploded for several values only. */
  lemma RecordAsDocumentedIff(entry: Entry)
    requires entry.values != []
    ensures Serialized(entry) == Documented(entry.values)
       <==> (entry.options.explode <==> |entry.values| > 1)
  {
    if |entry.values| == 1 {
      assert EncodeAll(entry.values) == [Encode(entry.values[0])];
    }
  }

  /** One exploded value is kept as a list, and several joined values as one text. */
  lemma RecordNotAsDocumented(value: string, other: string, delimiter: Delimiter)
    ensures Serialized(Entry([value], FullOptions(true, delimiter))) == Many([Encode(value)])
    ensures Documented([value]) == One(Encode(value))
    ensures Serialized(Entry([value, other], FullOptions(false, delimiter)))
         == One(Encode(value) + [delimiter.Char()] + Encode(other))
    ensures Documented([value, other]) == Many([Encode(value), Encode(other)])
  {
    assert EncodeAll([value]) == [Encode(value)];
    var texts := [Encode(value), Encode(other)];
    assert EncodeAll([value, other]) == texts;
    assert texts[1..] == [Encode(other)];
    assert Join(texts, [delimiter.Char()]) == Encode(value) + [delimiter.Char()] + Join(texts[1..], [delimiter.Char()]);
  }

  /** The character that joins the values of a parameter that is not exploded. */
  lemma JoinedText(values: seq<string>)
    ensures Serialized(Entry(values, FullOptions(false, Comma))) == One(Join(EncodeAll(values), ","))
    ensures Serialized(Entry(values, FullOptions(false, Space))) == One(Join(EncodeAll(values), " "))
    ensures Serialized(Entry(values, FullOptions(false, Pipe))) == One(Join(EncodeAll(values), "|"))
    ensures Serialized(Entry(values, FullOptions(false, Tab))) == One(Join(EncodeAll(values), "\t"))
  {
  }

  // ----- what an enumeration sees

  /** `for … in`: the own keys, and the indices of an inherited array that they do not shadow. */
  function Visible(own: Record, inherited: seq<string>): Record {
    if inherited == [] then own
    else
      var n := |inherited| - 1;
      var before := Visible(own, inherited[..n]);
      if Decimal(n) in own then before else before[Decimal(n) := One(inherited[n])]
  }

  /** A visible key that is not the object's own. */
  predicate IsIndex(text: string, value: RecordValue, inherited: seq<string>) {
    exists i :: 0 <= i < |inherited| && text == Decimal(i) && value == One(inherited[i])
  }

  lemma {:induction false} VisibleKeys(own: Record, inherited: seq<string>)
    ensures forall text <- own :: text in Visible(own, inherited) && Visible(own, inherited)[text] == own[text]
    ensures forall text <- Visible(own, inherited) ::
              text in own || IsIndex(text, Visible(own, inherited)[text], inherited)
    ensures forall i :: 0 <= i < |inherited| ==> Decimal(i) in Visible(own, inherited)
  {
    if inherited != [] {
      var n := |inherited| - 1;
      var visible, before := Visible(own, inherited), Visible(own, inherited[..n]);
      VisibleKeys(own, inherited[..n]);
      forall text | text in visible && text !in own
        ensures IsIndex(text, visible[text], inherited)
      {
        if text in before && visible[text] == before[text] {
          IndexStays(text, before[text], inherited);
        }
      }
    }
  }

  lemma IndexStays(text: string, value: RecordValue, inherited: seq<string>)
    requires inherited != [] && IsIndex(text, value, inherited[..|inherited| - 1])
    ensures IsIndex(text, value, inherited)
  {
    var i :| 0 <= i < |inherited| - 1 && text == Decimal(i) && value == One(inherited[..|inherited| - 1][i]);
    assert value == One(inherited[i]);
  }

  lemma DecimalEncodesItself(i: nat)
    ensures Encode(Decimal(i)) == Decimal(i)
  {
    DecimalReadsBack(i);
    EncodesItselfIff(Decimal(i));
  }

  /** An index is the object's own key exactly when a parameter is called so. */
  lemma OwnIndexIff(p: Params, i: nat)
    requires Consistent(p)
    ensures Decimal(i) in RecordOf(p) <==> Decimal(i) in p.entries
  {
    DecimalEncodesItself(i);
    DecodeEncode(Decimal(i));
    DecimalReadsBack(i);
    RecordKeys(p, Decimal(i));
  }

  // ----- the query string

  /** A list in a template string is joined with commas. */
  function Interpolated(value: RecordValue): string {
    match value
    case One(text) => text
    case Many(texts) => Join(texts, ",")
  }

  function Pair(record: Record, key: string): string
    requires key in record
  {
    key + "=" + Interpolated(record[key])
  }

  function Pairs(record: Record, order: seq<string>): seq<string>
    requires forall key <- order :: key in record
  {
    if order == [] then []
    else Pairs(record, order[..|order| - 1]) + [Pair(record, order[|order| - 1])]
  }

  /** The text for one order in which the keys of the record may be enumerated. */
  function Render(record: Record, order: seq<string>): string
    requires forall key <- order :: key in record
  {
    Join(Pairs(record, order), "&")
  }

  ghost predicate Enumerates(order: seq<string>, record: Record) {
    Distinct(order) && forall key :: key in order <==> key in record
  }

  // ----- reading it back

  function RecoverPair(pair: string, delimiters: map<string, Delimiter>): Option<(string, seq<string>)> {
    var sides := Split(pair, '=');
    var key := Decode(sides[0]);
    if key.None? || key.value !in delimiters then None
    else
      var values := DecodeAll(Split(Join(sides[1..], "="), delimiters[key.value].Char()));
      if values.None? then None else Some((key.value, values.value))
  }

  function RecoverPairs(pairs: seq<string>, delimiters: map<string, Delimiter>)
    : Option<map<string, seq<string>>>
  {
    if pairs == [] then Some(map[])
    else
      var before := RecoverPairs(pairs[..|pairs| - 1], delimiters);
      var last := RecoverPair(pairs[|pairs| - 1], delimiters);
      if before.None? || last.None? then None else Some(before.value[last.value.0 := last.value.1])
  }

  /** Split on `&`, then on `=`, then on the key's delimiter, and decode. */
  function Recover(text: string, delimiters: map<string, Delimiter>): Option<map<string, seq<string>>> {
    if text == "" then Some(map[]) else RecoverPairs(Split(text, '&'), delimiters)
  }

  /** What stands between the values of a parameter in the query string. */
  function Between(options: FullOptions): Delimiter {
    if options.explode then Comma else options.delimiter
  }

  function Delimiters(p: Params): map<string, Delimiter> {
    map key | key in p.entries :: Between(p.entries[key].options)
  }

  function ValuesOf(p: Params): map<string, seq<string>> {
    map key | key in p.entries :: p.entries[key].values
  }

  /** An empty list is written like a list of one empty value. */
  function AsRead(values: seq<string>): seq<string> {
    if values == [] then [""] else values
  }

  lemma SerializedText(entry: Entry)
    ensures Interpolated(Serialized(entry))
         == Join(EncodeAll(entry.values), [Between(entry.options).Char()])
  {
  }

  lemma SerializedWithout(entry: Entry, c: char)
    requires c == '&' || c == '='
    ensures Without(Interpolated(Serialized(entry)), c)
  {
    var encoded := EncodeAll(entry.values);
    forall i | 0 <= i < |encoded|
      ensures Without(encoded[i], c)
    {
      EncodeHidesSeparators(entry.values[i], c);
    }
    JoinWithout(encoded, [Between(entry.options).Char()], c);
    SerializedText(entry);
  }

  lemma ValuesReadBack(values: seq<string>, delimiter: Delimiter)
    ensures DecodeAll(Split(Join(EncodeAll(values), [delimiter.Char()]), delimiter.Char()))
         == Some(AsRead(values))
  {
    var encoded := EncodeAll(values);
    if values == [] {
      assert [""][1..] == [] && [""] + [] == [""];
      assert DecodeAll([""]) == Some([""]);
    } else {
      forall i | 0 <= i < |encoded|
        ensures Without(encoded[i], delimiter.Char())
      {
        EncodeHidesSeparators(values[i], delimiter.Char());
      }
      SplitJoin(encoded, delimiter.Char());
      DecodeEncodeAll(values);
    }
  }

  lemma PairReadsBack(key: string, entry: Entry, delimiters: map<string, Delimiter>)
    requires key in delimiters && delimiters[key] == Between(entry.options)
    ensures RecoverPair(Encode(key) + "=" + Interpolated(Serialized(entry)), delimiters)
         == Some((key, AsRead(entry.values)))
  {
    var text := Interpolated(Serialized(entry));
    EncodeHidesSeparators(key, '=');
    SerializedWithout(entry, '=');
    SplitWithout(Encode(key), '=');
    SplitWithout(text, '=');
    SplitAt(Encode(key), '=', text);
    assert Encode(key) + "=" + text == Encode(key) + ['='] + text;
    var sides := Split(Encode(key) + "=" + text, '=');
    assert sides == [Encode(key), text];
    assert sides[1..] == [text] && Join([text], "=") == text;
    DecodeEncode(key);
    SerializedText(entry);
    ValuesReadBack(entry.values, Between(entry.options));
  }

  /** The record with its keys decoded, as far as the enumeration has come. */
  function ReadIn(p: Params, order: seq<string>): map<string, seq<string>> {
    map key | key in p.entries && Encode(key) in order :: AsRead(p.entries[key].values)
  }

  lemma ReadInStep(p: Params, before: seq<string>, key: string)
    requires key in p.entries
    ensures ReadIn(p, before + [Encode(key)]) == ReadIn(p, before)[key := AsRead(p.entries[key].values)]
  {
    forall other | other in p.entries && Encode(other) == Encode(key)
      ensures other == key
    {
      EncodeInjective(other, key);
    }
  }

  lemma RecordPairReadsBack(p: Params, text: string)
    requires Consistent(p) && text in RecordOf(p)
    ensures Names(text, p.order)
    ensures RecoverPair(Pair(RecordOf(p), text), Delimiters(p))
         == Some((Decode(text).value, AsRead(p.entries[Decode(text).value].values)))
  {
    RecordKeys(p, text);
    var key := Decode(text).value;
    PairReadsBack(key, p.entries[key], Delimiters(p));
  }

  lemma {:induction false} PairsReadBack(p: Params, record: Record, order: seq<string>)
    requires Consistent(p) && record == RecordOf(p) && forall text <- order :: text in record
    ensures RecoverPairs(Pairs(record, order), Delimiters(p)) == Some(ReadIn(p, order))
  {
    if order == [] {
      assert ReadIn(p, order) == map[];
    } else {
      assert order == order[..|order| - 1] + [order[|order| - 1]];
      var before, last := order[..|order| - 1], order[|order| - 1];
      PairsReadBack(p, record, before);
      PairReadIn(p, record, before, last);
      RecoverSnoc(Pairs(record, before), Pair(record, last), Delimiters(p));
    }
  }

  lemma PairReadIn(p: Params, record: Record, before: seq<string>, last: string)
    requires Consistent(p) && record == RecordOf(p) && last in record
    ensures var read := RecoverPair(Pair(record, last), Delimiters(p));
            read.Some? && ReadIn(p, before)[read.value.0 := read.value.1] == ReadIn(p, before + [last])
  {
    RecordPairReadsBack(p, last);
    ReadInStep(p, before, Decode(last).value);
  }

  lemma RecoverSnoc(pairs: seq<string>, pair: string, delimiters: map<string, Delimiter>)
    requires RecoverPairs(pairs, delimiters).Some? && RecoverPair(pair, delimiters).Some?
    ensures var last := RecoverPair(pair, delimiters).value;
            RecoverPairs(pairs + [pair], delimiters)
            == Some(RecoverPairs(pairs, delimiters).value[last.0 := last.1])
  {
    assert (pairs + [pair])[..|pairs|] == pairs;
  }

  /** No key and no value has a `&` in it. */
  predicate IsTidy(record: Record) {
    forall text <- record :: Without(text, '&') && Without(Interpolated(record[text]), '&')
  }

  lemma {:induction false} PairsShape(record: Record, order: seq<string>)
    requires IsTidy(record) && forall text <- order :: text in record
    ensures |Pairs(record, order)| == |order|
    ensures forall i :: 0 <= i < |order| ==> Pairs(record, order)[i] == Pair(record, order[i])
    ensures forall i :: 0 <= i < |order| ==> Without(Pairs(record, order)[i], '&')
  {
    if order != [] {
      PairsShape(record, order[..|order| - 1]);
    }
  }

  /** The rendered text splits into the pairs it was joined from. */
  lemma RenderSplits(record: Record, order: seq<string>, delimiters: map<string, Delimiter>)
    requires IsTidy(record) && forall text <- order :: text in record
    ensures Recover(Render(record, order), delimiters) == RecoverPairs(Pairs(record, order), delimiters)
  {
    var pairs := Pairs(record, order);
    PairsShape(record, order);
    if order != [] {
      SplitJoin(pairs, '&');
      assert |Join(pairs, "&")| >= |pairs[0]| > 0;
    }
  }

  lemma VisibleIsTidy(p: Params)
    requires Consistent(p)
    ensures IsTidy(VisibleOf(p))
  {
    var o, visible := ObjectOf(p), VisibleOf(p);
    VisibleKeys(o.own, o.inherited);
    InheritedTexts(p.order, p.entries);
    forall text | text in visible
      ensures Without(text, '&') && Without(Interpolated(visible[text]), '&')
    {
      if text in o.own {
        RecordKeys(p, text);
        var key := Decode(text).value;
        EncodeHidesSeparators(key, '&');
        SerializedWithout(p.entries[key], '&');
      } else {
        var i :| 0 <= i < |o.inherited| && text == Decimal(i) && visible[text] == One(o.inherited[i]);
        DecimalReadsBack(i);
        EncodeHidesSeparators(p.entries[PROTO].values[i], '&');
      }
    }
  }

  /** What `for … in` sees of the record. */
  function VisibleOf(p: Params): Record
    requires Consistent(p)
  {
    Visible(ObjectOf(p).own, ObjectOf(p).inherited)
  }

  /** An exploded `__proto__` shows an index that is no parameter. */
  ghost predicate ShowsIndex(p: Params) {
    && PROTO in p.entries && p.entries[PROTO].options.explode
    && exists i :: 0 <= i < |p.entries[PROTO].values| && Decimal(i) !in p.entries
  }

  lemma {:induction false} RecoverFails(pairs: seq<string>, i: nat, delimiters: map<string, Delimiter>)
    requires i < |pairs| && RecoverPair(pairs[i], delimiters).None?
    ensures RecoverPairs(pairs, delimiters).None?
  {
    if i < |pairs| - 1 {
      RecoverFails(pairs[..|pairs| - 1], i, delimiters);
    }
  }

  lemma IndexPairFails(i: nat, text: string, delimiters: map<string, Delimiter>)
    requires Decimal(i) !in delimiters
    ensures RecoverPair(Decimal(i) + "=" + text, delimiters).None?
  {
    DecimalReadsBack(i);
    DecimalEncodesItself(i);
    DecodeEncode(Decimal(i));
    SplitWithout(Decimal(i), '=');
    SplitAt(Decimal(i), '=', text);
    assert Decimal(i) + "=" + text == Decimal(i) + ['='] + text;
  }

  lemma ShownIndexFails(p: Params, order: seq<string>)
    requires Consistent(p) && Enumerates(order, VisibleOf(p)) && ShowsIndex(p)
    ensures RecoverPairs(Pairs(VisibleOf(p), order), Delimiters(p)).None?
  {
    var o, visible := ObjectOf(p), VisibleOf(p);
    var i :| 0 <= i < |p.entries[PROTO].values| && Decimal(i) !in p.entries;
    VisibleKeys(o.own, o.inherited);
    InheritedTexts(p.order, p.entries);
    OwnIndexIff(p, i);
    assert Decimal(i) in order;
    var k :| 0 <= k < |order| && order[k] == Decimal(i);
    VisibleIsTidy(p);
    PairsShape(visible, order);
    IndexPairFails(i, Interpolated(visible[Decimal(i)]), Delimiters(p));
    RecoverFails(Pairs(visible, order), k, Delimiters(p));
  }

  /** Unless an index shows, an enumeration sees just the object's own keys. */
  lemma VisibleIsOwn(p: Params)
    requires Consistent(p) && !ShowsIndex(p)
    ensures VisibleOf(p) == RecordOf(p)
  {
    var o := ObjectOf(p);
    VisibleKeys(o.own, o.inherited);
    InheritedTexts(p.order, p.entries);
    forall text | text in VisibleOf(p)
      ensures text in o.own
    {
      if text !in o.own {
        var i :| 0 <= i < |o.inherited| && text == Decimal(i)
                 && VisibleOf(p)[text] == One(o.inherited[i]);
        OwnIndexIff(p, i);
      }
    }
  }

  /** What is read back from the query string, for any parameters. */
  function Readable(p: Params): map<string, seq<string>> {
    map key | key in p.entries && key != PROTO :: AsRead(p.entries[key].values)
  }

  lemma EnumeratedKey(p: Params, order: seq<string>, key: string)
    requires Consistent(p) && Enumerates(order, RecordOf(p)) && key in p.entries
    ensures Encode(key) in order <==> key != PROTO
  {
    RecordKeys(p, Encode(key));
    EncodeNames(key, p.order);
  }

  lemma EnumeratedIsReadable(p: Params, order: seq<string>)
    requires forall key <- p.entries :: Encode(key) in order <==> key != PROTO
    ensures ReadIn(p, order) == Readable(p)
  {
  }

  lemma OwnReadsBack(p: Params, order: seq<string>)
    requires Consistent(p) && Enumerates(order, RecordOf(p))
    ensures RecoverPairs(Pairs(RecordOf(p), order), Delimiters(p)) == Some(Readable(p))
  {
    PairsReadBack(p, RecordOf(p), order);
    forall key | key in p.entries
      ensures Encode(key) in order <==> key != PROTO
    {
      EnumeratedKey(p, order, key);
    }
    EnumeratedIsReadable(p, order);
  }

  /**
   What the query string of any parameters reads back as, whatever order the keys are enumerated
   in: every parameter but `__proto__`, an empty list as one empty value; or nothing, when an
   exploded `__proto__` shows an index that is no parameter.
   */
  lemma QueryReadsBack(p: Params, order: seq<string>)
    requires Consistent(p) && Enumerates(order, VisibleOf(p))
    ensures Recover(Render(VisibleOf(p), order), Delimiters(p))
         == if ShowsIndex(p) then None else Some(Readable(p))
  {
    VisibleIsTidy(p);
    RenderSplits(VisibleOf(p), order, Delimiters(p));
    if ShowsIndex(p) {
      ShownIndexFails(p, order);
    } else {
      VisibleIsOwn(p);
      OwnReadsBack(p, order);
    }
  }

  /**
   The query string, whatever order the keys are enumerated in, gives back every key with all
   its values exactly when no parameter has an empty list and none is called `__proto__`.
   */
  lemma QueryRoundTripIff(p: Params, order: seq<string>)
    requires Consistent(p) && Enumerates(order, VisibleOf(p))
    ensures Recover(Render(VisibleOf(p), order), Delimiters(p)) == Some(ValuesOf(p))
       <==> PROTO !in p.entries && forall key <- p.entries :: p.entries[key].values != []
  {
    QueryReadsBack(p, order);
    if PROTO in p.entries {
      assert PROTO in ValuesOf(p) && PROTO !in Readable(p);
    } else if key :| key in p.entries && p.entries[key].values == [] {
      assert Readable(p)[key] != ValuesOf(p)[key];
    } else {
      assert Readable(p) == ValuesOf(p);
    }
  }

  // ----- what the documentation says of exploded parameters

  /** One `key=value` for each value. */
  function Repeated(key: string, values: seq<string>): seq<string> {
    if values == [] then [] else [Encode(key) + "=" + Encode(values[0])] + Repeated(key, values[1..])
  }

  /**
   The query string writes an exploded parameter as the promised repeated pairs exactly when it
   has a single value; otherwise it writes one pair with the values joined by commas.
   */
  lemma ExplodedAsRepeatedPairsIff(key: string, entry: Entry)
    requires entry.options.explode
    ensures Encode(key) + "=" + Interpolated(Serialized(entry)) == Join(Repeated(key, entry.values), "&")
       <==> |entry.values| == 1
  {
    var pair := Encode(key) + "=" + Interpolated(Serialized(entry));
    var repeated := Repeated(key, entry.values);
    if |entry.values| > 1 {
      assert repeated[1..] == Repeated(key, entry.values[1..]);
      JoinContains(repeated, '&');
      EncodeHidesSeparators(key, '&');
      SerializedWithout(entry, '&');
      assert Without(pair, '&');
    } else if |entry.values| == 1 {
      assert entry.values[1..] == [];
      assert EncodeAll(entry.values) == [Encode(entry.values[0])];
    }
  }
}
