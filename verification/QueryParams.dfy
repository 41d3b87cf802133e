/** The mutable parameter collection behind every generated request. */
module QueryParams {
  import opened Options
  import opened Text
  import opened PercentCodec
  import opened QueryModel
  import opened QueryString

  /** A JavaScript array of strings: an object that others may hold and extend. */
  class JsArray {
    var items: seq<string>
    /** The parameter the array was made for, when it was made for one. */
    ghost const owner: Option<string>

    constructor (items: seq<string>, ghost owner: Option<string> := None)
      ensures this.items == items && this.owner == owner
    {
      this.items := items;
      this.owner := owner;
    }

    method Push(value: string)
      modifies this
      ensures items == old(items) + [value]
    {
      items := items + [value];
    }
  }

  class ParamEntry {
    const values: JsArray
    var options: FullOptions
    ghost const owner: string

    constructor (values: JsArray, options: FullOptions, ghost owner: string)
      ensures this.values == values && this.options == options && this.owner == owner
    {
      this.values := values;
      this.options := options;
      this.owner := owner;
    }

    ghost function Abs(): Entry
      reads this, values
    {
      Entry(values.items, options)
    }

    method Extend(defaults: FullOptions, value: string, options: Option<ParamOptions>)
      modifies this, values
      ensures Abs() == ExtendEntry(old(Abs()), defaults, value, options)
    {
      if options.Some? {
        this.options := Resolve(Some(Spread(this.options, options.value)), defaults);
      }
      values.Push(value);
    }
  }

  /** The `values` argument of `set`: one string, or an array that belongs to the caller. */
  datatype Values = OneValue(value: string) | ManyValues(array_: JsArray)

  ghost function ItemsOf(values: Values): seq<string>
    reads match values case OneValue(_) => {} case ManyValues(a) => {a}
  {
    match values
    case OneValue(value) => [value]
    case ManyValues(a) => a.items
  }

  class OpenApiHttpParams {
    const defaults: FullOptions
    var order: seq<string>
    var entries: map<string, ParamEntry>
    /** The parameters as a value. */
    ghost var Contents: Params
    ghost var Repr: set<object>
    /** The entries and their arrays. */
    ghost var Owned: set<object>

    /** Each key's entry and array are owned, and tell the key they are stored under. */
    static ghost predicate Placed(entries: map<string, ParamEntry>, owned: set<object>) {
      forall key <- entries ::
        && entries[key] in owned && entries[key].owner == key
        && entries[key].values in owned && entries[key].values.owner == Some(key)
    }

    /** The entries hold what the contents say. */
    static ghost predicate Hold(entries: map<string, ParamEntry>, contents: map<string, Entry>, owned: set<object>)
      requires Placed(entries, owned)
      reads owned
    {
      contents.Keys == entries.Keys && forall key <- entries :: contents[key] == entries[key].Abs()
    }

    /** Another entry under a key leaves those under the other keys as they are. */
    static lemma HoldAfter(entries: map<string, ParamEntry>, contents: map<string, Entry>,
                           owned: set<object>, key: string, entry: ParamEntry)
      requires Placed(entries, owned) && Hold(entries, contents, owned)
      requires entry.owner == key && entry.values.owner == Some(key)
      ensures Placed(entries[key := entry], owned + {entry, entry.values})
      ensures Hold(entries[key := entry], contents[key := entry.Abs()], owned + {entry, entry.values})
    {
    }

    /** The entries under the other keys hold what the contents say. */
    static ghost predicate HoldBut(entries: map<string, ParamEntry>, contents: map<string, Entry>,
                                   owned: set<object>, key: string)
      requires Placed(entries, owned) && key in entries
      reads owned - {entries[key], entries[key].values}
    {
      contents.Keys == entries.Keys
      && forall other <- entries :: other != key ==> contents[other] == entries[other].Abs()
    }

    static lemma HoldInPlace(entries: map<string, ParamEntry>, contents: map<string, Entry>,
                             owned: set<object>, key: string)
      requires Placed(entries, owned) && key in entries && HoldBut(entries, contents, owned, key)
      ensures Hold(entries, contents[key := entries[key].Abs()], owned)
    {
    }

    ghost predicate Valid()
      reads this, Repr
      ensures Valid() ==> this in Repr && Consistent(Contents)
    {
      && this !in Owned && Repr == {this} + Owned
      && Consistent(Contents) && Contents.order == order
      // no two parameters share an entry or an array
      && Placed(entries, Owned) && Hold(entries, Contents.entries, Owned)
    }

    /** Without other defaults parameters are exploded, and otherwise joined with commas. */
    constructor (options: Option<ParamOptions>)
      ensures Valid() && fresh(Repr) && Contents == NoParams
      ensures defaults == Resolve(options, FullOptions(true, Comma))
    {
      defaults := Resolve(options, FullOptions(true, Comma));
      order, entries := [], map[];
      Contents, Repr, Owned := NoParams, {this}, {};
    }

    /** The map's own `set`: a key that is there already keeps its place. */
    method Store(key: string, entry: ParamEntry)
      requires Valid() && entry !in Repr && entry.values !in Repr
      requires entry.owner == key && entry.values.owner == Some(key)
      modifies this
      ensures Valid() && Repr == old(Repr) + {entry, entry.values}
      ensures Contents == QueryModel.Store(old(Contents), key, entry.Abs())
      ensures key in entries && entries[key] == entry
    {
      StoreConsistent(Contents, key, entry.Abs());
      ghost var es, cs, owned := entries, Contents.entries, Owned;
      if key !in entries {
        order := order + [key];
      }
      entries := entries[key := entry];
      Contents, Owned := QueryModel.Store(Contents, key, entry.Abs()), owned + {entry, entry.values};
      Repr := {this} + Owned;
      HoldAfter(es, cs, owned, key, entry);
    }

    /**
     Replaces a parameter. The values are a private copy: the stored array is a new one, so
     later calls do not reach the caller's.
     */
    method SetParam(key: string, values: Values, options: Option<ParamOptions>)
      requires Valid()
      modifies this
      ensures Valid() && fresh(Repr - old(Repr))
      ensures Contents == QueryModel.SetParam(old(Contents), defaults, key, old(ItemsOf(values)), options)
      ensures key in entries && fresh(entries[key].values)
    {
      var items: seq<string>;
      match values {
        case OneValue(value) => items := [value];
        case ManyValues(a) => items := a.items;
      }
      var copy := new JsArray(items, Some(key));
      var entry := new ParamEntry(copy, Resolve(options, defaults), key);
      Store(key, entry);
    }

    /** Extends an entry in place: its options first, then its values. */
    method Extend(key: string, value: string, options: Option<ParamOptions>)
      requires Valid() && key in entries
      modifies entries[key], entries[key].values, `Contents
      ensures Valid() && Repr == old(Repr)
      ensures Contents == QueryModel.AppendParam(old(Contents), defaults, key, value, options)
    {
      var entry := entries[key];
      ghost var cs := Contents.entries;
      StoreConsistent(Contents, key, ExtendEntry(cs[key], defaults, value, options));
      assert HoldBut(entries, cs, Owned, key);
      entry.Extend(defaults, value, options);
      HoldInPlace(entries, cs, Owned, key);
      Contents := QueryModel.Store(Contents, key, entry.Abs());
    }

    /** Adds one value to a parameter, in place when it is there already. */
    method AppendParam(key: string, value: string, options: Option<ParamOptions>)
      requires Valid()
      modifies Repr
      ensures Valid() && fresh(Repr - old(Repr))
      ensures Contents == QueryModel.AppendParam(old(Contents), defaults, key, value, options)
      ensures key in old(entries) ==> entries == old(entries)
    {
      if key in entries {
        Extend(key, value, options);
      } else {
        var single := new JsArray([value]);
        SetParam(key, ManyValues(single), options);
      }
    }

    method Serialize(key: string) returns (value: RecordValue)
      requires Valid() && key in entries
      ensures value == Serialized(Contents.entries[key])
    {
      var entry := entries[key];
      var encoded := EncodeAll(entry.values.items);
      if entry.options.explode {
        value := Many(encoded);
      } else {
        value := One(Join(encoded, [entry.options.delimiter.Char()]));
      }
    }

    /** The record, with the array it inherits from when a parameter is called `__proto__`. */
    method ToRecord() returns (record: PlainObject)
      requires Valid()
      ensures record == ObjectOf(Contents)
    {
      record := PlainObject(map[], []);
      for i := 0 to |order|
        invariant record == ObjectUpTo(Contents, i)
      {
        record := PutNext(record, i);
      }
      ObjectUpToAll(Contents);
    }

    /** One parameter of the loop. */
    method PutNext(record: PlainObject, i: nat) returns (more: PlainObject)
      requires Valid() && i < |order| && record == ObjectUpTo(Contents, i)
      ensures more == ObjectUpTo(Contents, i + 1)
    {
      var value := Serialize(order[i]);
      ObjectUpToNext(Contents, i);
      more := Assign(record, Encode(order[i]), value);
    }

    /**
     The query string, for whatever order the record's keys are enumerated in, inherited ones
     included.
     */
    method ToString() returns (text: string)
      requires Valid()
      ensures exists order :: Enumerates(order, VisibleOf(Contents)) && text == Render(VisibleOf(Contents), order)
      ensures Recover(text, Delimiters(Contents))
           == if ShowsIndex(Contents) then None else Some(Readable(Contents))
    {
      var object_ := ToRecord();
      var record := Visible(object_.own, object_.inherited);
      var parts: seq<string> := [];
      var remaining := record.Keys;
      ghost var order: seq<string> := [];
      while remaining != {}
        invariant remaining <= record.Keys
        invariant Distinct(order) && forall key :: key in order <==> key in record.Keys - remaining
        invariant parts == Pairs(record, order)
        decreases remaining
      {
        var key :| key in remaining;
        parts := parts + [key + "=" + Interpolated(record[key])];
        assert (order + [key])[..|order|] == order;
        DistinctSnoc(order, key);
        order := order + [key];
        remaining := remaining - {key};
      }
      text := Join(parts, "&");
      QueryReadsBack(Contents, order);
    }
  }
}
