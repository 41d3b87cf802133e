/** How a value of any shape becomes calls on the parameter collection. */
module BaseService {
  import opened Options
  import opened JsValue
  import opened QueryModel
  import opened QueryString
  import opened QueryParams
  import PercentCodec
  import Text

  datatype Style = Json | Form | DeepObject | SpaceDelimited | PipeDelimited

  /** The calls that are made, and the error that ends them, if one does. */
  datatype Plan = Plan(ops: seq<Op>, error: Option<Error>)

  const Nothing := Plan([], None)

  function Then(a: Plan, b: Plan): Plan {
    if a.error.Some? then a else Plan(a.ops + b.ops, b.error)
  }

  function DelimiterOf(style: Style): Delimiter {
    match style
    case SpaceDelimited => Space
    case PipeDelimited => Pipe
    case _ => Comma
  }

  function Fixed(explode: bool, delimiter: Delimiter): Option<ParamOptions> {
    Some(ParamOptions(Field.Given(explode), Field.Given(delimiter)))
  }

  // ----- objects written as one list of keys and values

  /** The key, then the value, or the elements of an array one by one. */
  function KeyAndValue(member: Member): Result<seq<string>> {
    if member.value.Array? then
      var texts := ConvertAll(member.value.elements);
      if texts.Failure? then texts else Success([member.key] + texts.value)
    else
      var text := ConvertToString(member.value);
      if text.Failure? then Failure(text.error) else Success([member.key, text.value])
  }

  function ConvertAll(values: seq<Value>): Result<seq<string>> {
    if values == [] then Success([])
    else
      var first := ConvertToString(values[0]);
      if first.Failure? then Failure(first.error)
      else
        var rest := ConvertAll(values[1..]);
        if rest.Failure? then rest else Success([first.value] + rest.value)
  }

  function KeysAndValues(members: seq<Member>): Result<seq<string>> {
    if members == [] then Success([])
    else
      var before := KeysAndValues(members[..|members| - 1]);
      if before.Failure? then before
      else
        var last := KeyAndValue(members[|members| - 1]);
        if last.Failure? then last else Success(before.value + last.value)
  }

  function ConcatPlan(key: string, members: seq<Member>, delimiter: Delimiter): Plan {
    var list := KeysAndValues(members);
    if list.Failure? then Plan([], Some(list.error))
    else Plan([Set(key, list.value, Fixed(false, delimiter))], None)
  }

  // ----- the style-directed plan

  function AppendText(key: string, text: Result<string>): Plan {
    if text.Failure? then Plan([], Some(text.error)) else Plan([Append(key, text.value, None)], None)
  }

  function DeepPlan(key: string, members: seq<Member>): seq<Op> {
    seq(|members|, i requires 0 <= i < |members| =>
      Append(DeepName(key, members[i].key), Coerce(members[i].value), None))
  }

  /** `json` stands for `JSON.stringify`. */
  function PlanFor(key: string, value: Value, style: Style, explode: bool, json: Value -> string): Plan
    decreases value, 1
  {
    if value.Null? || value.Undefined? then Nothing
    else if style == DeepObject then
      if value.Primitive? then Plan([], Some(NotAnObject(key)))
      else Plan(DeepPlan(key, Members(value)), None)
    else if style == Json then Plan([Append(key, json(value), None)], None)
    else
      match value
      case Primitive(text) => Plan([Append(key, text, None)], None)
      case Date(_, _) => AppendText(key, ConvertToString(value))
      case Array(elements) =>
        Plan([Set(key, CoerceAll(elements), Fixed(explode, DelimiterOf(style)))], None)
      case Object(members) =>
        if style == Form && explode then PlanMembers(members, style, explode, json)
        else ConcatPlan(key, members, DelimiterOf(style))
  }

  function PlanMembers(members: seq<Member>, style: Style, explode: bool, json: Value -> string): Plan
    decreases members, 0
  {
    if members == [] then Nothing
    else
      Then(PlanFor(members[0].key, members[0].value, style, explode, json),
           PlanMembers(members[1..], style, explode, json))
  }

  // ----- exploded forms: one call for each leaf

  /** The values below an object that are not objects, under their own names, depth first. */
  function Leaves(key: string, value: Value): seq<Member>
    decreases value, 1
  {
    match value
    case Null => []
    case Undefined => []
    case Object(members) => LeavesOf(members)
    case _ => [Member(key, value)]
  }

  function LeavesOf(members: seq<Member>): seq<Member>
    decreases members, 0
  {
    if members == [] then [] else Leaves(members[0].key, members[0].value) + LeavesOf(members[1..])
  }

  /** An array sets its name, a primitive or a date is appended to it. */
  function LeafPlan(leaf: Member): Plan {
    match leaf.value
    case Array(elements) => Plan([Set(leaf.key, CoerceAll(elements), Fixed(true, Comma))], None)
    case _ => AppendText(leaf.key, ConvertToString(leaf.value))
  }

  function LeafPlans(leaves: seq<Member>): Plan {
    if leaves == [] then Nothing else Then(LeafPlan(leaves[0]), LeafPlans(leaves[1..]))
  }

  lemma {:induction false} LeafPlansAppend(a: seq<Member>, b: seq<Member>)
    ensures LeafPlans(a + b) == Then(LeafPlans(a), LeafPlans(b))
  {
    if a == [] {
      assert a + b == b;
    } else {
      assert (a + b)[1..] == a[1..] + b;
      LeafPlansAppend(a[1..], b);
      var x, y, z := LeafPlan(a[0]).ops, LeafPlans(a[1..]).ops, LeafPlans(b).ops;
      assert x + (y + z) == x + y + z;
    }
  }

  /**
   In exploded form style the whole value tree comes down to one call for each leaf, depth first,
   up to the first invalid date.
   */
  lemma {:induction false} ExplodedFormIsLeaves(key: string, value: Value, json: Value -> string)
    ensures PlanFor(key, value, Form, true, json) == LeafPlans(Leaves(key, value))
    decreases value, 1
  {
    match value {
      case Object(members) =>
        ExplodedMembersAreLeaves(members, json);
      case Null =>
      case Undefined =>
      case _ =>
        var leaf := Member(key, value);
        assert [leaf][1..] == [];
        assert LeafPlans([leaf]) == Then(LeafPlan(leaf), LeafPlans([]));
        assert Then(LeafPlan(leaf), Nothing) == LeafPlan(leaf);
    }
  }

  lemma {:induction false} ExplodedMembersAreLeaves(members: seq<Member>, json: Value -> string)
    ensures PlanMembers(members, Form, true, json) == LeafPlans(LeavesOf(members))
    decreases members, 0
  {
    if members != [] {
      ExplodedFormIsLeaves(members[0].key, members[0].value, json);
      ExplodedMembersAreLeaves(members[1..], json);
      LeafPlansAppend(Leaves(members[0].key, members[0].value), LeavesOf(members[1..]));
    }
  }

  predicate ValidDates(leaves: seq<Member>) {
    forall leaf <- leaves :: leaf.value.Date? ==> leaf.value.iso.Some?
  }

  /** What a leaf gives to its name. */
  function LeafValues(leaf: Member): seq<string> {
    if leaf.value.Array? then CoerceAll(leaf.value.elements)
    else
      var text := ConvertToString(leaf.value);
      if text.Success? then [text.value] else []
  }

  lemma {:induction false} LeavesAreLeaves(key: string, value: Value)
    ensures forall leaf <- Leaves(key, value) ::
              !leaf.value.Null? && !leaf.value.Undefined? && !leaf.value.Object?
    decreases value, 1
  {
    if value.Object? {
      LeavesOfAreLeaves(value.members);
    }
  }

  lemma {:induction false} LeavesOfAreLeaves(members: seq<Member>)
    ensures forall leaf <- LeavesOf(members) ::
              !leaf.value.Null? && !leaf.value.Undefined? && !leaf.value.Object?
    decreases members, 0
  {
    if members != [] {
      LeavesAreLeaves(members[0].key, members[0].value);
      LeavesOfAreLeaves(members[1..]);
    }
  }

  /** With valid dates there is no error, and the calls are those of the leaves, one each. */
  lemma {:induction false} LeafPlansOps(leaves: seq<Member>)
    requires ValidDates(leaves)
    requires forall leaf <- leaves :: !leaf.value.Null? && !leaf.value.Undefined?
    ensures var plan := LeafPlans(leaves);
            plan.error.None? && Matching(plan.ops, leaves)
  {
    if leaves != [] {
      LeafPlansOps(leaves[1..]);
      var rest := LeafPlans(leaves[1..]);
      assert leaves[0] in leaves;
      assert |LeafPlan(leaves[0]).ops| == 1;
      forall i | 0 <= i < |leaves|
        ensures Matches(LeafPlans(leaves).ops[i], leaves[i])
      {
        if i > 0 {
          assert LeafPlans(leaves).ops[i] == rest.ops[i - 1];
          assert leaves[i] == leaves[1..][i - 1];
        }
      }
    }
  }

  predicate Matches(op: Op, leaf: Member) {
    && op.key == leaf.key
    && Contribution(op) == LeafValues(leaf)
    && (op.Set? <==> leaf.value.Array?)
  }

  predicate Matching(ops: seq<Op>, leaves: seq<Member>) {
    |ops| == |leaves| && forall i :: 0 <= i < |leaves| ==> Matches(ops[i], leaves[i])
  }

  /** Everything the leaves of one name give to it. */
  function Named(leaves: seq<Member>, name: string): seq<string> {
    if leaves == [] then []
    else
      Named(leaves[..|leaves| - 1], name)
      + if leaves[|leaves| - 1].key == name then LeafValues(leaves[|leaves| - 1]) else []
  }

  /** No array of the name comes when there are values for the name already. */
  predicate ArraysFirst(p: Params, leaves: seq<Member>, name: string) {
    leaves == []
    || (var before, last := leaves[..|leaves| - 1], leaves[|leaves| - 1];
        && ArraysFirst(p, before, name)
        && (last.key == name && last.value.Array? ==> ValuesAt(p, name) + Named(before, name) == []))
  }

  lemma {:induction false} NamedByOps(p: Params, ops: seq<Op>, leaves: seq<Member>, name: string)
    requires Matching(ops, leaves)
    ensures GivenValues(OnKey(ops, name)) == Named(leaves, name)
    ensures Overwrites(p, ops, name) <==> !ArraysFirst(p, leaves, name)
  {
    if leaves != [] {
      var n := |leaves| - 1;
      NamedByOps(p, ops[..n], leaves[..n], name);
      GivenAfter(ops, name);
      assert Matches(ops[n], leaves[n]);
    }
  }

  /**
   Every name ends up with all it held and all its leaves give, in order, exactly when no array of
   that name comes after other values for it: names of enclosing objects are not kept, so leaves
   of different objects meet under one name, and an array replaces what it meets.
   */
  lemma ExplodedFormKeepsAllIff(p: Params, defaults: FullOptions, key: string, value: Value,
                                json: Value -> string, name: string)
    requires ValidDates(Leaves(key, value))
    ensures var after := ApplyAll(p, defaults, PlanFor(key, value, Form, true, json).ops);
            ValuesAt(after, name) == ValuesAt(p, name) + Named(Leaves(key, value), name)
            <==> ArraysFirst(p, Leaves(key, value), name)
  {
    var leaves := Leaves(key, value);
    ExplodedFormIsLeaves(key, value, json);
    LeavesAreLeaves(key, value);
    LeafPlansOps(leaves);
    NamedByOps(p, LeafPlans(leaves).ops, leaves, name);
    NothingLostIff(p, defaults, LeafPlans(leaves).ops, name);
  }

  lemma {:induction false} NamedAlone(p: Params, leaves: seq<Member>, i: nat)
    requires i < |leaves| && forall j :: 0 <= j < |leaves| && j != i ==> leaves[j].key != leaves[i].key
    requires leaves[i].key !in p.entries
    ensures Named(leaves, leaves[i].key) == LeafValues(leaves[i])
    ensures ArraysFirst(p, leaves, leaves[i].key)
  {
    var n := |leaves| - 1;
    if i == n {
      NamedNone(p, leaves[..n], leaves[i].key);
    } else {
      NamedAlone(p, leaves[..n], i);
    }
  }

  lemma {:induction false} NamedNone(p: Params, leaves: seq<Member>, name: string)
    requires forall leaf <- leaves :: leaf.key != name
    ensures Named(leaves, name) == []
    ensures ArraysFirst(p, leaves, name)
  {
    if leaves != [] {
      NamedNone(p, leaves[..|leaves| - 1], name);
    }
  }

  /** A leaf with a name of its own, not used before, arrives with exactly its values. */
  lemma DistinctLeafArrives(p: Params, defaults: FullOptions, key: string, value: Value,
                            json: Value -> string, i: nat)
    requires var leaves := Leaves(key, value);
             && ValidDates(leaves) && i < |leaves| && leaves[i].key !in p.entries
             && forall j :: 0 <= j < |leaves| && j != i ==> leaves[j].key != leaves[i].key
    ensures var leaf := Leaves(key, value)[i];
            ValuesAt(ApplyAll(p, defaults, PlanFor(key, value, Form, true, json).ops), leaf.key)
            == LeafValues(leaf)
  {
    NamedAlone(p, Leaves(key, value), i);
    ExplodedFormKeepsAllIff(p, defaults, key, value, json, Leaves(key, value)[i].key);
  }

  // ----- reading an object back from its list

  predicate IsScalar(value: Value) {
    !value.Array? && ConvertToString(value).Success?
  }

  predicate Scalars(members: seq<Member>) {
    forall member <- members :: IsScalar(member.value)
  }

  datatype TextMember = TextMember(key: string, text: string)

  function Texts(members: seq<Member>): (texts: seq<TextMember>)
    requires Scalars(members)
  {
    if members == [] then []
    else
      assert members[|members| - 1] in members;
      Texts(members[..|members| - 1])
      + [TextMember(members[|members| - 1].key, ConvertToString(members[|members| - 1].value).value)]
  }

  /** Key, value, key, value … */
  function PairUp(list: seq<string>): Option<seq<TextMember>> {
    if list == [] then Some([])
    else if |list| == 1 then None
    else
      var n := |list| - 2;
      var before := PairUp(list[..n]);
      if before.None? then None else Some(before.value + [TextMember(list[n], list[n + 1])])
  }

  lemma {:induction false} ScalarsAlternate(members: seq<Member>)
    requires Scalars(members)
    ensures KeysAndValues(members).Success?
    ensures |KeysAndValues(members).value| == 2 * |members|
    ensures PairUp(KeysAndValues(members).value) == Some(Texts(members))
  {
    if members != [] {
      var before, last := members[..|members| - 1], members[|members| - 1];
      assert last in members;
      ScalarsAlternate(before);
      var list := KeysAndValues(members).value;
      assert list == KeysAndValues(before).value + [last.key, ConvertToString(last.value).value];
      assert list[..|list| - 2] == KeysAndValues(before).value;
    }
  }

  /**
   An object of scalars, written under any delimiter, is read back member by member exactly when
   it has a member: the empty object is written like one empty value.
   */
  lemma ConcatRoundTripIff(p: Params, defaults: FullOptions, key: string, members: seq<Member>,
                           delimiter: Delimiter)
    requires Scalars(members)
    ensures var plan := ConcatPlan(key, members, delimiter);
            var after := ApplyAll(p, defaults, plan.ops);
            && plan.error.None? && key in after.entries
            && var text := Interpolated(Serialized(after.entries[key]));
               var list := PercentCodec.DecodeAll(Text.Split(text, delimiter.Char()));
               && list.Some?
               && (PairUp(list.value) == Some(Texts(members)) <==> members != [])
  {
    ScalarsAlternate(members);
    var plan := ConcatPlan(key, members, delimiter);
    assert plan.ops[..0] == [];
    var entry := ApplyAll(p, defaults, plan.ops).entries[key];
    assert entry == Entry(KeysAndValues(members).value, FullOptions(false, delimiter));
    SerializedText(entry);
    ValuesReadBack(entry.values, delimiter);
  }

  function AsPrimitives(texts: seq<string>): (values: seq<Value>)
    ensures |values| == |texts|
  {
    seq(|texts|, i requires 0 <= i < |texts| => Primitive(texts[i]))
  }

  lemma {:induction false} PrimitivesConvert(texts: seq<string>)
    ensures ConvertAll(AsPrimitives(texts)) == Success(texts)
  {
    if texts != [] {
      assert AsPrimitives(texts)[1..] == AsPrimitives(texts[1..]);
      PrimitivesConvert(texts[1..]);
      assert [texts[0]] + texts[1..] == texts;
    }
  }

  lemma KeysAndValuesOfOne(member: Member)
    ensures KeysAndValues([member]) == KeyAndValue(member)
  {
    var members := [member];
    assert members[..|members| - 1] == [];
    assert KeysAndValues(members[..|members| - 1]) == Success([]);
    assert KeyAndValue(member).Success? ==> [] + KeyAndValue(member).value == KeyAndValue(member).value;
  }

  /**
   With arrays the list is ambiguous: whatever can be written at all is also written for an object
   with a single member, an array of everything after the first key. So a list can be read back
   only once all the values are known to be scalars.
   */
  lemma WrittenLikeOneArray(members: seq<Member>)
    requires members != [] && KeysAndValues(members).Success?
    ensures KeysAndValues(members).value != []
    ensures var list := KeysAndValues(members).value;
            KeysAndValues([Member(list[0], Array(AsPrimitives(list[1..])))]) == Success(list)
  {
    var list := KeysAndValues(members).value;
    var one := Member(list[0], Array(AsPrimitives(list[1..])));
    PrimitivesConvert(list[1..]);
    KeysAndValuesOfOne(one);
    assert [list[0]] + list[1..] == list;
  }

  // ----- deep objects

  function DeepName(key: string, name: string): string {
    key + "[" + name + "]"
  }

  lemma DeepNameInjective(key: string, a: string, b: string)
    requires DeepName(key, a) == DeepName(key, b)
    ensures a == b
  {
    var da, db := DeepName(key, a), DeepName(key, b);
    assert |a| == |b|;
    assert a == da[|key| + 1..|key| + 1 + |a|];
    assert b == db[|key| + 1..|key| + 1 + |b|];
  }

  lemma {:induction false} AppendsKeepAll(p: Params, ops: seq<Op>, name: string)
    requires forall op <- ops :: op.Append?
    ensures !Overwrites(p, ops, name)
  {
    if ops != [] {
      assert ops[|ops| - 1] in ops;
      AppendsKeepAll(p, ops[..|ops| - 1], name);
    }
  }

  lemma {:induction false} OnKeyAlone(ops: seq<Op>, i: nat)
    requires i < |ops| && forall j :: 0 <= j < |ops| && j != i ==> ops[j].key != ops[i].key
    ensures OnKey(ops, ops[i].key) == [ops[i]]
  {
    var n := |ops| - 1;
    if i == n {
      OnKeyNone(ops[..n], ops[i].key);
    } else {
      OnKeyAlone(ops[..n], i);
    }
  }

  lemma {:induction false} OnKeyNone(ops: seq<Op>, key: string)
    requires forall op <- ops :: op.key != key
    ensures OnKey(ops, key) == []
  {
    if ops != [] {
      OnKeyNone(ops[..|ops| - 1], key);
    }
  }

  /**
   In deep-object style nothing is ever overwritten, and a member whose name no other member has
   adds exactly its value under its bracketed name.
   */
  lemma DeepMemberArrives(p: Params, defaults: FullOptions, key: string, value: Value, explode: bool,
                          json: Value -> string, i: nat)
    requires !value.Null? && !value.Undefined? && !value.Primitive? && i < |Members(value)|
    requires forall j :: 0 <= j < |Members(value)| && j != i ==>
               Members(value)[j].key != Members(value)[i].key
    ensures var member := Members(value)[i];
            var name := DeepName(key, member.key);
            var after := ApplyAll(p, defaults, PlanFor(key, value, DeepObject, explode, json).ops);
            ValuesAt(after, name) == ValuesAt(p, name) + [Coerce(member.value)]
  {
    var members := Members(value);
    var ops := DeepPlan(key, members);
    forall j | 0 <= j < |ops| && j != i
      ensures ops[j].key != ops[i].key
    {
      if ops[j].key == ops[i].key {
        DeepNameInjective(key, members[j].key, members[i].key);
      }
    }
    AppendsKeepAll(p, ops, ops[i].key);
    OnKeyAlone(ops, i);
    NothingLostIff(p, defaults, ops, ops[i].key);
    GivenByOne(ops[i]);
  }

  /** The member of an object arrives under `key[name]`. */
  lemma DeepObjectArrives(p: Params, defaults: FullOptions, key: string, members: seq<Member>, explode: bool,
                          json: Value -> string, i: nat)
    requires i < |members|
    requires forall j :: 0 <= j < |members| && j != i ==> members[j].key != members[i].key
    ensures var name := key + "[" + members[i].key + "]";
            var after := ApplyAll(p, defaults, PlanFor(key, Object(members), DeepObject, explode, json).ops);
            ValuesAt(after, name) == ValuesAt(p, name) + [Coerce(members[i].value)]
  {
    DeepMemberArrives(p, defaults, key, Object(members), explode, json, i);
  }

  /** The element of an array arrives under `key[i]`, the index in decimal. */
  lemma DeepArrayArrives(p: Params, defaults: FullOptions, key: string, elements: seq<Value>, explode: bool,
                         json: Value -> string, i: nat)
    requires i < |elements|
    ensures var name := key + "[" + Text.Decimal(i) + "]";
            var after := ApplyAll(p, defaults, PlanFor(key, Array(elements), DeepObject, explode, json).ops);
            ValuesAt(after, name) == ValuesAt(p, name) + [Coerce(elements[i])]
  {
    forall j | 0 <= j < |elements| && j != i
      ensures Text.Decimal(j) != Text.Decimal(i)
    {
      Text.DecimalReadsBack(i);
      Text.DecimalReadsBack(j);
    }
    DeepMemberArrives(p, defaults, key, Array(elements), explode, json, i);
  }

  /** A primitive is refused, and a date adds nothing. */
  lemma DeepOfNoObject(p: Params, defaults: FullOptions, key: string, value: Value, explode: bool,
                       json: Value -> string)
    requires value.Primitive? || value.Date?
    ensures var plan := PlanFor(key, value, DeepObject, explode, json);
            && ApplyAll(p, defaults, plan.ops) == p
            && plan.error == if value.Primitive? then Some(NotAnObject(key)) else None
  {
  }

  lemma GivenByOne(op: Op)
    ensures GivenValues([op]) == Contribution(op)
  {
    var ops := [op];
    assert ops[..|ops| - 1] == [];
    assert GivenValues(ops[..|ops| - 1]) == [];
  }

  // ----- the texts, style by style

  /** What stands for `null` and `undefined` in an array is the empty text. */
  lemma {:induction false} ElementTexts(elements: seq<Value>)
    ensures |CoerceElements(elements)| == |elements|
    ensures forall i :: 0 <= i < |elements| ==>
              CoerceElements(elements)[i]
              == if elements[i].Null? || elements[i].Undefined? then "" else Coerce(elements[i])
  {
    if elements != [] {
      ElementTexts(elements[1..]);
    }
  }

  /** An array as text is its elements between commas, `null` and `undefined` being empty. */
  lemma ArrayTextSplits(elements: seq<Value>)
    requires elements != []
    requires forall element <- elements ::
               element.Null? || element.Undefined? || (element.Primitive? && Text.Without(element.text, ','))
    ensures var parts := Text.Split(Coerce(Array(elements)), ',');
            && |parts| == |elements|
            && forall i :: 0 <= i < |elements| ==>
                 parts[i] == if elements[i].Primitive? then elements[i].text else ""
  {
    ElementTexts(elements);
    var texts := CoerceElements(elements);
    forall i | 0 <= i < |texts|
      ensures Text.Without(texts[i], ',')
      ensures texts[i] == if elements[i].Primitive? then elements[i].text else ""
    {
      assert elements[i] in elements;
    }
    Text.SplitJoin(texts, ',');
  }

  /** The character between the values of a parameter that is not exploded. */
  function JoinedBy(style: Style): string {
    match style
    case SpaceDelimited => " "
    case PipeDelimited => "|"
    case _ => ","
  }

  predicate IsForm(style: Style) {
    style == Form || style == SpaceDelimited || style == PipeDelimited
  }

  /**
   An array replaces the parameter, with one text for each element, in order: of a primitive its own
   text, of a date the text it prints as, and a fixed one of anything without a text of its own.
   */
  lemma ArrayArrives(p: Params, defaults: FullOptions, key: string, elements: seq<Value>, style: Style,
                     explode: bool, json: Value -> string)
    requires IsForm(style)
    ensures var plan := PlanFor(key, Array(elements), style, explode, json);
            var values := ValuesAt(ApplyAll(p, defaults, plan.ops), key);
            && plan.error.None? && |values| == |elements|
            && forall i :: 0 <= i < |elements| ==>
                 match elements[i]
                 case Primitive(text) => values[i] == text
                 case Date(_, text) => values[i] == text
                 case Null => values[i] == "null"
                 case Undefined => values[i] == "undefined"
                 case Object(_) => values[i] == "[object Object]"
                 case Array(_) => values[i] == Coerce(elements[i])
  {
    SetAlone(p, defaults, key, CoerceAll(elements), explode, DelimiterOf(style));
  }

  /** An array is written as a list when it is exploded, and under its style's own character when not. */
  lemma ArrayText(p: Params, defaults: FullOptions, key: string, texts: seq<string>, style: Style,
                  explode: bool, json: Value -> string)
    requires IsForm(style)
    ensures var plan := PlanFor(key, Array(AsPrimitives(texts)), style, explode, json);
            var after := ApplyAll(p, defaults, plan.ops);
            && key in after.entries
            && Serialized(after.entries[key])
               == if explode then Many(PercentCodec.EncodeAll(texts))
                  else One(Text.Join(PercentCodec.EncodeAll(texts), JoinedBy(style)))
  {
    var elements := AsPrimitives(texts);
    var values := CoerceAll(elements);
    assert values == texts;
    SetAlone(p, defaults, key, values, explode, DelimiterOf(style));
  }

  /** The values that are converted one by one: those of the members, and the elements of arrays. */
  function Parts(members: seq<Member>): seq<Value> {
    if members == [] then []
    else Parts(members[..|members| - 1]) + PartsOf(members[|members| - 1].value)
  }

  function PartsOf(value: Value): seq<Value> {
    if value.Array? then value.elements else [value]
  }

  /** What is not there cannot be converted, nor can an invalid date. */
  function Obstacle(value: Value): Option<Error> {
    match value
    case Null => Some(TypeError)
    case Undefined => Some(TypeError)
    case Date(iso, _) => if iso.None? then Some(RangeError) else None
    case _ => None
  }

  /** The first value in the way. */
  function FirstObstacle(values: seq<Value>): Option<Error> {
    if values == [] then None
    else if Obstacle(values[0]).Some? then Obstacle(values[0])
    else FirstObstacle(values[1..])
  }

  function PartText(value: Value): string {
    match value
    case Primitive(text) => text
    case Date(iso, _) => if iso.Some? then iso.value else ""
    case Object(_) => "[object Object]"
    case _ => Coerce(value)
  }

  function PartTexts(values: seq<Value>): seq<string> {
    if values == [] then [] else [PartText(values[0])] + PartTexts(values[1..])
  }

  lemma SetAlone(p: Params, defaults: FullOptions, key: string, values: seq<string>, explode: bool,
                 delimiter: Delimiter)
    ensures var after := ApplyAll(p, defaults, [Set(key, values, Fixed(explode, delimiter))]);
            key in after.entries && after.entries[key] == Entry(values, FullOptions(explode, delimiter))
  {
    ApplyOne(p, defaults, Set(key, values, Fixed(explode, delimiter)));
  }

  /** Each key followed by the texts of its value. */
  function Listed(members: seq<Member>): seq<string> {
    if members == [] then []
    else
      var last := members[|members| - 1];
      Listed(members[..|members| - 1]) + [last.key] + PartTexts(PartsOf(last.value))
  }

  lemma {:induction false} FirstObstacleAppend(a: seq<Value>, b: seq<Value>)
    ensures FirstObstacle(a + b) == if FirstObstacle(a).Some? then FirstObstacle(a) else FirstObstacle(b)
  {
    if a == [] {
      assert a + b == b;
    } else {
      assert (a + b)[1..] == a[1..] + b;
      FirstObstacleAppend(a[1..], b);
    }
  }

  lemma {:induction false} ConvertAllIff(values: seq<Value>)
    ensures ConvertAll(values)
         == if FirstObstacle(values).Some? then Failure(FirstObstacle(values).value)
            else Success(PartTexts(values))
  {
    if values != [] {
      ConvertAllIff(values[1..]);
    }
  }

  lemma KeyAndValueIff(member: Member)
    ensures var first := FirstObstacle(PartsOf(member.value));
            KeyAndValue(member)
            == if first.Some? then Failure(first.value)
               else Success([member.key] + PartTexts(PartsOf(member.value)))
  {
    ConvertAllIff(PartsOf(member.value));
    if !member.value.Array? {
      OnePart(member.value);
      assert [member.key, PartText(member.value)] == [member.key] + [PartText(member.value)];
    }
  }

  lemma OnePart(value: Value)
    ensures FirstObstacle([value]) == Obstacle(value) && PartTexts([value]) == [PartText(value)]
  {
    assert [value][1..] == [];
    assert PartTexts([value]) == [PartText(value)] + PartTexts([]);
    assert FirstObstacle([]) == None;
  }

  lemma ListedNext(before: seq<string>, key: string, texts: seq<string>)
    ensures before + ([key] + texts) == before + [key] + texts
  {
  }

  lemma {:induction false} KeysAndValuesIff(members: seq<Member>)
    ensures var first := FirstObstacle(Parts(members));
            KeysAndValues(members)
            == if first.Some? then Failure(first.value) else Success(Listed(members))
  {
    if members != [] {
      var before, last := members[..|members| - 1], members[|members| - 1];
      KeysAndValuesIff(before);
      KeyAndValueIff(last);
      FirstObstacleAppend(Parts(before), PartsOf(last.value));
      ListedNext(Listed(before), last.key, PartTexts(PartsOf(last.value)));
    }
  }

  /**
   An object that is not exploded fails with the first value in the way, and stores nothing; with none
   in the way it is written key by key, each followed by its texts, under its style's own character.
   */
  lemma ObjectText(p: Params, defaults: FullOptions, key: string, members: seq<Member>, style: Style,
                   explode: bool, json: Value -> string)
    requires IsForm(style) && (style == Form ==> !explode)
    ensures var plan := PlanFor(key, Object(members), style, explode, json);
            var after := ApplyAll(p, defaults, plan.ops);
            && plan.error == FirstObstacle(Parts(members))
            && (plan.error.Some? ==> after == p)
            && (plan.error.None? ==>
                  && key in after.entries
                  && Serialized(after.entries[key])
                     == One(Text.Join(PercentCodec.EncodeAll(Listed(members)), JoinedBy(style))))
  {
    var delimiter := DelimiterOf(style);
    assert PlanFor(key, Object(members), style, explode, json) == ConcatPlan(key, members, delimiter);
    assert [delimiter.Char()] == JoinedBy(style);
    ConcatText(p, defaults, key, members, delimiter);
  }

  lemma ConcatText(p: Params, defaults: FullOptions, key: string, members: seq<Member>, delimiter: Delimiter)
    ensures var plan := ConcatPlan(key, members, delimiter);
            var after := ApplyAll(p, defaults, plan.ops);
            && plan.error == FirstObstacle(Parts(members))
            && (plan.error.Some? ==> after == p)
            && (plan.error.None? ==>
                  && key in after.entries
                  && Serialized(after.entries[key])
                     == One(Text.Join(PercentCodec.EncodeAll(Listed(members)), [delimiter.Char()])))
  {
    KeysAndValuesIff(members);
    if FirstObstacle(Parts(members)).None? {
      SetAlone(p, defaults, key, Listed(members), false, delimiter);
    }
  }

  // ----- the methods

  lemma ApplyOne(p: Params, defaults: FullOptions, op: Op)
    ensures ApplyAll(p, defaults, [op]) == Apply(p, defaults, op)
  {
  }

  /** `concatHttpParamsObject`: nothing is stored when a value cannot be converted. */
  method ConcatHttpParamsObject(httpParams: OpenApiHttpParams, key: string, members: seq<Member>,
                                delimiter: Delimiter) returns (error: Option<Error>)
    requires httpParams.Valid()
    modifies httpParams
    ensures httpParams.Valid() && fresh(httpParams.Repr - old(httpParams.Repr))
    ensures var plan := ConcatPlan(key, members, delimiter);
            && error == plan.error
            && httpParams.Contents
               == ApplyAll(old(httpParams.Contents), httpParams.defaults, plan.ops)
  {
    var list: seq<string> := [];
    for i := 0 to |members|
      invariant KeysAndValues(members[..i]) == Success(list)
      invariant httpParams.Valid() && httpParams.Repr == old(httpParams.Repr)
      invariant httpParams.Contents == old(httpParams.Contents)
    {
      var texts := KeyAndValue(members[i]);
      assert members[..i + 1][..i] == members[..i];
      if texts.Failure? {
        KeysAndValuesFails(members, i + 1);
        return Some(texts.error);
      }
      list := list + texts.value;
    }
    assert members[..|members|] == members;
    var keyAndValues := new JsArray(list);
    ApplyOne(httpParams.Contents, httpParams.defaults, Set(key, list, Fixed(false, delimiter)));
    httpParams.SetParam(key, ManyValues(keyAndValues), Fixed(false, delimiter));
    error := None;
  }

  lemma {:induction false} KeysAndValuesFails(members: seq<Member>, n: nat)
    requires n <= |members| && KeysAndValues(members[..n]).Failure?
    ensures KeysAndValues(members) == KeysAndValues(members[..n])
    decreases |members|
  {
    if n == |members| {
      assert members[..n] == members;
    } else {
      var before := members[..|members| - 1];
      assert before[..n] == members[..n];
      KeysAndValuesFails(before, n);
    }
  }

  lemma ApplyThen(p: Params, defaults: FullOptions, a: Plan, b: Plan)
    requires a.error.None?
    ensures ApplyAll(p, defaults, Then(a, b).ops)
         == ApplyAll(ApplyAll(p, defaults, a.ops), defaults, b.ops)
  {
    ApplyAllAppend(p, defaults, a.ops, b.ops);
  }

  /**
   `addToHttpParams`: the collection is extended in place by the calls of the plan, up to the error
   that is thrown when there is one.
   */
  method AddToHttpParams(httpParams: OpenApiHttpParams, key: string, value: Value, style: Style,
                         explode: bool, json: Value -> string) returns (error: Option<Error>)
    requires httpParams.Valid()
    modifies httpParams.Repr
    ensures httpParams.Valid() && fresh(httpParams.Repr - old(httpParams.Repr))
    ensures var plan := PlanFor(key, value, style, explode, json);
            && error == plan.error
            && httpParams.Contents
               == ApplyAll(old(httpParams.Contents), httpParams.defaults, plan.ops)
    decreases value, 1
  {
    error := None;
    if value.Null? || value.Undefined? {
      return;
    }
    if style == DeepObject {
      if value.Primitive? {
        return Some(NotAnObject(key));
      }
      AddDeepObject(httpParams, key, Members(value));
    } else if style == Json {
      AddText(httpParams, key, json(value));
    } else {
      match value {
        case Primitive(text) =>
          AddText(httpParams, key, text);
        case Date(iso, _) =>
          if iso.None? {
            return Some(RangeError);
          }
          AddText(httpParams, key, iso.value);
        case Array(elements) =>
          AddArray(httpParams, key, CoerceAll(elements), Fixed(explode, DelimiterOf(style)));
        case Object(members) =>
          if style == Form && explode {
            error := AddMembers(httpParams, members, style, explode, json);
          } else {
            error := ConcatHttpParamsObject(httpParams, key, members, DelimiterOf(style));
          }
      }
    }
  }

  /** The `forEach` over the fields of an exploded object; an error leaves it at once. */
  method AddMembers(httpParams: OpenApiHttpParams, members: seq<Member>, style: Style,
                    explode: bool, json: Value -> string) returns (error: Option<Error>)
    requires httpParams.Valid()
    modifies httpParams.Repr
    ensures httpParams.Valid() && fresh(httpParams.Repr - old(httpParams.Repr))
    ensures var plan := PlanMembers(members, style, explode, json);
            && error == plan.error
            && httpParams.Contents
               == ApplyAll(old(httpParams.Contents), httpParams.defaults, plan.ops)
    decreases members, 0
  {
    error := None;
    if members != [] {
      error := AddToHttpParams(httpParams, members[0].key, members[0].value, style, explode, json);
      if error.Some? {
        return;
      }
      ApplyThen(old(httpParams.Contents), httpParams.defaults,
                PlanFor(members[0].key, members[0].value, style, explode, json),
                PlanMembers(members[1..], style, explode, json));
      error := AddMembers(httpParams, members[1..], style, explode, json);
    }
  }

  method AddText(httpParams: OpenApiHttpParams, key: string, text: string)
    requires httpParams.Valid()
    modifies httpParams.Repr
    ensures httpParams.Valid() && fresh(httpParams.Repr - old(httpParams.Repr))
    ensures httpParams.Contents
         == ApplyAll(old(httpParams.Contents), httpParams.defaults, [Append(key, text, None)])
  {
    ApplyOne(httpParams.Contents, httpParams.defaults, Append(key, text, None));
    httpParams.AppendParam(key, text, None);
  }

  method AddArray(httpParams: OpenApiHttpParams, key: string, values: seq<string>,
                  options: Option<ParamOptions>)
    requires httpParams.Valid()
    modifies httpParams.Repr
    ensures httpParams.Valid() && fresh(httpParams.Repr - old(httpParams.Repr))
    ensures httpParams.Contents
         == ApplyAll(old(httpParams.Contents), httpParams.defaults, [Set(key, values, options)])
  {
    var array_ := new JsArray(values);
    ApplyOne(httpParams.Contents, httpParams.defaults, Set(key, values, options));
    httpParams.SetParam(key, ManyValues(array_), options);
  }

  /** The `reduce` over the keys of a deep object. */
  method AddDeepObject(httpParams: OpenApiHttpParams, key: string, members: seq<Member>)
    requires httpParams.Valid()
    modifies httpParams.Repr
    ensures httpParams.Valid() && fresh(httpParams.Repr - old(httpParams.Repr))
    ensures httpParams.Contents
         == ApplyAll(old(httpParams.Contents), httpParams.defaults, DeepPlan(key, members))
  {
    ghost var start, ops := httpParams.Contents, DeepPlan(key, members);
    for i := 0 to |members|
      invariant httpParams.Valid() && fresh(httpParams.Repr - old(httpParams.Repr))
      invariant httpParams.Contents == ApplyAll(start, httpParams.defaults, ops[..i])
    {
      AddText(httpParams, DeepName(key, members[i].key), Coerce(members[i].value));
      ApplyAllAppend(start, httpParams.defaults, ops[..i], [ops[i]]);
      assert ops[..i + 1] == ops[..i] + [ops[i]];
    }
    assert ops[..|ops|] == ops;
  }
}
