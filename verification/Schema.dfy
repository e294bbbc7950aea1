/**
 Data models and instances (lib/include/schema.hpp, messages in lib/proto/query.proto).
 */
module Schema {
  import opened Common

  type int64 = i: int | -0x8000_0000_0000_0000 <= i < 0x8000_0000_0000_0000

  datatype Location = Location(lon: real, lat: real)

  datatype Type = DOUBLE | INT | BOOL | STRING | LOCATION

  /** The values of the C++ side. */
  datatype Variant =
    | VInt(i: int32)
    | VDouble(d: real)
    | VString(s: string)
    | VBool(b: bool)
    | VLocation(l: Location)

  function TypeOf(v: Variant): Type {
    match v
    case VInt(_) => INT
    case VDouble(_) => DOUBLE
    case VString(_) => STRING
    case VBool(_) => BOOL
    case VLocation(_) => LOCATION
  }

  /** The values of a message; integers are 64 bits wide there. */
  datatype Value =
    | S(s: string)
    | D(d: real)
    | B(b: bool)
    | I(i: int64)
    | L(l: Location)
    | NotSet

  datatype Attribute = Attribute(name: string, typ: Type, required: bool)

  datatype DataModel = DataModel(name: string, attributes: seq<Attribute>)

  predicate UniqueNames(atts: seq<Attribute>) {
    forall i, j | 0 <= i < j < |atts| :: atts[i].name != atts[j].name
  }

  function Names(atts: seq<Attribute>): (r: set<string>)
    ensures forall n :: n in r <==> exists i :: 0 <= i < |atts| && atts[i].name == n
  {
    set i | 0 <= i < |atts| :: atts[i].name
  }

  /** The constructor of `DataModel`: refuses a name that occurs twice. */
  method NewDataModel(name: string, attributes: seq<Attribute>) returns (r: Result<DataModel, string>)
    ensures r.Ok? <==> UniqueNames(attributes)
    ensures r.Ok? ==> r.value == DataModel(name, attributes)
  {
    var seen: set<string> := {};
    for i := 0 to |attributes|
      invariant seen == Names(attributes[..i]) && UniqueNames(attributes[..i])
    {
      var a := attributes[i];
      assert attributes[..i + 1] == attributes[..i] + [a];
      if a.name in seen {
        return Err("Duplicate attribute name");
      }
      seen := seen + {a.name};
    }
    assert attributes[..|attributes|] == attributes;
    return Ok(DataModel(name, attributes));
  }

  /** The first attribute of that name. */
  function Find(atts: seq<Attribute>, name: string): (r: Option<Attribute>)
    ensures r.Some? <==> name in Names(atts)
    ensures r.Some? ==> r.value in atts && r.value.name == name
  {
    if atts == [] then None
    else if atts[0].name == name then
      assert atts[0] in atts;
      Some(atts[0])
    else
      assert Names(atts) == {atts[0].name} + Names(atts[1..]) by { NamesCons(atts); }
      Find(atts[1..], name)
  }

  lemma NamesCons(atts: seq<Attribute>)
    requires atts != []
    ensures Names(atts) == {atts[0].name} + Names(atts[1..])
  {
    forall n | n in Names(atts) ensures n in {atts[0].name} + Names(atts[1..]) {
      var i :| 0 <= i < |atts| && atts[i].name == n;
      if i > 0 { assert atts[1..][i - 1].name == n; }
    }
    forall n | n in Names(atts[1..]) ensures n in Names(atts) {
      var i :| 0 <= i < |atts[1..]| && atts[1..][i].name == n;
      assert atts[i + 1].name == n;
    }
  }

  /** With unique names the first attribute of a name is the only one. */
  lemma {:induction false} FindUnique(atts: seq<Attribute>, i: nat)
    requires UniqueNames(atts) && i < |atts|
    ensures Find(atts, atts[i].name) == Some(atts[i])
  {
    if i > 0 {
      FindUnique(atts[1..], i - 1);
    }
  }

  // ---- Which values fit a model ---------------------------------------------------------

  /** Every key is an attribute of the model and its value has the attribute's type. */
  predicate Typed(model: DataModel, values: map<string, Variant>) {
    forall k | k in values ::
      var att := Find(model.attributes, k);
      att.Some? && att.value.typ == TypeOf(values[k])
  }

  predicate Covered(model: DataModel, values: map<string, Variant>) {
    forall i | 0 <= i < |model.attributes| ::
      model.attributes[i].required ==> model.attributes[i].name in values
  }

  predicate Conforms(model: DataModel, values: map<string, Variant>) {
    Typed(model, values) && Covered(model, values)
  }

  // ---- The checked constructor ----------------------------------------------------------

  datatype KeyValue = KeyValue(key: string, value: Value)

  datatype Instance = Instance(model: DataModel, wire: seq<KeyValue>, values: map<string, Variant>)

  function Encode(v: Variant): Value {
    match v
    case VInt(i) => I(i)
    case VDouble(d) => D(d)
    case VString(s) => S(s)
    case VBool(b) => B(b)
    case VLocation(l) => L(l)
  }

  /** `wire` lists each pair of `values` once, in some order. */
  ghost predicate Lists(wire: seq<KeyValue>, values: map<string, Variant>) {
    && (forall i, j | 0 <= i < j < |wire| :: wire[i].key != wire[j].key)
    && (forall i | 0 <= i < |wire| :: wire[i].key in values && wire[i].value == Encode(values[wire[i].key]))
    && (forall k | k in values :: exists i :: 0 <= i < |wire| && wire[i].key == k)
  }

  function RequiredNames(atts: seq<Attribute>): set<string> {
    set i | 0 <= i < |atts| && atts[i].required :: atts[i].name
  }

  lemma SubsetSize(a: set<string>, b: set<string>)
    requires a <= b
    ensures |a| <= |b|
    ensures |a| == |b| ==> a == b
  {
    assert b == a + (b - a);
    assert |b| == |a| + |b - a|;
  }

  lemma {:induction false} NamesSize(atts: seq<Attribute>)
    ensures |Names(atts)| <= |atts|
  {
    if atts != [] {
      NamesSize(atts[1..]);
      NamesCons(atts);
      assert |{atts[0].name} + Names(atts[1..])| <= 1 + |Names(atts[1..])|;
    } else {
      assert Names(atts) == {};
    }
  }

  /** The number of required attributes: the first loop of the constructor. */
  method CountRequired(atts: seq<Attribute>) returns (n: nat)
    requires UniqueNames(atts)
    ensures n == |RequiredNames(atts)|
  {
    hide RequiredNames, UniqueNames;
    NoneRequired();
    n := 0;
    for i := 0 to |atts|
      invariant n == |RequiredNames(atts[..i])|
    {
      RequiredOneMore(atts, i);
      if atts[i].required {
        n := n + 1;
      }
    }
    assert atts[..|atts|] == atts;
  }

  lemma NoneRequired()
    ensures RequiredNames([]) == {}
  {
  }

  lemma RequiredOneMore(atts: seq<Attribute>, i: nat)
    requires UniqueNames(atts) && i < |atts|
    ensures |RequiredNames(atts[..i + 1])| == |RequiredNames(atts[..i])| + if atts[i].required then 1 else 0
  {
    var before, after, name := RequiredNames(atts[..i]), RequiredNames(atts[..i + 1]), atts[i].name;
    var added := if atts[i].required then {name} else {};
    forall n ensures n in after <==> n in before + added {
      RequiredAmong(atts, i, n);
      RequiredAmong(atts, i + 1, n);
    }
    RequiredAmong(atts, i, name);
    hide RequiredNames;
    assert after == before + added && name !in before;
  }

  lemma RequiredAmong(atts: seq<Attribute>, i: nat, n: string)
    requires i <= |atts|
    ensures n in RequiredNames(atts[..i]) <==> exists k :: 0 <= k < i && atts[k].required && atts[k].name == n
  {
    var front := atts[..i];
    if k :| 0 <= k < i && atts[k].required && atts[k].name == n {
      assert front[k].required && front[k].name in RequiredNames(front);
    }
  }

  /** A conforming map passes the two size guards. */
  lemma GuardsPass(model: DataModel, values: map<string, Variant>)
    requires Conforms(model, values)
    ensures |RequiredNames(model.attributes)| <= |values| <= |model.attributes|
  {
    SubsetSize(values.Keys, Names(model.attributes));
    SubsetSize(RequiredNames(model.attributes), values.Keys);
    NamesSize(model.attributes);
    assert |values.Keys| == |values|;
  }

  /** What the visits so far have established; `rest` are the keys still to come. */
  ghost predicate Visited(model: DataModel, values: map<string, Variant>, rest: set<string>,
                          wire: seq<KeyValue>, missing: nat) {
    && rest <= values.Keys
    && missing == |RequiredNames(model.attributes) - (values.Keys - rest)|
    && Lists(wire, values - rest)
    && Typed(model, values - rest)
  }

  lemma FindRequired(atts: seq<Attribute>, k: string)
    requires UniqueNames(atts) && k in Names(atts)
    ensures Find(atts, k).value.required <==> k in RequiredNames(atts)
  {
    var i :| 0 <= i < |atts| && atts[i].name == k;
    FindUnique(atts, i);
  }

  /** Visiting one more key; a required one was still counted as missing. */
  lemma Visit(model: DataModel, values: map<string, Variant>, rest: set<string>,
              wire: seq<KeyValue>, missing: nat, k: string)
    requires UniqueNames(model.attributes) && Visited(model, values, rest, wire, missing)
    requires k in rest && k in Names(model.attributes)
    ensures var att := Find(model.attributes, k).value;
            && (att.required ==> missing > 0)
            && (att.typ == TypeOf(values[k]) ==>
                  Visited(model, values, rest - {k}, wire + [KeyValue(k, Encode(values[k]))],
                          if att.required then missing - 1 else missing))
  {
    hide Lists;
    MissingOneLess(model.attributes, values.Keys, rest, k);
    if Find(model.attributes, k).value.typ == TypeOf(values[k]) {
      ListsOneMore(wire, values, rest, k);
      TypedOneMore(model, values, rest, k);
    }
  }

  lemma MissingOneLess(atts: seq<Attribute>, keys: set<string>, rest: set<string>, k: string)
    requires UniqueNames(atts) && k in rest && rest <= keys && k in Names(atts)
    ensures var before := RequiredNames(atts) - (keys - rest);
            var after := RequiredNames(atts) - (keys - (rest - {k}));
            |before| == |after| + if Find(atts, k).value.required then 1 else 0
  {
    FindRequired(atts, k);
    hide RequiredNames, Names, Find, UniqueNames;
    var before := RequiredNames(atts) - (keys - rest);
    var after := RequiredNames(atts) - (keys - (rest - {k}));
    if Find(atts, k).value.required {
      assert before == after + {k} && k !in after;
    } else {
      assert before == after;
    }
  }

  lemma TypedOneMore(model: DataModel, values: map<string, Variant>, rest: set<string>, k: string)
    requires k in values && k in rest && Typed(model, values - rest)
    requires k in Names(model.attributes) && Find(model.attributes, k).value.typ == TypeOf(values[k])
    ensures Typed(model, values - (rest - {k}))
  {
    hide Find, Names;
    forall n | n in values - (rest - {k})
      ensures Find(model.attributes, n).Some?
      ensures Find(model.attributes, n).value.typ == TypeOf(values[n])
    {
      if n != k { assert n in values - rest; }
    }
  }

  lemma ListsOneMore(wire: seq<KeyValue>, values: map<string, Variant>, rest: set<string>, k: string)
    requires k in values && k in rest && Lists(wire, values - rest)
    ensures Lists(wire + [KeyValue(k, Encode(values[k]))], values - (rest - {k}))
  {
    var wire' := wire + [KeyValue(k, Encode(values[k]))];
    var done := values - (rest - {k});
    forall n | n in done ensures exists i :: 0 <= i < |wire'| && wire'[i].key == n {
      if n == k {
        assert wire'[|wire|].key == n;
      } else {
        assert n in values - rest;
        var i :| 0 <= i < |wire| && wire[i].key == n;
        assert wire'[i].key == n;
      }
    }
  }

  lemma AllVisited(model: DataModel, values: map<string, Variant>, wire: seq<KeyValue>, missing: nat)
    requires Visited(model, values, {}, wire, missing)
    ensures Lists(wire, values)
    ensures missing == 0 <==> Conforms(model, values)
  {
    hide Lists, Covered, Typed, RequiredNames;
    assert values - {} == values && values.Keys - {} == values.Keys;
    NothingMissing(model, values);
  }

  lemma NothingMissing(model: DataModel, values: map<string, Variant>)
    ensures |RequiredNames(model.attributes) - values.Keys| == 0 <==> Covered(model, values)
  {
    var left := RequiredNames(model.attributes) - values.Keys;
    if left == {} {
      forall i | 0 <= i < |model.attributes| && model.attributes[i].required
        ensures model.attributes[i].name in values
      {
        assert model.attributes[i].name in RequiredNames(model.attributes);
        assert model.attributes[i].name !in left;
      }
    }
    if Covered(model, values) { assert left == {}; }
  }

  /** The body of the constructor's second loop: one pair against the model. */
  method CheckPair(model: DataModel, values: map<string, Variant>, k: string, missing: nat,
                   ghost rest: set<string>, ghost wire: seq<KeyValue>)
    returns (r: Result<KeyValue, string>, missing': nat)
    requires UniqueNames(model.attributes) && Visited(model, values, rest, wire, missing)
    requires k in rest && k in values
    ensures r.Err? ==> !Conforms(model, values)
    ensures r.Ok? ==> Visited(model, values, rest - {k}, wire + [r.value], missing')
  {
    hide Visited, Conforms, Names, UniqueNames;
    BadKey(model, values, k);
    missing' := missing;
    var att := Find(model.attributes, k);
    if att.None? {
      return Err("Attribute does not exist in data model."), missing';
    }
    Visit(model, values, rest, wire, missing, k);
    if att.value.required {
      missing' := missing - 1;
    }
    if att.value.typ != TypeOf(values[k]) {
      return Err("Attribute has another type in data model."), missing';
    }
    return Ok(KeyValue(k, Encode(values[k]))), missing';
  }

  /**
   The checked constructor accepts exactly the conforming maps. The pairs are visited in any
   order; `missing` counts the required attributes not seen yet and never goes below zero.
   */
  method NewInstance(model: DataModel, values: map<string, Variant>) returns (r: Result<Instance, string>)
    requires UniqueNames(model.attributes)
    ensures r.Ok? <==> Conforms(model, values)
    ensures r.Ok? ==> r.value.model == model && r.value.values == values
    ensures r.Ok? ==> Lists(r.value.wire, values)
  {
    hide Visited, Lists, Covered, Typed, Conforms, RequiredNames, Names, Find, UniqueNames;
    if Conforms(model, values) { GuardsPass(model, values); }
    var atts := model.attributes;
    if |values| > |atts| {
      return Err("Too many attributes");
    }
    var missing: nat := CountRequired(atts);
    if |values| < missing {
      return Err("Not enough attributes");
    }
    var wire: seq<KeyValue> := [];
    var rest := values.Keys;
    NoneVisited(model, values, missing);
    while rest != {}
      invariant rest <= values.Keys
      invariant Visited(model, values, rest, wire, missing)
      decreases |rest|
    {
      var k :| k in rest;
      var pair;
      pair, missing := CheckPair(model, values, k, missing, rest, wire);
      if pair.Err? {
        return Err(pair.error);
      }
      wire := wire + [pair.value];
      rest := rest - {k};
    }
    AllVisited(model, values, wire, missing);
    if missing > 0 {
      return Err("Not enough attributes.");
    }
    return Ok(Instance(model, wire, values));
  }

  lemma BadKey(model: DataModel, values: map<string, Variant>, k: string)
    requires k in values
    ensures var att := Find(model.attributes, k);
            att.None? || att.value.typ != TypeOf(values[k]) ==> !Conforms(model, values)
  {
  }

  lemma NoneVisited(model: DataModel, values: map<string, Variant>, missing: nat)
    requires missing == |RequiredNames(model.attributes)|
    ensures Visited(model, values, values.Keys, [], missing)
  {
    assert values - values.Keys == map[];
    assert RequiredNames(model.attributes) - (values.Keys - values.Keys) == RequiredNames(model.attributes);
  }

  // ---- Rebuilding an instance from its message ------------------------------------------

  /** `int(i)` for a 64-bit `i`: the low 32 bits. */
  function Truncate(i: int64): (r: int32)
    ensures (r - i) % 0x1_0000_0000 == 0
    ensures -0x8000_0000 <= i < 0x8000_0000 ==> r == i
  {
    var low := i % 0x1_0000_0000;
    if low < 0x8000_0000 then low else low - 0x1_0000_0000
  }

  function Decode(v: Value): Option<Variant> {
    match v
    case S(s) => Some(VString(s))
    case D(d) => Some(VDouble(d))
    case B(b) => Some(VBool(b))
    case I(i) => Some(VInt(Truncate(i)))
    case L(l) => Some(VLocation(l))
    case NotSet => None
  }

  /** The last value of each key that is set at all. */
  function Rebuild(wire: seq<KeyValue>): map<string, Variant> {
    if wire == [] then map[] else
      var before, last := Rebuild(wire[..|wire| - 1]), wire[|wire| - 1];
      match Decode(last.value)
      case None => before
      case Some(v) => before[last.key := v]
  }

  method InstanceFromMessage(model: DataModel, wire: seq<KeyValue>) returns (r: Instance)
    ensures r == Instance(model, wire, Rebuild(wire))
  {
    var values: map<string, Variant> := map[];
    for i := 0 to |wire|
      invariant values == Rebuild(wire[..i])
    {
      assert wire[..i + 1][..i] == wire[..i];
      var v := wire[i];
      match v.value {
        case S(s) => values := values[v.key := VString(s)];
        case D(d) => values := values[v.key := VDouble(d)];
        case B(b) => values := values[v.key := VBool(b)];
        case I(i) => values := values[v.key := VInt(Truncate(i))];
        case L(l) => values := values[v.key := VLocation(l)];
        case NotSet =>
      }
    }
    assert wire[..|wire|] == wire;
    return Instance(model, wire, values);
  }

  predicate Sets(pair: KeyValue, key: string) {
    pair.key == key && pair.value != NotSet
  }

  lemma RebuildLast(wire: seq<KeyValue>, key: string)
    requires wire != []
    ensures var front, last := Rebuild(wire[..|wire| - 1]), wire[|wire| - 1];
            if Sets(last, key) then key in Rebuild(wire) && Decode(last.value) == Some(Rebuild(wire)[key])
            else (key in Rebuild(wire) <==> key in front)
                 && (key in front ==> Rebuild(wire)[key] == front[key])
  {
  }

  /** On any message, with repeated keys too, a key has the value of the last pair that sets it. */
  lemma {:induction false} LastSetCounts(wire: seq<KeyValue>, key: string, i: nat)
    requires i < |wire| && Sets(wire[i], key)
    requires forall j | i < j < |wire| :: !Sets(wire[j], key)
    ensures key in Rebuild(wire) && Decode(wire[i].value) == Some(Rebuild(wire)[key])
  {
    RebuildLast(wire, key);
    if i < |wire| - 1 {
      LastSetCounts(wire[..|wire| - 1], key, i);
    }
    hide Rebuild, Decode, Sets;
  }

  /** A key has a value exactly when some pair sets it. */
  lemma {:induction false} SetKeys(wire: seq<KeyValue>, key: string)
    ensures key in Rebuild(wire) <==> exists i | 0 <= i < |wire| :: Sets(wire[i], key)
  {
    if wire != [] {
      var front := wire[..|wire| - 1];
      RebuildLast(wire, key);
      SetKeys(front, key);
      hide Rebuild, Decode, Sets;
      if i :| 0 <= i < |wire| && Sets(wire[i], key) && !Sets(wire[|wire| - 1], key) {
        assert Sets(front[i], key);
      }
    }
  }

  /** The message of an accepted instance, in whatever order, rebuilds the same values. */
  lemma {:induction false} WireRoundTrip(wire: seq<KeyValue>, values: map<string, Variant>)
    requires Lists(wire, values)
    ensures Rebuild(wire) == values
  {
    if wire == [] {
      assert values == map[];
    } else {
      var front, last := wire[..|wire| - 1], wire[|wire| - 1];
      ListsFront(wire, values);
      hide Lists;
      WireRoundTrip(front, values - {last.key});
      assert values == (values - {last.key})[last.key := values[last.key]];
    }
  }

  lemma ListsFront(wire: seq<KeyValue>, values: map<string, Variant>)
    requires wire != [] && Lists(wire, values)
    ensures var front, last := wire[..|wire| - 1], wire[|wire| - 1];
            && last.key in values && Decode(last.value) == Some(values[last.key])
            && Lists(front, values - {last.key})
  {
    hide Rebuild;
    var front, last := wire[..|wire| - 1], wire[|wire| - 1];
    forall k | k in values - {last.key} ensures exists i :: 0 <= i < |front| && front[i].key == k {
      var i :| 0 <= i < |wire| && wire[i].key == k;
      assert front[i].key == k;
    }
  }

  // ---- Instantiating --------------------------------------------------------------------

  /** One attribute as text; `show` is how a value is printed. */
  function InstantiateAttribute(att: Attribute, values: map<string, Variant>, show: Variant -> string)
    : Result<(string, string), string>
  {
    if att.name !in values then
      if att.required then Err("Missing value: " + att.name) else Ok((att.name, ""))
    else if att.typ == TypeOf(values[att.name]) then Ok((att.name, show(values[att.name])))
    else Err(att.name + " has a wrong type of value " + show(values[att.name]))
  }

  predicate Instantiable(att: Attribute, values: map<string, Variant>) {
    if att.name in values then att.typ == TypeOf(values[att.name]) else !att.required
  }

  method Instantiate(model: DataModel, values: map<string, Variant>, show: Variant -> string)
    returns (r: Result<seq<(string, string)>, string>)
    ensures r.Ok? <==> forall i | 0 <= i < |model.attributes| :: Instantiable(model.attributes[i], values)
    ensures r.Ok? ==> |r.value| == |model.attributes|
    ensures r.Ok? ==> forall i | 0 <= i < |r.value| ::
              var name := model.attributes[i].name;
              r.value[i] == (name, if name in values then show(values[name]) else "")
  {
    var res: seq<(string, string)> := [];
    for i := 0 to |model.attributes|
      invariant |res| == i
      invariant forall j | 0 <= j < i :: Instantiable(model.attributes[j], values)
      invariant forall j | 0 <= j < i ::
                  var name := model.attributes[j].name;
                  res[j] == (name, if name in values then show(values[name]) else "")
    {
      var pair := InstantiateAttribute(model.attributes[i], values, show);
      if pair.Err? {
        assert !Instantiable(model.attributes[i], values);
        return Err(pair.error);
      }
      res := res + [pair.value];
    }
    return Ok(res);
  }

  /**
   The values that instantiate without an error and have no key outside the model are exactly
   the conforming ones; in particular an accepted instance always instantiates.
   */
  lemma InstantiableMeansConforming(model: DataModel, values: map<string, Variant>)
    requires UniqueNames(model.attributes)
    ensures Conforms(model, values) <==>
            && values.Keys <= Names(model.attributes)
            && forall i | 0 <= i < |model.attributes| :: Instantiable(model.attributes[i], values)
  {
    var atts := model.attributes;
    if Conforms(model, values) {
      forall i | 0 <= i < |atts| ensures Instantiable(atts[i], values) { FindUnique(atts, i); }
    }
    if values.Keys <= Names(atts) && forall i | 0 <= i < |atts| :: Instantiable(atts[i], values) {
      forall k | k in values ensures Find(atts, k).Some? && Find(atts, k).value.typ == TypeOf(values[k]) {
        var i :| 0 <= i < |atts| && atts[i].name == k;
        FindUnique(atts, i);
        assert Instantiable(atts[i], values);
      }
    }
  }

  // ---- Equality of instances ------------------------------------------------------------

  /** `operator==`: it looks at the values of the left side only. */
  predicate Same(x: Instance, y: Instance) {
    && x.model.name == y.model.name
    && forall k | k in x.values :: k in y.values && y.values[k] == x.values[k]
  }

  /** Equality holds in both directions exactly when the right side has no further keys. */
  lemma SameIsOneSided(x: Instance, y: Instance)
    requires Same(x, y)
    ensures Same(y, x) <==> |y.values| == |x.values|
    ensures Same(y, x) <==> x.values == y.values
  {
    assert x.values.Keys <= y.values.Keys;
    SubsetSize(x.values.Keys, y.values.Keys);
    assert |x.values.Keys| == |x.values| && |y.values.Keys| == |y.values|;
    if Same(y, x) { assert x.values.Keys == y.values.Keys; }
    if |x.values| == |y.values| { assert x.values.Keys == y.values.Keys; }
  }
}
