/**
 The query language (lib/include/schema.hpp, lib/src/schema.cpp).

 Constraints read the field of their message that belongs to the type of the value at hand;
 a field that is not set reads as its default. `valid` is meant to keep that from mattering:
 the main result says when it does.
 */
module Query {
  import opened Common
  import opened Schema

  // ---- Constraints ----------------------------------------------------------------------

  datatype RelOp = EQ | NOTEQ | LT | LTEQ | GT | GTEQ

  datatype SetOp = IN | NOTIN

  datatype SetValues =
    | Strings(ss: seq<string>)
    | Doubles(ds: seq<real>)
    | Bools(bs: seq<bool>)
    | Ints(iis: seq<int64>)
    | Locations(ls: seq<Location>)
    | NoValues

  datatype Pair =
    | StringPair(s1: string, s2: string)
    | IntPair(i1: int64, i2: int64)
    | DoublePair(d1: real, d2: real)
    | LocationPair(l1: Location, l2: Location)
    | NoPair

  datatype Distance = Distance(center: Location, distance: real)

  datatype Test =
    | InSet(op: SetOp, vals: SetValues)
    | InRange(pair: Pair)
    | Relation(rel: RelOp, val: Value)
    | Near(dist: Distance)
    | NoTest

  datatype Constraint = Constraint(attribute: string, test: Test)

  datatype Expr =
    | Or(es: seq<Expr>)
    | And(es: seq<Expr>)
    | Not(e: Expr)
    | Leaf(c: Constraint)
    | NoExpr

  /** The great-circle distance, `center.distance(l)`. */
  type Metric = (Location, Location) -> real

  // ---- Reading message fields -----------------------------------------------------------

  function AsInt(v: Value): int64 { if v.I? then v.i else 0 }
  function AsDouble(v: Value): real { if v.D? then v.d else 0.0 }
  function AsString(v: Value): string { if v.S? then v.s else "" }
  function AsBool(v: Value): bool { if v.B? then v.b else false }
  function AsLocation(v: Value): Location { if v.L? then v.l else Location(0.0, 0.0) }

  /** `Relation::get<T>`: the constraint's value as one of the type of `like`. */
  function Read(val: Value, like: Variant): (r: Variant)
    ensures TypeOf(r) == TypeOf(like)
  {
    match like
    case VInt(_) => VInt(Truncate(AsInt(val)))
    case VDouble(_) => VDouble(AsDouble(val))
    case VString(_) => VString(AsString(val))
    case VBool(_) => VBool(AsBool(val))
    case VLocation(_) => VLocation(AsLocation(val))
  }

  /** `<` of strings: character by character. */
  predicate StringLess(a: string, b: string) {
    if b == "" then false
    else if a == "" then true
    else a[0] < b[0] || (a[0] == b[0] && StringLess(a[1..], b[1..]))
  }

  /** `<` of two values of one type; locations are ordered by latitude alone. */
  predicate Less(a: Variant, b: Variant)
    requires TypeOf(a) == TypeOf(b)
  {
    match (a, b)
    case (VInt(x), VInt(y)) => x < y
    case (VDouble(x), VDouble(y)) => x < y
    case (VString(x), VString(y)) => StringLess(x, y)
    case (VBool(x), VBool(y)) => !x && y
    case (VLocation(x), VLocation(y)) => x.lat < y.lat
  }

  predicate AtMost(a: Variant, b: Variant)
    requires TypeOf(a) == TypeOf(b)
  {
    match (a, b)
    case (VLocation(x), VLocation(y)) => x.lat <= y.lat
    case _ => !Less(b, a)
  }

  /** The strings agree up to `k`, and there the first ends or has the smaller character. */
  predicate LessAt(a: string, b: string, k: nat) {
    k <= |a| && k < |b| && a[..k] == b[..k] && (k == |a| || a[k] < b[k])
  }

  lemma SamePrefix(a: string, b: string, k: nat)
    requires a != "" && b != "" && a[0] == b[0] && 0 < k <= |a| && k <= |b|
    ensures a[..k] == b[..k] <==> a[1..][..k - 1] == b[1..][..k - 1]
  {
    assert a[..k] == [a[0]] + a[1..k] && b[..k] == [b[0]] + b[1..k];
    assert a[1..][..k - 1] == a[1..k] && b[1..][..k - 1] == b[1..k];
    assert a[1..k] == a[..k][1..] && b[1..k] == b[..k][1..];
  }

  lemma LessAtTail(a: string, b: string, k: nat)
    requires a != "" && b != "" && a[0] == b[0]
    ensures LessAt(a, b, k) <==> k > 0 && LessAt(a[1..], b[1..], k - 1)
  {
    if 0 < k <= |a| && k < |b| { SamePrefix(a, b, k); }
  }

  lemma LessAtHead(a: string, b: string, k: nat)
    requires a == "" || b == "" || a[0] != b[0]
    ensures LessAt(a, b, k) <==> k == 0 && b != "" && (a == "" || a[0] < b[0])
  {
    if 0 < k <= |a| && k < |b| {
      assert a[..k][0] == a[0] && b[..k][0] == b[0];
    }
  }

  /** The order of strings is that of their first difference, the shorter first. */
  lemma {:induction false} StringLessMeaning(a: string, b: string)
    ensures StringLess(a, b) <==> exists k :: LessAt(a, b, k)
  {
    if a != "" && b != "" && a[0] == b[0] {
      StringLessMeaning(a[1..], b[1..]);
      forall k: nat ensures LessAt(a, b, k) <==> k > 0 && LessAt(a[1..], b[1..], k - 1) {
        LessAtTail(a, b, k);
      }
      hide LessAt;
      if k: nat :| LessAt(a[1..], b[1..], k) { assert LessAt(a, b, k + 1); }
    } else {
      forall k: nat ensures LessAt(a, b, k) <==> k == 0 && b != "" && (a == "" || a[0] < b[0]) {
        LessAtHead(a, b, k);
      }
      hide LessAt;
      assert LessAt(a, b, 0) <==> StringLess(a, b);
    }
  }

  predicate Compare(op: RelOp, v: Variant, s: Variant)
    requires TypeOf(v) == TypeOf(s)
  {
    match op
    case EQ => s == v
    case NOTEQ => s != v
    case LT => Less(v, s)
    case LTEQ => AtMost(v, s)
    case GT => Less(s, v)
    case GTEQ => AtMost(s, v)
  }

  predicate CheckSet(op: SetOp, vals: SetValues, v: Variant) {
    var found :=
      match v
      case VInt(i) => vals.Ints? && i in vals.iis
      case VDouble(d) => vals.Doubles? && d in vals.ds
      case VString(s) => vals.Strings? && s in vals.ss
      case VBool(b) => vals.Bools? && b in vals.bs
      case VLocation(l) => vals.Locations? && l in vals.ls;
    if op == NOTIN then !found else found
  }

  predicate Between(a: real, x: real, b: real) {
    if a < b then a <= x <= b else b <= x <= a
  }

  predicate CheckRange(p: Pair, v: Variant) {
    match v
    case VInt(i) =>
      var (a, b) := if p.IntPair? then (p.i1, p.i2) else (0, 0);
      a <= i <= b
    case VDouble(d) =>
      var (a, b) := if p.DoublePair? then (p.d1, p.d2) else (0.0, 0.0);
      a <= d <= b
    case VString(s) =>
      var (a, b) := if p.StringPair? then (p.s1, p.s2) else ("", "");
      !StringLess(s, a) && !StringLess(b, s)
    case VLocation(l) =>
      var zero := Location(0.0, 0.0);
      var (a, b) := if p.LocationPair? then (p.l1, p.l2) else (zero, zero);
      Between(a.lat, l.lat, b.lat) && Between(a.lon, l.lon, b.lon)
    case VBool(_) => false
  }

  predicate CheckDistance(metric: Metric, d: Distance, v: Variant) {
    v.VLocation? && metric(d.center, v.l) <= d.distance
  }

  predicate CheckTest(metric: Metric, t: Test, v: Variant) {
    match t
    case InSet(op, vals) => CheckSet(op, vals, v)
    case InRange(p) => CheckRange(p, v)
    case Relation(op, val) => Compare(op, v, Read(val, v))
    case Near(d) => CheckDistance(metric, d, v)
    case NoTest => false
  }

  /** The bounds of a range of locations may come in either order. */
  lemma BetweenMeaning(a: real, x: real, b: real)
    ensures Between(a, x, b) <==> a <= x <= b || b <= x <= a
  {
  }

  function Zero(typ: Type): Variant {
    match typ
    case INT => VInt(0)
    case DOUBLE => VDouble(0.0)
    case STRING => VString("")
    case BOOL => VBool(false)
    case LOCATION => VLocation(Location(0.0, 0.0))
  }

  /** The test carries constants of the type. */
  predicate Carries(t: Test, typ: Type) {
    match t
    case InSet(_, vals) =>
      (match typ
       case INT => vals.Ints? case DOUBLE => vals.Doubles? case STRING => vals.Strings?
       case BOOL => vals.Bools? case LOCATION => vals.Locations?)
    case InRange(p) =>
      (match typ
       case INT => p.IntPair? case DOUBLE => p.DoublePair? case STRING => p.StringPair?
       case BOOL => false case LOCATION => p.LocationPair?)
    case Relation(_, val) =>
      (match typ
       case INT => val.I? case DOUBLE => val.D? case STRING => val.S?
       case BOOL => val.B? case LOCATION => val.L?)
    case Near(_) => typ == LOCATION
    case NoTest => false
  }

  /** On a value of another type a set is empty and all other constants are zero. */
  lemma MistypedMeaning(metric: Metric, t: Test, v: Variant)
    requires !Carries(t, TypeOf(v))
    ensures CheckTest(metric, t, v) <==>
            match t
            case InSet(op, _) => op == NOTIN
            case InRange(_) => !v.VBool? && v == Zero(TypeOf(v))
            case Relation(op, _) => Compare(op, v, Zero(TypeOf(v)))
            case _ => false
  {
    hide Compare;
  }

  /** Booleans are ordered false first and locations by latitude; `valid` allows neither order. */
  lemma OtherOrders(x: bool, y: bool, p: Location, q: Location)
    ensures Compare(LT, VBool(x), VBool(y)) <==> !x && y
    ensures Compare(LTEQ, VBool(x), VBool(y)) <==> !x || y
    ensures Compare(LT, VLocation(p), VLocation(q)) <==> p.lat < q.lat
    ensures Compare(LTEQ, VLocation(p), VLocation(q)) <==> p.lat <= q.lat
    ensures forall v: Variant, w: Variant | TypeOf(v) == TypeOf(w) ::
              && (Compare(GT, v, w) <==> Compare(LT, w, v))
              && (Compare(GTEQ, v, w) <==> Compare(LTEQ, w, v))
              && (Compare(NOTEQ, v, w) <==> !Compare(EQ, v, w))
  {
  }

  // ---- The static check -----------------------------------------------------------------

  predicate ValidTest(t: Test, typ: Type) {
    match t
    case InSet(_, vals) =>
      (match vals
       case Strings(_) => typ == STRING
       case Ints(_) => typ == INT
       case Doubles(_) => typ == DOUBLE
       case Locations(_) => typ == LOCATION
       case Bools(_) => typ == BOOL
       case NoValues => false)
    case InRange(p) =>
      (match p
       case StringPair(_, _) => typ == STRING
       case IntPair(_, _) => typ == INT
       case DoublePair(_, _) => typ == DOUBLE
       case LocationPair(_, _) => typ == LOCATION
       case NoPair => false)
    case Relation(op, val) =>
      var equal := op == EQ || op == NOTEQ;
      (match val
       case S(_) => typ == STRING
       case I(_) => typ == INT
       case D(_) => typ == DOUBLE
       case L(_) => typ == LOCATION && equal
       case B(_) => typ == BOOL && equal
       case NotSet => false)
    case Near(_) => typ == LOCATION
    case NoTest => false
  }

  predicate ValidConstraint(c: Constraint, dm: DataModel) {
    var att := Find(dm.attributes, c.attribute);
    att.Some? && ValidTest(c.test, att.value.typ)
  }

  predicate Valid(e: Expr, dm: DataModel)
    decreases e, 1
  {
    match e
    case Or(es) => AllValid(es, dm) && |es| > 1
    case And(es) => AllValid(es, dm) && |es| > 1
    case Not(e) => Valid(e, dm)
    case Leaf(c) => ValidConstraint(c, dm)
    case NoExpr => false
  }

  predicate AllValid(es: seq<Expr>, dm: DataModel)
    decreases es, 0
  {
    es == [] || (Valid(es[0], dm) && AllValid(es[1..], dm))
  }

  /** The expression and all expressions inside it. */
  function Parts(e: Expr): seq<Expr>
    decreases e, 1
  {
    [e] + match e
          case Or(es) => PartsOfAll(es)
          case And(es) => PartsOfAll(es)
          case Not(x) => Parts(x)
          case _ => []
  }

  function PartsOfAll(es: seq<Expr>): seq<Expr>
    decreases es, 0
  {
    if es == [] then [] else Parts(es[0]) + PartsOfAll(es[1..])
  }

  /** What a single node has to be like. */
  predicate NodeOk(e: Expr, dm: DataModel) {
    match e
    case Or(es) => |es| >= 2
    case And(es) => |es| >= 2
    case Not(_) => true
    case Leaf(c) => ValidConstraint(c, dm)
    case NoExpr => false
  }

  ghost predicate NodesOk(es: seq<Expr>, dm: DataModel) {
    forall k | 0 <= k < |es| :: NodeOk(es[k], dm)
  }

  lemma NodesOkAppend(a: seq<Expr>, b: seq<Expr>, dm: DataModel)
    ensures NodesOk(a + b, dm) <==> NodesOk(a, dm) && NodesOk(b, dm)
  {
    hide NodeOk;
    assert forall k | 0 <= k < |a| :: a[k] == (a + b)[k];
    assert forall k | 0 <= k < |b| :: b[k] == (a + b)[|a| + k];
  }

  lemma NodesOkOne(e: Expr, dm: DataModel)
    ensures NodesOk([e], dm) <==> NodeOk(e, dm)
  {
    hide NodeOk;
    assert [e][0] == e;
  }

  /** Valid means: nothing empty inside, no junction of fewer than two, and every constraint valid. */
  lemma {:induction false} ValidMeaning(e: Expr, dm: DataModel)
    ensures Valid(e, dm) <==> NodesOk(Parts(e), dm)
    decreases e, 1
  {
    hide ValidConstraint;
    NodesOkOne(e, dm);
    match e
    case Or(es) =>
      AllValidMeaning(es, dm);
      NodesOkAppend([e], PartsOfAll(es), dm);
    case And(es) =>
      AllValidMeaning(es, dm);
      NodesOkAppend([e], PartsOfAll(es), dm);
    case Not(x) =>
      ValidMeaning(x, dm);
      NodesOkAppend([e], Parts(x), dm);
    case _ => assert Parts(e) == [e];
  }

  lemma {:induction false} AllValidMeaning(es: seq<Expr>, dm: DataModel)
    ensures AllValid(es, dm) <==> NodesOk(PartsOfAll(es), dm)
    decreases es, 0
  {
    hide NodeOk;
    if es != [] {
      ValidMeaning(es[0], dm);
      AllValidMeaning(es[1..], dm);
      NodesOkAppend(Parts(es[0]), PartsOfAll(es[1..]), dm);
    }
  }

  // ---- The two evaluators ---------------------------------------------------------------

  /** Over one value: attribute names are not looked at. */
  predicate CheckValue(metric: Metric, e: Expr, v: Variant)
    decreases e, 1
  {
    match e
    case Or(es) => AnyValue(metric, es, v)
    case And(es) => EveryValue(metric, es, v)
    case Not(e) => !CheckValue(metric, e, v)
    case Leaf(c) => CheckTest(metric, c.test, v)
    case NoExpr => false
  }

  predicate AnyValue(metric: Metric, es: seq<Expr>, v: Variant)
    decreases es, 0
  {
    es != [] && (CheckValue(metric, es[0], v) || AnyValue(metric, es[1..], v))
  }

  predicate EveryValue(metric: Metric, es: seq<Expr>, v: Variant)
    decreases es, 0
  {
    es == [] || (CheckValue(metric, es[0], v) && EveryValue(metric, es[1..], v))
  }

  /** Over the values of an instance: a missing attribute fails its constraint. */
  predicate Check(metric: Metric, e: Expr, values: map<string, Variant>)
    decreases e, 1
  {
    match e
    case Or(es) => Any(metric, es, values)
    case And(es) => Every(metric, es, values)
    case Not(e) => !Check(metric, e, values)
    case Leaf(c) => c.attribute in values && CheckTest(metric, c.test, values[c.attribute])
    case NoExpr => false
  }

  predicate Any(metric: Metric, es: seq<Expr>, values: map<string, Variant>)
    decreases es, 0
  {
    es != [] && (Check(metric, es[0], values) || Any(metric, es[1..], values))
  }

  predicate Every(metric: Metric, es: seq<Expr>, values: map<string, Variant>)
    decreases es, 0
  {
    es == [] || (Check(metric, es[0], values) && Every(metric, es[1..], values))
  }

  /** A disjunction holds when some part does, a conjunction when all do; the same over one value. */
  lemma {:induction false} JunctionMeaning(metric: Metric, es: seq<Expr>, values: map<string, Variant>, v: Variant)
    ensures Check(metric, Or(es), values) <==> exists k :: 0 <= k < |es| && Check(metric, es[k], values)
    ensures Check(metric, And(es), values) <==> forall k | 0 <= k < |es| :: Check(metric, es[k], values)
    ensures CheckValue(metric, Or(es), v) <==> exists k :: 0 <= k < |es| && CheckValue(metric, es[k], v)
    ensures CheckValue(metric, And(es), v) <==> forall k | 0 <= k < |es| :: CheckValue(metric, es[k], v)
    decreases |es|
  {
    if es != [] {
      JunctionMeaning(metric, es[1..], values, v);
      assert forall k | 0 < k < |es| :: es[k] == es[1..][k - 1];
      assert Check(metric, Or(es), values) <==>
             Check(metric, es[0], values) || Check(metric, Or(es[1..]), values);
      assert Check(metric, And(es), values) <==>
             Check(metric, es[0], values) && Check(metric, And(es[1..]), values);
    }
  }

  /** A set holds the values listed in it, of their own type; NOTIN is the opposite. */
  lemma SetMeaning(metric: Metric, vals: SetValues, v: Variant)
    ensures CheckTest(metric, InSet(NOTIN, vals), v) <==> !CheckTest(metric, InSet(IN, vals), v)
    ensures CheckTest(metric, InSet(IN, vals), v) <==>
            match (vals, v)
            case (Ints(xs), VInt(i)) => exists k :: 0 <= k < |xs| && xs[k] == i
            case (Doubles(xs), VDouble(d)) => exists k :: 0 <= k < |xs| && xs[k] == d
            case (Strings(xs), VString(s)) => exists k :: 0 <= k < |xs| && xs[k] == s
            case (Bools(xs), VBool(b)) => exists k :: 0 <= k < |xs| && xs[k] == b
            case (Locations(xs), VLocation(l)) => exists k :: 0 <= k < |xs| && xs[k] == l
            case _ => false
  {
  }

  // ---- A typed evaluator ----------------------------------------------------------------

  /** How an integer literal of a relation counts: as the `int` it is read into, or as written. */
  datatype Reading = AsRead | AsWritten

  function LiteralInt(reading: Reading, y: int64): int {
    if reading.AsRead? then Truncate(y) else y
  }

  /**
   What a test means for a value of its own type. It is undefined on any other value, and on
   an order of booleans or locations.
   */
  function TypedTest(metric: Metric, reading: Reading, t: Test, v: Variant): Option<bool> {
    match (t, v)
    case (InSet(op, Ints(xs)), VInt(i)) => Some((op == IN) == (i in xs))
    case (InSet(op, Doubles(xs)), VDouble(d)) => Some((op == IN) == (d in xs))
    case (InSet(op, Strings(xs)), VString(s)) => Some((op == IN) == (s in xs))
    case (InSet(op, Bools(xs)), VBool(b)) => Some((op == IN) == (b in xs))
    case (InSet(op, Locations(xs)), VLocation(l)) => Some((op == IN) == (l in xs))
    case (InRange(IntPair(a, b)), VInt(i)) => Some(a <= i <= b)
    case (InRange(DoublePair(a, b)), VDouble(d)) => Some(a <= d <= b)
    case (InRange(StringPair(a, b)), VString(s)) => Some(!StringLess(s, a) && !StringLess(b, s))
    case (InRange(LocationPair(a, b)), VLocation(l)) =>
      Some(Between(a.lat, l.lat, b.lat) && Between(a.lon, l.lon, b.lon))
    case (Relation(op, I(y)), VInt(x)) => Some(CompareInts(op, x, LiteralInt(reading, y)))
    case (Relation(op, D(y)), VDouble(x)) => Some(CompareReals(op, x, y))
    case (Relation(op, S(y)), VString(x)) => Some(CompareStrings(op, x, y))
    case (Relation(EQ, B(y)), VBool(x)) => Some(x == y)
    case (Relation(NOTEQ, B(y)), VBool(x)) => Some(x != y)
    case (Relation(EQ, L(y)), VLocation(x)) => Some(x == y)
    case (Relation(NOTEQ, L(y)), VLocation(x)) => Some(x != y)
    case (Near(d), VLocation(l)) => Some(metric(d.center, l) <= d.distance)
    case _ => None
  }

  predicate CompareInts(op: RelOp, x: int, y: int) {
    match op
    case EQ => x == y case NOTEQ => x != y
    case LT => x < y case LTEQ => x <= y case GT => x > y case GTEQ => x >= y
  }

  predicate CompareReals(op: RelOp, x: real, y: real) {
    match op
    case EQ => x == y case NOTEQ => x != y
    case LT => x < y case LTEQ => x <= y case GT => x > y case GTEQ => x >= y
  }

  predicate CompareStrings(op: RelOp, x: string, y: string) {
    match op
    case EQ => x == y case NOTEQ => x != y
    case LT => StringLess(x, y) case LTEQ => !StringLess(y, x)
    case GT => StringLess(y, x) case GTEQ => !StringLess(x, y)
  }

  /** All parts are evaluated; one undefined part makes the whole undefined. */
  function TypedEval(metric: Metric, reading: Reading, e: Expr, values: map<string, Variant>): Option<bool>
    decreases e, 1
  {
    match e
    case Or(es) =>
      var rs := TypedEvals(metric, reading, es, values);
      if rs.Some? then Some(true in rs.value) else None
    case And(es) =>
      var rs := TypedEvals(metric, reading, es, values);
      if rs.Some? then Some(false !in rs.value) else None
    case Not(e) =>
      var r := TypedEval(metric, reading, e, values);
      if r.Some? then Some(!r.value) else None
    case Leaf(c) =>
      if c.attribute in values then TypedTest(metric, reading, c.test, values[c.attribute]) else Some(false)
    case NoExpr => Some(false)
  }

  function TypedEvals(metric: Metric, reading: Reading, es: seq<Expr>, values: map<string, Variant>): Option<seq<bool>>
    decreases es, 0
  {
    if es == [] then Some([]) else
      var r, rs := TypedEval(metric, reading, es[0], values), TypedEvals(metric, reading, es[1..], values);
      if r.Some? && rs.Some? then Some([r.value] + rs.value) else None
  }

  /** One test: typed evaluation is defined exactly on the types `valid` asks for. */
  lemma TestSoundness(metric: Metric, t: Test, v: Variant)
    ensures forall reading :: TypedTest(metric, reading, t, v).Some? <==> ValidTest(t, TypeOf(v))
    ensures ValidTest(t, TypeOf(v)) ==> TypedTest(metric, AsRead, t, v) == Some(CheckTest(metric, t, v))
  {
  }

  /** Wherever the typed evaluator is defined, the code computes the same verdict. */
  lemma {:induction false} TypedIsChecked(metric: Metric, e: Expr, values: map<string, Variant>)
    requires TypedEval(metric, AsRead, e, values).Some?
    ensures TypedEval(metric, AsRead, e, values).value == Check(metric, e, values)
    decreases e, 1
  {
    match e
    case Or(es) => TypedsAreChecked(metric, es, values);
    case And(es) => TypedsAreChecked(metric, es, values);
    case Not(e) => TypedIsChecked(metric, e, values);
    case Leaf(c) => if c.attribute in values { TestSoundness(metric, c.test, values[c.attribute]); }
    case NoExpr =>
  }

  lemma {:induction false} TypedsAreChecked(metric: Metric, es: seq<Expr>, values: map<string, Variant>)
    requires TypedEvals(metric, AsRead, es, values).Some?
    ensures true in TypedEvals(metric, AsRead, es, values).value <==> Any(metric, es, values)
    ensures false !in TypedEvals(metric, AsRead, es, values).value <==> Every(metric, es, values)
    decreases es, 0
  {
    if es != [] {
      TypedIsChecked(metric, es[0], values);
      TypedsAreChecked(metric, es[1..], values);
    }
  }

  /** Every constraint on an attribute that is present suits the type of its value. */
  predicate WellTyped(e: Expr, values: map<string, Variant>)
    decreases e, 1
  {
    match e
    case Or(es) => AllWellTyped(es, values)
    case And(es) => AllWellTyped(es, values)
    case Not(e) => WellTyped(e, values)
    case Leaf(c) =>
      c.attribute in values ==> ValidTest(c.test, TypeOf(values[c.attribute]))
    case NoExpr => true
  }

  predicate AllWellTyped(es: seq<Expr>, values: map<string, Variant>)
    decreases es, 0
  {
    es == [] || (WellTyped(es[0], values) && AllWellTyped(es[1..], values))
  }

  /** The typed evaluator is defined exactly on the well-typed expressions. */
  lemma {:induction false} DefinedIfWellTyped(
    metric: Metric, reading: Reading, e: Expr, values: map<string, Variant>)
    ensures TypedEval(metric, reading, e, values).Some? <==> WellTyped(e, values)
    decreases e, 1
  {
    match e
    case Or(es) => AllDefinedIfWellTyped(metric, reading, es, values);
    case And(es) => AllDefinedIfWellTyped(metric, reading, es, values);
    case Not(e) => DefinedIfWellTyped(metric, reading, e, values);
    case Leaf(c) => if c.attribute in values { TestSoundness(metric, c.test, values[c.attribute]); }
    case NoExpr =>
  }

  lemma {:induction false} AllDefinedIfWellTyped(
    metric: Metric, reading: Reading, es: seq<Expr>, values: map<string, Variant>)
    ensures TypedEvals(metric, reading, es, values).Some? <==> AllWellTyped(es, values)
    decreases es, 0
  {
    if es != [] {
      DefinedIfWellTyped(metric, reading, es[0], values);
      AllDefinedIfWellTyped(metric, reading, es[1..], values);
    }
  }

  /** The attributes both sides know have the same type on both. */
  predicate TypesAgree(dm: DataModel, values: map<string, Variant>) {
    forall k | k in values && k in Names(dm.attributes) ::
      Find(dm.attributes, k).value.typ == TypeOf(values[k])
  }

  lemma {:induction false} ValidIsWellTyped(e: Expr, dm: DataModel, values: map<string, Variant>)
    requires Valid(e, dm) && TypesAgree(dm, values)
    ensures WellTyped(e, values)
    decreases e, 1
  {
    match e
    case Or(es) => AllValidAreWellTyped(es, dm, values);
    case And(es) => AllValidAreWellTyped(es, dm, values);
    case Not(e) => ValidIsWellTyped(e, dm, values);
    case Leaf(_) =>
  }

  lemma {:induction false} AllValidAreWellTyped(es: seq<Expr>, dm: DataModel, values: map<string, Variant>)
    requires AllValid(es, dm) && TypesAgree(dm, values)
    ensures AllWellTyped(es, values)
    decreases es, 0
  {
    if es != [] {
      ValidIsWellTyped(es[0], dm, values);
      AllValidAreWellTyped(es[1..], dm, values);
    }
  }

  /**
   Type soundness: a valid expression over the values of an instance of the same model is
   never evaluated on a value of another type, and its verdict is the typed one.
   */
  lemma ValidIsSound(metric: Metric, e: Expr, dm: DataModel, values: map<string, Variant>)
    requires Valid(e, dm) && Conforms(dm, values)
    ensures TypedEval(metric, AsRead, e, values) == Some(Check(metric, e, values))
  {
    ValidIsWellTyped(e, dm, values);
    DefinedIfWellTyped(metric, AsRead, e, values);
    TypedIsChecked(metric, e, values);
  }

  /** Some constant of the type. */
  function Literal(typ: Type): Value {
    match typ
    case INT => I(0)
    case DOUBLE => D(0.0)
    case STRING => S("")
    case BOOL => B(false)
    case LOCATION => L(Location(0.0, 0.0))
  }

  /** An attribute of another type is enough for a valid expression to be evaluated on it. */
  lemma Mistyped(metric: Metric, dm: DataModel, values: map<string, Variant>, k: string)
    requires k in values && k in Names(dm.attributes)
    requires Find(dm.attributes, k).value.typ != TypeOf(values[k])
    ensures var e := Leaf(Constraint(k, Relation(EQ, Literal(Find(dm.attributes, k).value.typ))));
            Valid(e, dm) && TypedEval(metric, AsRead, e, values) == None
  {
    hide Find, Names, CheckTest;
    TestSoundness(metric, Relation(EQ, Literal(Find(dm.attributes, k).value.typ)), values[k]);
  }

  /**
   Every valid expression is evaluated as typed on some values exactly when no attribute of
   theirs has another type in the model; where they came from does not matter.
   */
  lemma SoundIffTypesAgree(metric: Metric, dm: DataModel, values: map<string, Variant>)
    ensures TypesAgree(dm, values) <==>
            forall e :: Valid(e, dm) ==> TypedEval(metric, AsRead, e, values) == Some(Check(metric, e, values))
  {
    hide Valid, TypedEval, Check, WellTyped, Find, Names;
    if TypesAgree(dm, values) {
      forall e | Valid(e, dm)
        ensures TypedEval(metric, AsRead, e, values) == Some(Check(metric, e, values))
      {
        ValidIsWellTyped(e, dm, values);
        DefinedIfWellTyped(metric, AsRead, e, values);
        TypedIsChecked(metric, e, values);
      }
    } else {
      var k :| k in values && k in Names(dm.attributes)
               && Find(dm.attributes, k).value.typ != TypeOf(values[k]);
      Mistyped(metric, dm, values, k);
    }
  }

  // ---- The width of integer literals ----------------------------------------------------

  const INT_MIN := -0x8000_0000
  const INT_MAX := 0x7FFF_FFFF

  /**
   The literal decides every comparison as it is written although it is read into an `int`:
   it fits, or it lies beyond the end it is read as, on the side where that makes no difference.
   */
  predicate ReadsRight(op: RelOp, y: int64) {
    || INT_MIN <= y <= INT_MAX
    || ((op == LT || op == GTEQ) && y < INT_MIN && Truncate(y) == INT_MIN)
    || ((op == LTEQ || op == GT) && y > INT_MAX && Truncate(y) == INT_MAX)
  }

  /** For every operator the comparison in the code is the one written exactly on those literals. */
  lemma LiteralMeaning(op: RelOp, y: int64)
    ensures (forall x: int32 :: Compare(op, VInt(x), Read(I(y), VInt(x))) == CompareInts(op, x, y))
            <==> ReadsRight(op, y)
  {
    if !ReadsRight(op, y) {
      var x: int32 := Truncate(y);
      var low: int32, high: int32 := INT_MIN, INT_MAX;
      assert !(Compare(op, VInt(x), Read(I(y), VInt(x))) == CompareInts(op, x, y)
               && Compare(op, VInt(low), Read(I(y), VInt(low))) == CompareInts(op, low, y)
               && Compare(op, VInt(high), Read(I(y), VInt(high))) == CompareInts(op, high, y));
    }
  }

  /** Every integer relation of the expression has a literal that reads right. */
  predicate LiteralsReadRight(e: Expr)
    decreases e, 1
  {
    match e
    case Or(es) => AllReadRight(es)
    case And(es) => AllReadRight(es)
    case Not(e) => LiteralsReadRight(e)
    case Leaf(c) => c.test.Relation? && c.test.val.I? ==> ReadsRight(c.test.rel, c.test.val.i)
    case NoExpr => true
  }

  predicate AllReadRight(es: seq<Expr>)
    decreases es, 0
  {
    es == [] || (LiteralsReadRight(es[0]) && AllReadRight(es[1..]))
  }

  lemma TestAsWritten(metric: Metric, t: Test, v: Variant)
    requires t.Relation? && t.val.I? ==> ReadsRight(t.rel, t.val.i)
    ensures TypedTest(metric, AsWritten, t, v) == TypedTest(metric, AsRead, t, v)
  {
  }

  /** With such literals an expression means what is written, over unbounded integers. */
  lemma {:induction false} MeansAsWritten(metric: Metric, e: Expr, values: map<string, Variant>)
    requires LiteralsReadRight(e)
    ensures TypedEval(metric, AsWritten, e, values) == TypedEval(metric, AsRead, e, values)
    decreases e, 1
  {
    match e
    case Or(es) => AllMeanAsWritten(metric, es, values);
    case And(es) => AllMeanAsWritten(metric, es, values);
    case Not(e) => MeansAsWritten(metric, e, values);
    case Leaf(c) => if c.attribute in values { TestAsWritten(metric, c.test, values[c.attribute]); }
    case NoExpr =>
  }

  lemma {:induction false} AllMeanAsWritten(metric: Metric, es: seq<Expr>, values: map<string, Variant>)
    requires AllReadRight(es)
    ensures TypedEvals(metric, AsWritten, es, values) == TypedEvals(metric, AsRead, es, values)
    decreases es, 0
  {
    if es != [] {
      MeansAsWritten(metric, es[0], values);
      AllMeanAsWritten(metric, es[1..], values);
    }
  }

  /** A valid query for 2^32 matches 0. */
  lemma WideLiteral(metric: Metric)
    ensures var e := Leaf(Constraint("a", Relation(EQ, I(0x1_0000_0000))));
            var dm := DataModel("m", [Attribute("a", INT, true)]);
            var values := map["a" := VInt(0)];
            && Valid(e, dm) && Conforms(dm, values) && Check(metric, e, values)
            && TypedEval(metric, AsWritten, e, values) == Some(false)
  {
  }

  // ---- Query models ---------------------------------------------------------------------

  datatype QueryModel = QueryModel(constraints: seq<Expr>, model: Option<DataModel>)

  /** The constructor: at least one constraint, and all valid for the model if there is one. */
  method NewQueryModel(constraints: seq<Expr>, model: Option<DataModel>)
    returns (r: Result<QueryModel, string>)
    ensures r.Ok? <==> constraints != [] && (model.Some? ==> AllValid(constraints, model.value))
    ensures r.Ok? ==> r.value == QueryModel(constraints, model) && QueryValid(r.value)
  {
    if |constraints| < 1 {
      return Err("Not enough parameters.");
    }
    if model.Some? {
      assert constraints[0..] == constraints;
      for i := 0 to |constraints|
        invariant AllValid(constraints, model.value) <==> AllValid(constraints[i..], model.value)
      {
        assert constraints[i..][1..] == constraints[i + 1..];
        if !Valid(constraints[i], model.value) {
          return Err("Mismatch between constraints in data model.");
        }
      }
    }
    return Ok(QueryModel(constraints, model));
  }

  /** `valid()`: without a model there is nothing to check. */
  predicate QueryValid(q: QueryModel) {
    q.constraints != [] && (q.model.Some? ==> AllValid(q.constraints, q.model.value))
  }

  /** `check(instance)`: models are compared by name only. */
  predicate QueryCheck(metric: Metric, q: QueryModel, i: Instance) {
    && (q.model.Some? ==> q.model.value.name == i.model.name)
    && Every(metric, q.constraints, i.values)
  }

  /**
   A query built for the instance's own model means what its constraints mean, and what is
   written if its literals read right.
   */
  lemma QueryIsSound(metric: Metric, q: QueryModel, dm: DataModel, i: Instance)
    requires QueryValid(q) && q.model == Some(dm)
    requires i.model == dm && Conforms(dm, i.values)
    ensures TypedEval(metric, AsRead, And(q.constraints), i.values) == Some(QueryCheck(metric, q, i))
    ensures AllReadRight(q.constraints) ==>
              TypedEval(metric, AsWritten, And(q.constraints), i.values) == Some(QueryCheck(metric, q, i))
  {
    var all := And(q.constraints);
    AllValidAreWellTyped(q.constraints, dm, i.values);
    DefinedIfWellTyped(metric, AsRead, all, i.values);
    TypedIsChecked(metric, all, i.values);
    if AllReadRight(q.constraints) { MeansAsWritten(metric, all, i.values); }
    hide TypedEval, TypedEvals, WellTyped;
  }

  /** A query with a model matches no instance of a model of another name. */
  lemma OtherNameNeverMatches(metric: Metric, q: QueryModel, i: Instance)
    requires q.model.Some? && q.model.value.name != i.model.name
    ensures !QueryCheck(metric, q, i)
  {
  }

  /**
   With no model, or one of the instance's name, the verdict is the typed one of the
   conjunction whenever the constraints suit the values they meet.
   */
  lemma VerdictIsTyped(metric: Metric, q: QueryModel, i: Instance)
    requires AllWellTyped(q.constraints, i.values)
    requires q.model.Some? ==> q.model.value.name == i.model.name
    ensures TypedEval(metric, AsRead, And(q.constraints), i.values) == Some(QueryCheck(metric, q, i))
  {
    DefinedIfWellTyped(metric, AsRead, And(q.constraints), i.values);
    TypedIsChecked(metric, And(q.constraints), i.values);
    hide TypedEval, TypedEvals, WellTyped;
  }

  /** The instance's model counts by its name only. */
  lemma OnlyNameCounts(metric: Metric, q: QueryModel, i: Instance, other: DataModel)
    requires other.name == i.model.name
    ensures QueryCheck(metric, q, i.(model := other)) == QueryCheck(metric, q, i)
  {
  }

  /** Another model of the same name defeats it: an empty string passes for the number 7. */
  lemma SameNameOtherModel(metric: Metric)
    ensures var dm := DataModel("m", [Attribute("a", INT, true)]);
            var other := DataModel("m", [Attribute("a", STRING, true)]);
            var q := QueryModel([Leaf(Constraint("a", Relation(EQ, I(7))))], Some(dm));
            var i := Instance(other, [KeyValue("a", S(""))], map["a" := VString("")]);
            && QueryValid(q) && Conforms(other, i.values)
            && QueryCheck(metric, q, i) && TypedEval(metric, AsRead, And(q.constraints), i.values) == None
  {
  }

  // ---- Meaning laws ---------------------------------------------------------------------

  predicate OnlyNames(e: Expr, a: string)
    decreases e, 1
  {
    match e
    case Or(es) => AllOnlyName(es, a)
    case And(es) => AllOnlyName(es, a)
    case Not(e) => OnlyNames(e, a)
    case Leaf(c) => c.attribute == a
    case NoExpr => true
  }

  predicate AllOnlyName(es: seq<Expr>, a: string)
    decreases es, 0
  {
    es == [] || (OnlyNames(es[0], a) && AllOnlyName(es[1..], a))
  }

  /** On one attribute the two evaluators agree. */
  lemma {:induction false} EvaluatorsAgree(metric: Metric, e: Expr, a: string, values: map<string, Variant>)
    requires OnlyNames(e, a) && a in values
    ensures Check(metric, e, values) <==> CheckValue(metric, e, values[a])
    decreases e, 1
  {
    match e
    case Or(es) => AllEvaluatorsAgree(metric, es, a, values);
    case And(es) => AllEvaluatorsAgree(metric, es, a, values);
    case Not(e) => EvaluatorsAgree(metric, e, a, values);
    case Leaf(_) =>
    case NoExpr =>
  }

  lemma {:induction false} AllEvaluatorsAgree(
    metric: Metric, es: seq<Expr>, a: string, values: map<string, Variant>)
    requires AllOnlyName(es, a) && a in values
    ensures Any(metric, es, values) <==> AnyValue(metric, es, values[a])
    ensures Every(metric, es, values) <==> EveryValue(metric, es, values[a])
    decreases es, 0
  {
    if es != [] {
      EvaluatorsAgree(metric, es[0], a, values);
      AllEvaluatorsAgree(metric, es[1..], a, values);
    }
  }

  predicate NotFree(e: Expr)
    decreases e, 1
  {
    match e
    case Or(es) => AllNotFree(es)
    case And(es) => AllNotFree(es)
    case Not(_) => false
    case Leaf(_) => true
    case NoExpr => true
  }

  predicate AllNotFree(es: seq<Expr>)
    decreases es, 0
  {
    es == [] || (NotFree(es[0]) && AllNotFree(es[1..]))
  }

  /** `values` with more attributes keeps every verdict that holds, if there is no negation. */
  lemma {:induction false} MoreValuesKeepVerdict(
    metric: Metric, e: Expr, x: map<string, Variant>, y: map<string, Variant>)
    requires NotFree(e) && (forall k | k in x :: k in y && y[k] == x[k])
    ensures Check(metric, e, x) ==> Check(metric, e, y)
    decreases e, 1
  {
    match e
    case Or(es) => MoreValuesKeepVerdicts(metric, es, x, y);
    case And(es) => MoreValuesKeepVerdicts(metric, es, x, y);
    case Leaf(_) =>
    case NoExpr =>
  }

  lemma {:induction false} MoreValuesKeepVerdicts(
    metric: Metric, es: seq<Expr>, x: map<string, Variant>, y: map<string, Variant>)
    requires AllNotFree(es) && (forall k | k in x :: k in y && y[k] == x[k])
    ensures Any(metric, es, x) ==> Any(metric, es, y)
    ensures Every(metric, es, x) ==> Every(metric, es, y)
    decreases es, 0
  {
    if es != [] {
      MoreValuesKeepVerdict(metric, es[0], x, y);
      MoreValuesKeepVerdicts(metric, es[1..], x, y);
    }
  }

  /** A negation-free query that matches an instance matches every one `==` to it. */
  lemma EqualInstancesMatch(metric: Metric, q: QueryModel, x: Instance, y: Instance)
    requires AllNotFree(q.constraints) && Same(x, y) && QueryCheck(metric, q, x)
    ensures QueryCheck(metric, q, y)
  {
    MoreValuesKeepVerdicts(metric, q.constraints, x.values, y.values);
  }

  /** With a negation that fails: `x == y`, and the query matches x but not y. */
  lemma NegationDistinguishes(metric: Metric)
    ensures var dm := DataModel("m", [Attribute("a", INT, false)]);
            var q := QueryModel([Not(Leaf(Constraint("a", Relation(EQ, I(1)))))], Some(dm));
            var x := Instance(dm, [], map[]);
            var y := Instance(dm, [KeyValue("a", I(1))], map["a" := VInt(1)]);
            QueryValid(q) && Same(x, y) && QueryCheck(metric, q, x) && !QueryCheck(metric, q, y)
  {
  }

  /** A negation of an attribute's own value matches without the attribute and not with it. */
  lemma OwnValueTells(metric: Metric, k: string, x: Instance, y: Instance)
    requires k in y.values && k !in x.values
    ensures var q := QueryModel([Not(Leaf(Constraint(k, Relation(EQ, Encode(y.values[k])))))], None);
            QueryValid(q) && QueryCheck(metric, q, x) && !QueryCheck(metric, q, y)
  {
    var own := Leaf(Constraint(k, Relation(EQ, Encode(y.values[k]))));
    assert Read(Encode(y.values[k]), y.values[k]) == y.values[k];
    assert Check(metric, own, y.values) && !Check(metric, own, x.values);
    SingleConstraint(metric, Not(own), x.values);
    SingleConstraint(metric, Not(own), y.values);
    assert Check(metric, Not(own), x.values) && !Check(metric, Not(own), y.values);
    hide Check, Every;
  }

  lemma SingleConstraint(metric: Metric, e: Expr, values: map<string, Variant>)
    ensures Every(metric, [e], values) <==> Check(metric, e, values)
  {
    assert [e][1..] == [];
  }

  /**
   Over all valid queries, a match of x carries over to a y with `x == y` exactly when y has
   no further values: both sides are then equal, and `SameIsOneSided` says that comparing the
   two sizes decides it.
   */
  lemma EqualityDecidesQueries(metric: Metric, x: Instance, y: Instance)
    requires Same(x, y)
    ensures (forall q :: QueryValid(q) && QueryCheck(metric, q, x) ==> QueryCheck(metric, q, y))
            <==> |x.values| == |y.values|
    ensures |x.values| == |y.values| <==> x.values == y.values
  {
    SameIsOneSided(x, y);
    if |x.values| != |y.values| {
      var k :| k in y.values && k !in x.values;
      OwnValueTells(metric, k, x, y);
    }
    hide QueryCheck, QueryValid;
  }

  /** An instance and the one rebuilt from its message get the same verdict from every query. */
  lemma VerdictSurvivesWire(metric: Metric, q: QueryModel, i: Instance)
    requires Lists(i.wire, i.values)
    ensures QueryCheck(metric, q, Instance(i.model, i.wire, Rebuild(i.wire))) == QueryCheck(metric, q, i)
  {
    WireRoundTrip(i.wire, i.values);
  }
}
