/**
 The in-memory BTIDES data: a list of entries, one per device, each with named arrays of JSON objects.
 The insertion routines as functions on values, and what any sequence of them leaves behind.
 */
module BtidesModel {
  import opened Collections
  import opened Text
  import opened Wrappers

  /** A JSON value; booleans and numbers compare by value, objects compare without regard to order. */
  datatype Value = Null | Num(n: real) | Str(s: string) | Arr(items: seq<Value>) | Obj(fields: map<string, Value>)

  type Item = map<string, Value>

  predicate IsPrimitive(v: Value) {
    v.Num? || v.Str?
  }

  // ---------- Comparing tier-1 objects ----------

  /** `non_recursive_primitive_equality_check`: same keys, and equal wherever both values are primitive. */
  predicate PrimitivelyEqual(x: Item, y: Item) {
    x.Keys == y.Keys && forall k :: k in x && k in y && IsPrimitive(x[k]) && IsPrimitive(y[k]) ==> x[k] == y[k]
  }

  /** Only numbers and strings tell objects with the same keys apart, not arrays, objects or null. */
  lemma ComparisonExactly(x: Item, y: Item)
    ensures PrimitivelyEqual(x, y) <==>
            x.Keys == y.Keys && forall k :: k in x && k in y ==>
              match (x[k], y[k])
              case (Num(m), Num(n)) => m == n
              case (Str(s), Str(t)) => s == t
              case (Num(_), Str(_)) => false
              case (Str(_), Num(_)) => false
              case _ => true
  {
  }

  /** The keys of an object with its primitive values, the nested ones blanked out. */
  function Header(x: Item): map<string, Option<Value>> {
    map k | k in x :: if IsPrimitive(x[k]) then Some(x[k]) else None
  }

  predicate SameKinds(x: Item, y: Item) {
    forall k :: k in x && k in y ==> IsPrimitive(x[k]) == IsPrimitive(y[k])
  }

  /** The shallow comparison is equality of headers exactly when fields keep their kind. */
  lemma HeaderDecides(x: Item, y: Item)
    ensures PrimitivelyEqual(x, y) && SameKinds(x, y) <==> Header(x) == Header(y)
  {
    if Header(x) == Header(y) {
      assert x.Keys == Header(x).Keys && y.Keys == Header(y).Keys;
      forall k | k in x && k in y ensures IsPrimitive(x[k]) == IsPrimitive(y[k]) &&
            (IsPrimitive(x[k]) ==> x[k] == y[k]) {
        assert Header(x)[k] == Header(y)[k];
      }
    }
  }

  /** Without fixed kinds it is not even transitive. */
  lemma NotTransitive(k: string)
    ensures PrimitivelyEqual(map[k := Num(1.0)], map[k := Arr([])]) &&
                PrimitivelyEqual(map[k := Arr([])], map[k := Num(2.0)])
    ensures !PrimitivelyEqual(map[k := Num(1.0)], map[k := Num(2.0)])
  {
    assert k in map[k := Num(1.0)] && k in map[k := Num(2.0)];
  }

  // ---------- Entries ----------

  /** A base entry: of one device address, or of the pair of a CONNECT_IND. */
  datatype Entry =
    Entry(bdaddr: Option<string>, random: Option<int>, connectInd: Option<Value>, arrays: map<string, seq<Item>>)

  type Key = (string, Option<int>)

  function KeyFrom(bdaddr: Option<string>, random: Option<int>): Option<Key> {
    if bdaddr.Some? then Some((Lower(bdaddr.value), random)) else None
  }

  function Keys(es: seq<Entry>): seq<Option<Key>> {
    seq(|es|, i requires 0 <= i < |es| => KeyFrom(es[i].bdaddr, es[i].random))
  }

  function ConnectInds(es: seq<Entry>): seq<Option<Value>> {
    seq(|es|, i requires 0 <= i < |es| => es[i].connectInd)
  }

  /** The last position of a key, or None. */
  function LastOf<T(==)>(keys: seq<Option<T>>, k: T): (r: Option<nat>)
    ensures r.Some? ==> r.value < |keys| && keys[r.value] == Some(k) && forall i :: r.value < i < |keys| ==>
                keys[i] != Some(k)
    ensures r.None? ==> forall i :: 0 <= i < |keys| ==> keys[i] != Some(k)
  {
    if keys == [] then None
    else if keys[|keys| - 1] == Some(k) then Some(|keys| - 1)
    else LastOf(keys[..|keys| - 1], k)
  }

  /** The first position of a key, or None. */
  function FirstOf<T(==)>(keys: seq<Option<T>>, k: T): (r: Option<nat>)
    ensures r.Some? ==> r.value < |keys| && keys[r.value] == Some(k) && forall i :: 0 <= i < r.value ==>
                keys[i] != Some(k)
    ensures r.None? ==> forall i :: 0 <= i < |keys| ==> keys[i] != Some(k)
  {
    FirstWhere(keys, key => key == Some(k))
  }

  // ---------- Insertion into one array ----------

  function ArrayOf(e: Entry, name: string): seq<Item> {
    if name in e.arrays then e.arrays[name] else []
  }

  /** First level: append unless an equal object is already there. */
  function AppendUnique<T(==)>(xs: seq<T>, x: T): seq<T> {
    if x in xs then xs else xs + [x]
  }

  function FirstMatch(xs: seq<Item>, x: Item): (r: Option<nat>)
    ensures r.Some? ==> r.value < |xs| && PrimitivelyEqual(xs[r.value], x)
    ensures r.Some? ==> forall i :: 0 <= i < r.value ==> !PrimitivelyEqual(xs[i], x)
    ensures r.None? ==> forall i :: 0 <= i < |xs| ==> !PrimitivelyEqual(xs[i], x)
  {
    FirstWhere(xs, z => PrimitivelyEqual(z, x))
  }

  /** The second-level array of an object is a list, if it is there at all. */
  predicate HasList(x: Item, sub: string) {
    sub in x ==> x[sub].Arr?
  }

  function SubItems(x: Item, sub: string): seq<Value>
    requires HasList(x, sub)
  {
    if sub in x then x[sub].items else []
  }

  /** The object an insertion would merge with can take the item. */
  predicate Fits(xs: seq<Item>, tier1: Item, sub: string) {
    match FirstMatch(xs, tier1) case None => true case Some(i) => HasList(xs[i], sub)
  }

  /** Second level: into the first object with the same header, else the whole tier-1 object. */
  function Merge(xs: seq<Item>, tier1: Item, sub: string, tier2: Value): seq<Item>
    requires Fits(xs, tier1, sub)
  {
    match FirstMatch(xs, tier1)
    case None => xs + [tier1]
    case Some(i) => xs[i := xs[i][sub := Arr(AppendUnique(SubItems(xs[i], sub), tier2))]]
  }

  // ---------- Insertion into the list of entries ----------

  /** Which device an insertion is for. */
  datatype Device = Single(bdaddr: string, random: int) | Dual(connectInd: Value)

  function NewEntry(d: Device): Entry {
    match d
    case Single(bdaddr, random) => Entry(Some(bdaddr), Some(random), None, map[])
    case Dual(ci) => Entry(None, None, Some(ci), map[])
  }

  /** The index finds the last entry of an address; the scan for a CONNECT_IND finds the first. */
  function Find(es: seq<Entry>, d: Device): (r: Option<nat>)
    ensures r.Some? ==> r.value < |es|
  {
    match d
    case Single(bdaddr, random) => LastOf(Keys(es), (Lower(bdaddr), Some(random)))
    case Dual(ci) => FirstOf(ConnectInds(es), ci)
  }

  function WithArray(e: Entry, name: string, xs: seq<Item>): Entry {
    e.(arrays := e.arrays[name := xs])
  }

  function InsertZeroth(es: seq<Entry>, connectInd: Value): seq<Entry> {
    if Find(es, Dual(connectInd)).Some? then es else es + [NewEntry(Dual(connectInd))]
  }

  function InsertFirst(es: seq<Entry>, d: Device, name: string, tier1: Item): seq<Entry> {
    match Find(es, d)
    case None => es + [WithArray(NewEntry(d), name, [tier1])]
    case Some(i) => es[i := WithArray(es[i], name, AppendUnique(ArrayOf(es[i], name), tier1))]
  }

  predicate FitsIn(es: seq<Entry>, d: Device, name: string, tier1: Item, sub: string) {
    match Find(es, d) case None => true case Some(i) => Fits(ArrayOf(es[i], name), tier1, sub)
  }

  function InsertSecond(es: seq<Entry>, d: Device, name: string, tier1: Item, sub: string, tier2: Value): seq<Entry>
    requires FitsIn(es, d, name, tier1, sub)
  {
    match Find(es, d)
    case None => es + [WithArray(NewEntry(d), name, [tier1])]
    case Some(i) => es[i := WithArray(es[i], name, Merge(ArrayOf(es[i], name), tier1, sub, tier2))]
  }

  /** A device without an entry gets one at the end of the list, its address as it was given. */
  lemma NewDeviceExactly(es: seq<Entry>, d: Device, name: string, x: Item, sub: string, y: Value)
    requires match d
             case Single(b, r) => forall i :: 0 <= i < |es| && es[i].bdaddr.Some? && es[i].random == Some(r) ==>
                                    Lower(es[i].bdaddr.value) != Lower(b)
             case Dual(ci) => forall i :: 0 <= i < |es| ==> es[i].connectInd != Some(ci)
    ensures var e := match d
                     case Single(b, r) => Entry(Some(b), Some(r), None, map[name := [x]])
                     case Dual(ci) => Entry(None, None, Some(ci), map[name := [x]]);
            && InsertFirst(es, d, name, x) == es + [e]
            && FitsIn(es, d, name, x, sub) && InsertSecond(es, d, name, x, sub, y) == es + [e]
            && (d.Dual? ==> InsertZeroth(es, d.connectInd) == es + [e.(arrays := map[])])
  {
    hide LastOf, FirstOf, Lower;
    assert forall i :: 0 <= i < |es| ==> Keys(es)[i] == KeyFrom(es[i].bdaddr, es[i].random);
    assert forall i :: 0 <= i < |es| ==> ConnectInds(es)[i] == es[i].connectInd;
  }

  /** Merging changes the first matching object in one field, and there finds the item or adds it at the end. */
  lemma MergeExactly(xs: seq<Item>, x: Item, sub: string, y: Value, i: nat)
    requires Fits(xs, x, sub) && i < |xs| && PrimitivelyEqual(xs[i], x)
    requires forall j :: 0 <= j < i ==> !PrimitivelyEqual(xs[j], x)
    ensures HasList(xs[i], sub)
    ensures var before := if sub in xs[i] then xs[i][sub].items else [];
            Merge(xs, x, sub, y) == xs[i := xs[i][sub := Arr(if y in before then before else before + [y])]]
  {
    hide FirstMatch, PrimitivelyEqual;
    assert FirstMatch(xs, x) == Some(i);
  }

  /** Without a match the whole object goes to the end. */
  lemma UnmatchedIsAppended(xs: seq<Item>, x: Item, sub: string, y: Value)
    requires forall j :: 0 <= j < |xs| ==> !PrimitivelyEqual(xs[j], x)
    ensures Fits(xs, x, sub) && Merge(xs, x, sub, y) == xs + [x]
  {
    hide FirstMatch, PrimitivelyEqual;
  }

  // ---------- What a caller may insert ----------

  /**
   How arrays are used: `level(name)` is the key of the second-level arrays under the objects of an array, or None
   if they never have one, and `primitive(name, field)` says which fields of objects with one are primitive.
   */
  datatype Schema = Schema(level: string -> Option<string>, primitive: (string, string) -> bool)

  datatype Op =
    | Zeroth(connectInd: Value)
    | First(device: Device, name: string, tier1: Item)
    | Second(device: Device, name: string, tier1: Item, sub: string, tier2: Value)

  predicate Conforms(s: Schema, name: string, x: Item) {
    forall k :: k in x ==> IsPrimitive(x[k]) == s.primitive(name, k)
  }

  /** An object without the second-level array: it is inserted whole, as ATT packets are next to ATT handles. */
  predicate Flat(s: Schema, name: string, x: Item) {
    s.level(name).None? || s.level(name).value !in x
  }

  /** A two-level object: fields of fixed kind, and one list without repeats that is not empty. */
  ghost predicate TwoLevel(s: Schema, name: string, x: Item) {
    && s.level(name).Some? && Conforms(s, name, x)
    && var sub := s.level(name).value;
       && sub in x && x[sub].Arr? && x[sub].items != []
       && (forall i, j :: 0 <= i < j < |x[sub].items| ==> x[sub].items[i] != x[sub].items[j])
  }

  /** The tier-1 object of a second-level insertion arrives holding just its tier-2 item. */
  ghost predicate Allowed(s: Schema, op: Op) {
    match op
    case Zeroth(_) => true
    case First(_, name, x) => Flat(s, name, x)
    case Second(_, name, x, sub, y) => TwoLevel(s, name, x) && s.level(name) == Some(sub) && x[sub] == Arr([y])
  }

  // ---------- What the data says ----------

  /** Canonical device: addresses without regard to case. */
  function Canonical(d: Device): Device {
    match d
    case Single(bdaddr, random) => Single(Lower(bdaddr), random)
    case Dual(_) => d
  }

  /** One statement of the data: a device is known; an object is listed; an item is listed under a header. */
  datatype Fact =
    | Known(device: Device)
    | Listed(device: Device, name: string, item: Item)
    | Part(device: Device, name: string, header: map<string, Option<Value>>, part: Value)

  predicate IsOf(e: Entry, d: Device) {
    match d
    case Single(bdaddr, random) => KeyFrom(e.bdaddr, e.random) == Some((bdaddr, Some(random)))
    case Dual(ci) => e.connectInd == Some(ci)
  }

  predicate HasPart(x: Item, sub: string, y: Value) {
    sub in x && x[sub].Arr? && y in x[sub].items
  }

  ghost predicate PartIn(xs: seq<Item>, sub: string, h: map<string, Option<Value>>, y: Value) {
    exists x: Item :: x in xs && Header(x) == h && HasPart(x, sub, y)
  }

  /** The statement an entry makes about its own device. */
  ghost predicate Says(s: Schema, e: Entry, f: Fact) {
    match f
    case Known(_) => true
    case Listed(_, name, x) => Flat(s, name, x) && x in ArrayOf(e, name)
    case Part(_, name, h, y) => s.level(name).Some? && PartIn(ArrayOf(e, name), s.level(name).value, h, y)
  }

  ghost predicate HasFact(s: Schema, es: seq<Entry>, f: Fact) {
    exists i :: 0 <= i < |es| && IsOf(es[i], f.device) && Says(s, es[i], f)
  }

  /** The statements an insertion is meant to add. */
  ghost predicate OpFact(op: Op, f: Fact) {
    match op
    case Zeroth(ci) => f == Known(Dual(ci))
    case First(d, name, x) => f == Known(Canonical(d)) || f == Listed(Canonical(d), name, x)
    case Second(d, name, x, sub, y) => f == Known(Canonical(d)) || f == Part(Canonical(d), name, Header(x), y)
  }

  // ---------- What insertions keep ----------

  ghost predicate TidyArray(s: Schema, name: string, xs: seq<Item>) {
    && (forall x :: x in xs ==> Flat(s, name, x) || TwoLevel(s, name, x))
    && (forall i, j :: 0 <= i < j < |xs| ==> xs[i] != xs[j])
    && (forall i, j :: 0 <= i < j < |xs| && !Flat(s, name, xs[i]) && !Flat(s, name, xs[j]) ==>
          Header(xs[i]) != Header(xs[j]))
  }

  ghost predicate TidyEntry(s: Schema, e: Entry) {
    && (e.connectInd.Some? <==> e.bdaddr.None?) && (e.bdaddr.Some? ==> e.random.Some?)
    && forall name :: name in e.arrays ==> TidyArray(s, name, e.arrays[name])
  }

  /** The one device of a tidy entry. */
  function DeviceOf(e: Entry): Device
    requires (e.connectInd.Some? <==> e.bdaddr.None?) && (e.bdaddr.Some? ==> e.random.Some?)
  {
    if e.connectInd.Some? then Dual(e.connectInd.value) else Single(Lower(e.bdaddr.value), e.random.value)
  }

  /** One entry per device, no object or item twice, and one object per header. */
  ghost predicate Tidy(s: Schema, es: seq<Entry>) {
    && (forall i :: 0 <= i < |es| ==> TidyEntry(s, es[i]))
    && (forall i, j :: 0 <= i < j < |es| ==> DeviceOf(es[i]) != DeviceOf(es[j]))
  }

  lemma FindInTidy(s: Schema, es: seq<Entry>, d: Device)
    requires Tidy(s, es)
    ensures Find(es, d).Some? ==> DeviceOf(es[Find(es, d).value]) == Canonical(d)
    ensures forall i :: 0 <= i < |es| ==> (IsOf(es[i], Canonical(d)) <==> Find(es, d) == Some(i))
    ensures Find(es, d).None? ==> forall i :: 0 <= i < |es| ==> DeviceOf(es[i]) != Canonical(d)
  {
    forall i | 0 <= i < |es| ensures IsOf(es[i], Canonical(d)) <==> DeviceOf(es[i]) == Canonical(d) {
      assert TidyEntry(s, es[i]);
    }
    match d
    case Single(bdaddr, random) =>
      forall i | 0 <= i < |es| ensures Keys(es)[i] == Some((Lower(bdaddr), Some(random))) <==>
            DeviceOf(es[i]) == Canonical(d) {
        assert TidyEntry(s, es[i]);
      }
    case Dual(ci) =>
      forall i | 0 <= i < |es| ensures ConnectInds(es)[i] == Some(ci) <==> DeviceOf(es[i]) == Canonical(d) {
        assert TidyEntry(s, es[i]);
      }
  }

  lemma AppendKeepsTidy(s: Schema, name: string, xs: seq<Item>, x: Item)
    requires Flat(s, name, x) && TidyArray(s, name, xs)
    ensures TidyArray(s, name, AppendUnique(xs, x))
    ensures forall z :: z in AppendUnique(xs, x) <==> z in xs || z == x
  {
    assert forall i :: 0 <= i < |xs| ==> xs[i] in xs;
  }

  /** An object matches a two-level one exactly when their headers are equal; a flat one never does. */
  lemma TwoLevelMatch(s: Schema, name: string, x: Item, z: Item)
    requires (Flat(s, name, x) || TwoLevel(s, name, x)) && TwoLevel(s, name, z)
    ensures PrimitivelyEqual(x, z) <==> Header(x) == Header(z)
    ensures Flat(s, name, x) ==> Header(x) != Header(z)
  {
    HeaderDecides(x, z);
    if Flat(s, name, x) {
      assert s.level(name).value in z && s.level(name).value in Header(z);
    } else {
      assert forall k :: k in x && k in z ==> IsPrimitive(x[k]) == IsPrimitive(z[k]);
    }
  }

  lemma AddPart(s: Schema, name: string, x: Item, y: Value)
    requires TwoLevel(s, name, x)
    ensures var sub := s.level(name).value;
            var x' := x[sub := Arr(AppendUnique(x[sub].items, y))];
            && TwoLevel(s, name, x') && Header(x') == Header(x)
            && forall v :: HasPart(x', sub, v) <==> HasPart(x, sub, v) || v == y
  {
    var sub := s.level(name).value;
    var items := x[sub].items;
    var x' := x[sub := Arr(AppendUnique(items, y))];
    assert forall i :: 0 <= i < |items| ==> items[i] in items;
    assert AppendUnique(items, y) != [] by { assert |AppendUnique(items, y)| >= |items|; }
    assert Header(x').Keys == Header(x).Keys;
  }

  lemma TidyFits(s: Schema, name: string, xs: seq<Item>, x: Item)
    requires s.level(name).Some? && TidyArray(s, name, xs)
    ensures Fits(xs, x, s.level(name).value)
    ensures TwoLevel(s, name, x) && FirstMatch(xs, x).Some? ==>
              TwoLevel(s, name, xs[FirstMatch(xs, x).value]) && Header(xs[FirstMatch(xs, x).value]) == Header(x)
  {
    var m := FirstMatch(xs, x);
    if m.Some? {
      assert xs[m.value] in xs;
      if TwoLevel(s, name, x) {
        TwoLevelMatch(s, name, xs[m.value], x);
      }
    }
  }

  lemma MergeKeepsTidy(s: Schema, name: string, xs: seq<Item>, x: Item, y: Value)
    requires s.level(name).Some? && TidyArray(s, name, xs) && TwoLevel(s, name, x)
    requires Fits(xs, x, s.level(name).value)
    ensures TidyArray(s, name, Merge(xs, x, s.level(name).value, y))
  {
    var sub := s.level(name).value;
    forall z | z in xs ensures PrimitivelyEqual(z, x) <==> Header(z) == Header(x) {
      TwoLevelMatch(s, name, z, x);
    }
    TidyFits(s, name, xs, x);
    assert forall i :: 0 <= i < |xs| ==> xs[i] in xs;
    var m := FirstMatch(xs, x);
    if m.Some? {
      AddPart(s, name, xs[m.value], y);
      OneReplaced(s, name, xs, m.value, xs[m.value][sub := Arr(AppendUnique(xs[m.value][sub].items, y))]);
    } else {
      assert !Flat(s, name, x);
    }
  }

  /** A two-level object may be replaced by another with its header. */
  lemma OneReplaced(s: Schema, name: string, xs: seq<Item>, i: nat, z': Item)
    requires TidyArray(s, name, xs) && i < |xs|
    requires TwoLevel(s, name, xs[i]) && TwoLevel(s, name, z') && Header(z') == Header(xs[i])
    ensures TidyArray(s, name, xs[i := z'])
    ensures forall z :: Flat(s, name, z) ==> (z in xs[i := z'] <==> z in xs)
  {
    var ys := xs[i := z'];
    hide TwoLevel, Header;
    assert !Flat(s, name, xs[i]) && !Flat(s, name, z') by { NotFlat(s, name, xs[i]); NotFlat(s, name, z'); }
    assert forall j :: 0 <= j < |xs| ==> xs[j] in xs && ys[j] in ys;
    forall z | Flat(s, name, z) ensures z in ys <==> z in xs {
      if z in xs {
        var j :| 0 <= j < |xs| && xs[j] == z;
        assert ys[j] == z;
      }
    }
    forall j, k | 0 <= j < k < |ys| ensures ys[j] != ys[k] {
      assert !Flat(s, name, xs[j]) && !Flat(s, name, xs[k]) ==> Header(ys[j]) != Header(ys[k]);
    }
  }

  lemma NotFlat(s: Schema, name: string, x: Item)
    requires TwoLevel(s, name, x)
    ensures !Flat(s, name, x)
  {
  }

  /** Merging leaves the flat objects as they were. */
  lemma MergeKeepsFlat(s: Schema, name: string, xs: seq<Item>, x: Item, y: Value, z: Item)
    requires s.level(name).Some? && TidyArray(s, name, xs) && TwoLevel(s, name, x) && Flat(s, name, z)
    requires Fits(xs, x, s.level(name).value)
    ensures z in Merge(xs, x, s.level(name).value, y) <==> z in xs
  {
    var sub := s.level(name).value;
    TidyFits(s, name, xs, x);
    NotFlat(s, name, x);
    var m := FirstMatch(xs, x);
    if m.Some? {
      AddPart(s, name, xs[m.value], y);
      OneReplaced(s, name, xs, m.value, xs[m.value][sub := Arr(AppendUnique(xs[m.value][sub].items, y))]);
    }
  }

  lemma ReplaceAddsPart(xs: seq<Item>, i: nat, z': Item, sub: string, y: Value, h: map<string, Option<Value>>, v: Value)
    requires i < |xs| && Header(z') == Header(xs[i])
    requires forall u :: HasPart(z', sub, u) <==> HasPart(xs[i], sub, u) || u == y
    ensures PartIn(xs[i := z'], sub, h, v) <==> PartIn(xs, sub, h, v) || (h == Header(xs[i]) && v == y)
  {
    var ys := xs[i := z'];
    assert ys[i] in ys && xs[i] in xs;
    if PartIn(ys, sub, h, v) {
      var w: Item :| w in ys && Header(w) == h && HasPart(w, sub, v);
      var j :| 0 <= j < |ys| && ys[j] == w;
      assert xs[j] in xs;
    }
    if PartIn(xs, sub, h, v) {
      var w: Item :| w in xs && Header(w) == h && HasPart(w, sub, v);
      var j :| 0 <= j < |xs| && xs[j] == w;
      assert ys[j] in ys;
    }
  }

  lemma MergeAddsPart(s: Schema, name: string, xs: seq<Item>, x: Item, y: Value, h: map<string, Option<Value>>,
        v: Value)
    requires s.level(name).Some? && TidyArray(s, name, xs) && TwoLevel(s, name, x)
    requires Fits(xs, x, s.level(name).value)
    requires x[s.level(name).value] == Arr([y])
    ensures var sub := s.level(name).value;
            PartIn(Merge(xs, x, sub, y), sub, h, v) <==> PartIn(xs, sub, h, v) || (h == Header(x) && v == y)
  {
    var sub := s.level(name).value;
    match FirstMatch(xs, x) {
      case None =>
        assert forall z :: z in xs + [x] <==> z in xs || z == x;
        assert HasPart(x, sub, v) <==> v == y;
      case Some(i) =>
        TidyFits(s, name, xs, x);
        AddPart(s, name, xs[i], y);
        ReplaceAddsPart(xs, i, xs[i][sub := Arr(AppendUnique(xs[i][sub].items, y))], sub, y, h, v);
    }
  }

  // ---------- One insertion ----------

  lemma TidyFitsIn(s: Schema, es: seq<Entry>, d: Device, name: string, x: Item)
    requires Tidy(s, es) && s.level(name).Some?
    ensures FitsIn(es, d, name, x, s.level(name).value)
  {
    if Find(es, d).Some? {
      var e := es[Find(es, d).value];
      assert TidyEntry(s, e) && TidyArray(s, name, ArrayOf(e, name));
      TidyFits(s, name, ArrayOf(e, name), x);
    }
  }

  ghost function Apply(s: Schema, es: seq<Entry>, op: Op): seq<Entry>
    requires Tidy(s, es) && Allowed(s, op)
  {
    match op
    case Zeroth(ci) => InsertZeroth(es, ci)
    case First(d, name, x) => InsertFirst(es, d, name, x)
    case Second(d, name, x, sub, y) =>
      TidyFitsIn(s, es, d, name, x);
      InsertSecond(es, d, name, x, sub, y)
  }

  function OpDevice(op: Op): Device {
    match op
    case Zeroth(ci) => Dual(ci)
    case First(d, _, _) => d
    case Second(d, _, _, _, _) => d
  }

  predicate SameDevice(e: Entry, e': Entry) {
    e'.bdaddr == e.bdaddr && e'.random == e.random && e'.connectInd == e.connectInd
  }

  lemma ReplacedEntry(s: Schema, es: seq<Entry>, d: Device, e': Entry, f: Fact)
    requires Tidy(s, es) && Find(es, d).Some? && SameDevice(es[Find(es, d).value], e') && TidyEntry(s, e')
    ensures Tidy(s, es[Find(es, d).value := e'])
    ensures HasFact(s, es[Find(es, d).value := e'], f) <==>
            if f.device == Canonical(d) then Says(s, e', f) else HasFact(s, es, f)
    ensures f.device == Canonical(d) ==> (HasFact(s, es, f) <==> Says(s, es[Find(es, d).value], f))
  {
    hide Says, TidyArray;
    var n := Find(es, d).value;
    var es' := es[n := e'];
    FindInTidy(s, es, d);
    assert TidyEntry(s, es[n]);
    forall i | 0 <= i < |es| ensures TidyEntry(s, es'[i]) && DeviceOf(es'[i]) == DeviceOf(es[i]) {
      assert TidyEntry(s, es[i]);
    }
    if f.device == Canonical(d) {
      assert IsOf(es[n], f.device) && IsOf(es'[n], f.device);
      forall i | 0 <= i < |es| && IsOf(es'[i], f.device) ensures i == n {
        assert IsOf(es[i], f.device);
      }
    } else {
      forall i | 0 <= i < |es| ensures IsOf(es'[i], f.device) && Says(s, es'[i], f) <==>
            IsOf(es[i], f.device) && Says(s, es[i], f) {
        if i == n {
          OtherDevice(es[n], e', f.device, Canonical(d));
        }
      }
    }
  }

  lemma OtherDevice(e: Entry, e': Entry, d: Device, own: Device)
    requires (e.connectInd.Some? <==> e.bdaddr.None?) && (e.bdaddr.Some? ==> e.random.Some?)
    requires DeviceOf(e) == own && d != own && SameDevice(e, e')
    ensures !IsOf(e, d) && !IsOf(e', d)
  {
  }

  lemma AppendedEntry(s: Schema, es: seq<Entry>, d: Device, e: Entry, f: Fact)
    requires Tidy(s, es) && Find(es, d).None? && TidyEntry(s, e) && DeviceOf(e) == Canonical(d)
    ensures Tidy(s, es + [e])
    ensures HasFact(s, es + [e], f) <==> HasFact(s, es, f) || (f.device == Canonical(d) && Says(s, e, f))
  {
    hide Says, TidyArray;
    var es' := es + [e];
    FindInTidy(s, es, d);
    forall i | 0 <= i < |es'| ensures TidyEntry(s, es'[i]) {
      assert i < |es| ==> TidyEntry(s, es[i]);
    }
    assert IsOf(e, Canonical(d));
    if f.device != Canonical(d) {
      OtherDevice(e, e, f.device, Canonical(d));
    }
    if HasFact(s, es, f) {
      var i :| 0 <= i < |es| && IsOf(es[i], f.device) && Says(s, es[i], f);
      assert es'[i] == es[i];
    }
    if f.device == Canonical(d) && Says(s, e, f) {
      assert es'[|es|] == e;
    }
  }

  lemma FirstSays(s: Schema, e: Entry, name: string, x: Item, f: Fact)
    requires TidyEntry(s, e) && Flat(s, name, x)
    ensures var e' := WithArray(e, name, AppendUnique(ArrayOf(e, name), x));
            TidyEntry(s, e') && (Says(s, e', f) <==> Says(s, e, f) || f == Listed(f.device, name, x))
  {
    var xs := ArrayOf(e, name);
    assert TidyArray(s, name, xs);
    AppendKeepsTidy(s, name, xs, x);
    var e' := WithArray(e, name, AppendUnique(xs, x));
    assert forall other :: other != name ==> ArrayOf(e', other) == ArrayOf(e, other);
  }

  lemma SecondSays(s: Schema, e: Entry, name: string, x: Item, y: Value, f: Fact)
    requires TidyEntry(s, e) && TwoLevel(s, name, x) && x[s.level(name).value] == Arr([y])
    requires Fits(ArrayOf(e, name), x, s.level(name).value)
    ensures var e' := WithArray(e, name, Merge(ArrayOf(e, name), x, s.level(name).value, y));
            TidyEntry(s, e') && (Says(s, e', f) <==> Says(s, e, f) || f == Part(f.device, name, Header(x), y))
  {
    var sub := s.level(name).value;
    hide TwoLevel, Merge, PartIn, Flat, Fits;
    var xs := ArrayOf(e, name);
    assert TidyArray(s, name, xs);
    MergeKeepsTidy(s, name, xs, x, y);
    var e' := WithArray(e, name, Merge(xs, x, sub, y));
    assert forall other :: other != name ==> ArrayOf(e', other) == ArrayOf(e, other);
    if f.Part? && f.name == name {
      MergeAddsPart(s, name, xs, x, y, f.header, f.part);
    }
    if f.Listed? && f.name == name && Flat(s, name, f.item) {
      MergeKeepsFlat(s, name, xs, x, y, f.item);
    }
  }

  /** A new tier-1 object is stored as it came: its tier-2 item is kept exactly when it already holds it. */
  lemma ItemIsKeptExactly(xs: seq<Item>, x: Item, sub: string, y: Value)
    requires Fits(xs, x, sub)
    ensures var m, ys := FirstMatch(xs, x), Merge(xs, x, sub, y);
            if m.Some? then HasPart(ys[m.value], sub, y)
            else ys == xs + [x] && (HasPart(ys[|xs|], sub, y) <==> HasPart(x, sub, y))
  {
  }

  lemma NewEntrySays(s: Schema, d: Device, f: Fact)
    ensures TidyEntry(s, NewEntry(d)) && DeviceOf(NewEntry(d)) == Canonical(d)
    ensures Says(s, NewEntry(d), f) <==> f == Known(f.device)
  {
  }

  lemma NothingToMergeWith(x: Item, sub: string, y: Value)
    ensures Fits([], x, sub) && Merge([], x, sub, y) == [x] && AppendUnique([], x) == [x]
  {
  }

  /** One insertion adds exactly its own statements, and keeps the data free of repeats. */
  lemma ApplyAddsItsFacts(s: Schema, es: seq<Entry>, op: Op, f: Fact)
    requires Tidy(s, es) && Allowed(s, op)
    ensures Tidy(s, Apply(s, es, op))
    ensures HasFact(s, Apply(s, es, op), f) <==> HasFact(s, es, f) || OpFact(op, f)
  {
    hide Tidy, TidyEntry, HasFact, Says, Merge, TwoLevel;
    var d := OpDevice(op);
    NewEntrySays(s, d, f);
    match op {
      case Zeroth(ci) =>
        if Find(es, d).Some? {
          KnownDevice(s, es, d, f);
        } else {
          AppendedEntry(s, es, d, NewEntry(d), f);
        }
      case First(_, name, x) =>
        NothingToMergeWith(x, "", Null);
        var e := if Find(es, d).Some? then es[Find(es, d).value] else NewEntry(d);
        if Find(es, d).Some? {
          KnownDevice(s, es, d, f);
        }
        FirstSays(s, e, name, x, f);
        var e' := WithArray(e, name, AppendUnique(ArrayOf(e, name), x));
        if Find(es, d).Some? {
          ReplacedEntry(s, es, d, e', f);
        } else {
          AppendedEntry(s, es, d, e', f);
        }
      case Second(_, name, x, sub, y) =>
        AllowedSecond(s, op);
        TidyFitsIn(s, es, d, name, x);
        NothingToMergeWith(x, sub, y);
        var e := if Find(es, d).Some? then es[Find(es, d).value] else NewEntry(d);
        if Find(es, d).Some? {
          KnownDevice(s, es, d, f);
        }
        SecondSays(s, e, name, x, y, f);
        var e' := WithArray(e, name, Merge(ArrayOf(e, name), x, sub, y));
        if Find(es, d).Some? {
          ReplacedEntry(s, es, d, e', f);
        } else {
          AppendedEntry(s, es, d, e', f);
        }
    }
  }

  lemma AllowedSecond(s: Schema, op: Op)
    requires Allowed(s, op) && op.Second?
    ensures TwoLevel(s, op.name, op.tier1) && s.level(op.name) == Some(op.sub)
    ensures op.sub in op.tier1 && op.tier1[op.sub] == Arr([op.tier2])
  {
  }

  lemma KnownDevice(s: Schema, es: seq<Entry>, d: Device, f: Fact)
    requires Tidy(s, es) && Find(es, d).Some?
    ensures TidyEntry(s, es[Find(es, d).value]) && DeviceOf(es[Find(es, d).value]) == Canonical(d)
    ensures f == Known(Canonical(d)) ==> HasFact(s, es, f)
    ensures f.Known? ==> Says(s, es[Find(es, d).value], f)
  {
    FindInTidy(s, es, d);
    assert IsOf(es[Find(es, d).value], Canonical(d));
  }

  /** What is found is an entry of the device, in any list. */
  lemma FoundIsOf(es: seq<Entry>, d: Device)
    ensures Find(es, d).Some? ==> IsOf(es[Find(es, d).value], Canonical(d))
  {
  }

  /** Insertions for one device leave the entries of others, and the order of all, as they were, in any list. */
  lemma OthersUntouched(es: seq<Entry>, d: Device, name: string, x: Item, sub: string, y: Value, i: nat)
    requires i < |es| && !IsOf(es[i], Canonical(d))
    ensures i < |InsertFirst(es, d, name, x)| && InsertFirst(es, d, name, x)[i] == es[i]
    ensures FitsIn(es, d, name, x, sub) ==>
              i < |InsertSecond(es, d, name, x, sub, y)| && InsertSecond(es, d, name, x, sub, y)[i] == es[i]
    ensures d.Dual? ==> i < |InsertZeroth(es, d.connectInd)| && InsertZeroth(es, d.connectInd)[i] == es[i]
  {
    FoundIsOf(es, d);
  }

  /** Why only flat objects are inserted whole: with their list, they would merge in one order and not in the other. */
  lemma WholeObjectsCollide(sub: string, y: Value, z: Value)
    requires y != z
    ensures var a, b := map[sub := Arr([y])], map[sub := Arr([z])];
            && Fits([a], b, sub) && Merge(AppendUnique([], a), b, sub, z) == [map[sub := Arr([y, z])]]
            && AppendUnique(Merge([], b, sub, z), a) == [b, a]
  {
    var a, b := map[sub := Arr([y])], map[sub := Arr([z])];
    NothingToMergeWith(b, sub, z);
    NothingToMergeWith(a, "", Null);
    assert [a][..0] == [] && PrimitivelyEqual(a, b) && FirstMatch([a], b) == Some(0);
    assert AppendUnique([y], z) == [y, z];
    assert a[sub := Arr([y, z])] == map[sub := Arr([y, z])];
    assert a[sub] == Arr([y]) && b[sub] == Arr([z]) && a != b;
  }

  // ---------- Any sequence of insertions ----------

  ghost function Run(s: Schema, ops: seq<Op>): (es: seq<Entry>)
    requires forall op :: op in ops ==> Allowed(s, op)
    ensures Tidy(s, es)
  {
    if ops == [] then []
    else
      var before, op := Run(s, ops[..|ops| - 1]), ops[|ops| - 1];
      ApplyAddsItsFacts(s, before, op, Known(Dual(Null)));
      Apply(s, before, op)
  }

  ghost predicate Asked(ops: seq<Op>, f: Fact) {
    exists i :: 0 <= i < |ops| && OpFact(ops[i], f)
  }

  lemma AskedSnoc(rest: seq<Op>, op: Op, f: Fact)
    ensures Asked(rest + [op], f) <==> Asked(rest, f) || OpFact(op, f)
  {
    hide OpFact;
    var ops := rest + [op];
    if Asked(rest, f) {
      var i :| 0 <= i < |rest| && OpFact(rest[i], f);
      assert ops[i] == rest[i];
    }
    if OpFact(op, f) {
      assert ops[|rest|] == op;
    }
  }

  lemma RunSnoc(s: Schema, rest: seq<Op>, op: Op)
    requires forall o :: o in rest + [op] ==> Allowed(s, o)
    ensures forall o :: o in rest ==> Allowed(s, o)
    ensures Allowed(s, op) && Run(s, rest + [op]) == Apply(s, Run(s, rest), op)
  {
    hide Apply, Allowed;
    assert (rest + [op])[..|rest|] == rest && (rest + [op])[|rest|] == op;
    assert op in rest + [op];
    assert forall o :: o in rest ==> o in rest + [op];
  }

  /** From the empty data, the statements of the result are exactly those that were inserted. */
  lemma {:induction false} RunSaysWhatWasAsked(s: Schema, ops: seq<Op>, f: Fact)
    requires forall op :: op in ops ==> Allowed(s, op)
    ensures HasFact(s, Run(s, ops), f) <==> Asked(ops, f)
  {
    if ops == [] {
    } else {
      hide HasFact, OpFact, Tidy, Apply, Allowed, Asked, Run;
      var rest, op := ops[..|ops| - 1], ops[|ops| - 1];
      assert ops == rest + [op];
      RunSnoc(s, rest, op);
      RunSaysWhatWasAsked(s, rest, f);
      ApplyAddsItsFacts(s, Run(s, rest), op, f);
      AskedSnoc(rest, op, f);
    }
  }

  /** Order and repetition of the insertions do not matter to what the data says. */
  lemma OrderAndRepetitionDoNotMatter(s: Schema, ops: seq<Op>, ops': seq<Op>, f: Fact)
    requires forall op :: op in ops ==> Allowed(s, op)
    requires forall op :: op in ops <==> op in ops'
    ensures HasFact(s, Run(s, ops), f) <==> HasFact(s, Run(s, ops'), f)
  {
    RunSaysWhatWasAsked(s, ops, f);
    RunSaysWhatWasAsked(s, ops', f);
    if Asked(ops, f) {
      var i :| 0 <= i < |ops| && OpFact(ops[i], f);
      assert ops[i] in ops';
      var j :| 0 <= j < |ops'| && ops'[j] == ops[i];
    }
    if Asked(ops', f) {
      var i :| 0 <= i < |ops'| && OpFact(ops'[i], f);
      assert ops'[i] in ops;
      var j :| 0 <= j < |ops| && ops[j] == ops'[i];
    }
  }

  lemma FactsOfDevice(s: Schema, es: seq<Entry>, d: Device, f: Fact)
    requires Tidy(s, es) && f.device == Canonical(d)
    ensures HasFact(s, es, f) <==> Find(es, d).Some? && Says(s, es[Find(es, d).value], f)
  {
    FindInTidy(s, es, d);
    hide Says;
    if HasFact(s, es, f) {
      var i :| 0 <= i < |es| && IsOf(es[i], f.device) && Says(s, es[i], f);
      assert Find(es, d) == Some(i);
    }
    if Find(es, d).Some? {
      assert IsOf(es[Find(es, d).value], Canonical(d));
    }
  }

  function ItemsUnder(s: Schema, name: string, x: Item): set<Value>
    requires s.level(name).Some?
  {
    var sub := s.level(name).value;
    if sub in x && x[sub].Arr? then set y | y in x[sub].items else {}
  }

  /** Nothing is hidden from the statements: tidy data that say the same hold the same, up to order. */
  lemma SameFactsSameData(s: Schema, es: seq<Entry>, es': seq<Entry>, d: Device, name: string)
    requires Tidy(s, es) && Tidy(s, es')
    requires forall f :: HasFact(s, es, f) <==> HasFact(s, es', f)
    ensures Find(es, d).Some? <==> Find(es', d).Some?
    ensures Find(es, d).Some? ==>
              var xs, xs' := ArrayOf(es[Find(es, d).value], name), ArrayOf(es'[Find(es', d).value], name);
              && (forall x :: Flat(s, name, x) ==> (x in xs <==> x in xs'))
              && (s.level(name).Some? ==>
                    forall x :: x in xs && !Flat(s, name, x) ==>
                                  exists x' :: x' in xs' && Header(x') == Header(x)
                                               && ItemsUnder(s, name, x') == ItemsUnder(s, name, x))
  {
    var c := Canonical(d);
    FactsOfDevice(s, es, d, Known(c));
    FactsOfDevice(s, es', d, Known(c));
    if Find(es, d).Some? {
      var e, e' := es[Find(es, d).value], es'[Find(es', d).value];
      assert TidyEntry(s, e) && TidyEntry(s, e');
      forall f: Fact | f.device == c ensures Says(s, e, f) <==> Says(s, e', f) {
        FactsOfDevice(s, es, d, f);
        FactsOfDevice(s, es', d, f);
        assert HasFact(s, es, f) <==> HasFact(s, es', f);
      }
      forall x | Flat(s, name, x) ensures x in ArrayOf(e, name) <==> x in ArrayOf(e', name) {
        assert Says(s, e, Listed(c, name, x)) <==> Says(s, e', Listed(c, name, x));
      }
      if s.level(name).Some? {
        forall x | x in ArrayOf(e, name) && !Flat(s, name, x)
          ensures exists x' :: x' in ArrayOf(e', name) && Header(x') == Header(x) &&
                      ItemsUnder(s, name, x') == ItemsUnder(s, name, x) {
          SameHeaderSameItems(s, c, name, e, e', x);
        }
      }
    }
  }

  lemma OneObjectPerHeader(s: Schema, name: string, e: Entry, x: Item, z: Item)
    requires TidyEntry(s, e) && s.level(name).Some? && x in ArrayOf(e, name) && z in ArrayOf(e, name)
    requires !Flat(s, name, x) && !Flat(s, name, z)
    ensures TwoLevel(s, name, x) && (Header(x) == Header(z) ==> x == z)
  {
    assert TidyArray(s, name, e.arrays[name]);
  }

  lemma SameHeaderSameItems(s: Schema, c: Device, name: string, e: Entry, e': Entry, x: Item)
    requires TidyEntry(s, e) && TidyEntry(s, e') && s.level(name).Some? && x in ArrayOf(e, name) && !Flat(s, name, x)
    requires forall f: Fact :: f.device == c ==> (Says(s, e, f) <==> Says(s, e', f))
    ensures exists x' :: x' in ArrayOf(e', name) && Header(x') == Header(x) &&
                ItemsUnder(s, name, x') == ItemsUnder(s, name, x)
  {
    var sub, h := s.level(name).value, Header(x);
    OneObjectPerHeader(s, name, e, x, x);
    hide TidyEntry, TidyArray;
    var y := x[sub].items[0];
    assert HasPart(x, sub, y);
    assert Says(s, e, Part(c, name, h, y)) && Says(s, e', Part(c, name, h, y));
    var x': Item :| x' in ArrayOf(e', name) && Header(x') == h && HasPart(x', sub, y);
    forall v ensures v in ItemsUnder(s, name, x) <==> v in ItemsUnder(s, name, x') {
      assert Says(s, e, Part(c, name, h, v)) <==> Says(s, e', Part(c, name, h, v));
      if HasPart(x, sub, v) {
        var z: Item :| z in ArrayOf(e', name) && Header(z) == h && HasPart(z, sub, v);
        OneObjectPerHeader(s, name, e', x', z);
      }
      if HasPart(x', sub, v) {
        assert Says(s, e', Part(c, name, h, v));
        var z: Item :| z in ArrayOf(e, name) && Header(z) == h && HasPart(z, sub, v);
        OneObjectPerHeader(s, name, e, x, z);
      }
    }
    assert ItemsUnder(s, name, x') == ItemsUnder(s, name, x);
  }
}
