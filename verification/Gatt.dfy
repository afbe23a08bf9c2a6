/**
 The GATT hierarchy under one existing entry: services, their characteristics, and the values read from them.
 Characteristics and values may arrive before their service; they then go under a placeholder service that covers
 every handle, and a value without a characteristic goes under a placeholder characteristic.

 An `io_array` is an object of its own: a value without one takes over the list of the next export, which then also
 sits in that export's placeholder, so later readings show in both.
 */
module Gatt {
  import opened Collections
  import opened Wrappers

  /** One read, write or error of a value. */
  datatype Io = Io(ioType: nat, valueHex: string)

  /** The identity of an `io_array`, and what the arrays hold. */
  type ListId = nat
  type Lists = map<ListId, seq<Io>>

  /** `char_value`; its `io_array` may be missing. */
  datatype CharValue = CharValue(handle: nat, io: Option<ListId>)

  /** The remaining primitive fields of an object (UUID, type, properties), as one comparable piece. */
  type Details = string

  datatype Characteristic =
    Characteristic(handle: nat, valueHandle: nat, details: Details, placeholder: bool, value: Option<CharValue>)

  datatype Service =
    Service(begin: nat, end: nat, details: Details, placeholder: bool, characteristics: Option<seq<Characteristic>>)

  /** The `GATTArray` and the lists in it. */
  datatype State = State(services: seq<Service>, lists: Lists)

  const LAST_HANDLE := 0xFFFF
  const PLACEHOLDER_CHARACTERISTIC_HANDLE := 0xFFFE

  function PlaceholderCharacteristic(v: CharValue): Characteristic {
    Characteristic(PLACEHOLDER_CHARACTERISTIC_HANDLE, v.handle, "FFFF", true, Some(v))
  }

  function PlaceholderService(c: Characteristic): Service {
    Service(1, LAST_HANDLE, "FFFF", true, Some([c]))
  }

  function Characteristics(s: Service): seq<Characteristic> {
    if s.characteristics.Some? then s.characteristics.value else []
  }

  // ---------- Contents ----------

  function Items(lists: Lists, id: Option<ListId>): seq<Io> {
    if id.Some? && id.value in lists then lists[id.value] else []
  }

  function IoListOf(c: Characteristic): Option<ListId> {
    if c.value.Some? then c.value.value.io else None
  }

  /** Equality of objects goes by what the lists hold, not by which lists they are. */
  predicate SameValue(lists: Lists, v: CharValue, w: CharValue) {
    v.handle == w.handle && v.io.Some? == w.io.Some? && Items(lists, v.io) == Items(lists, w.io)
  }

  predicate SameCharacteristic(lists: Lists, c: Characteristic, d: Characteristic) {
    && c.(value := None) == d.(value := None) && c.value.Some? == d.value.Some?
    && (c.value.Some? ==> SameValue(lists, c.value.value, d.value.value))
  }

  predicate SameService(lists: Lists, s: Service, t: Service) {
    && SameHeader(s, t) && |Characteristics(s)| == |Characteristics(t)|
    && forall j :: 0 <= j < |Characteristics(s)| ==>
         SameCharacteristic(lists, Characteristics(s)[j], Characteristics(t)[j])
  }

  // ---------- Searching ----------

  /** The range test of `find_service_with_target_handle_in_range`; the first handle is the service's own. */
  predicate InRange(s: Service, target: nat) {
    s.begin < target <= s.end
  }

  function FindService(ss: seq<Service>, target: nat): (r: Option<nat>)
    ensures r.Some? ==> r.value < |ss| && InRange(ss[r.value], target)
    ensures r.Some? ==> forall i :: 0 <= i < r.value ==> !InRange(ss[i], target)
    ensures r.None? ==> forall i :: 0 <= i < |ss| ==> !InRange(ss[i], target)
  {
    FirstWhere(ss, s => InRange(s, target))
  }

  function FindByValueHandle(cs: seq<Characteristic>, target: nat): (r: Option<nat>)
    ensures r.Some? ==> r.value < |cs| && cs[r.value].valueHandle == target
    ensures r.Some? ==> forall i :: 0 <= i < r.value ==> cs[i].valueHandle != target
    ensures r.None? ==> forall i :: 0 <= i < |cs| ==> cs[i].valueHandle != target
  {
    FirstWhere(cs, (c: Characteristic) => c.valueHandle == target)
  }

  /** The shallow comparison: same keys, same primitive fields. */
  predicate SameHeader(s: Service, t: Service) {
    s.(characteristics := None) == t.(characteristics := None) && s.characteristics.Some? == t.characteristics.Some?
  }

  function FindHeader(ss: seq<Service>, s: Service): (r: Option<nat>)
    ensures r.Some? ==> r.value < |ss| && SameHeader(ss[r.value], s)
    ensures r.Some? ==> forall i :: 0 <= i < r.value ==> !SameHeader(ss[i], s)
    ensures r.None? ==> forall i :: 0 <= i < |ss| ==> !SameHeader(ss[i], s)
  {
    FirstWhere(ss, t => SameHeader(t, s))
  }

  function FindEqualService(lists: Lists, ss: seq<Service>, s: Service): (r: Option<nat>)
    ensures r.Some? ==> r.value < |ss| && SameService(lists, ss[r.value], s)
    ensures r.None? ==> forall i :: 0 <= i < |ss| ==> !SameService(lists, ss[i], s)
  {
    FirstWhere(ss, t => SameService(lists, t, s))
  }

  function FindEqualCharacteristic(lists: Lists, cs: seq<Characteristic>, c: Characteristic): (r: Option<nat>)
    ensures r.Some? ==> r.value < |cs| && SameCharacteristic(lists, cs[r.value], c)
    ensures r.None? ==> forall j :: 0 <= j < |cs| ==> !SameCharacteristic(lists, cs[j], c)
  {
    FirstWhere(cs, d => SameCharacteristic(lists, d, c))
  }

  // ---------- The three exports ----------

  function ExportService(st: State, s: Service, contents: Lists): State {
    var lists := st.lists + contents;
    State(if FindEqualService(lists, st.services, s).Some? then st.services else st.services + [s], lists)
  }

  function WithCharacteristics(s: Service, cs: seq<Characteristic>): Service {
    s.(characteristics := Some(cs))
  }

  function WithCharacteristic(lists: Lists, s: Service, c: Characteristic): Service {
    if FindEqualCharacteristic(lists, Characteristics(s), c).Some? then s
    else WithCharacteristics(s, Characteristics(s) + [c])
  }

  /** The service a characteristic is exported with: the one around its handle, or a placeholder. */
  function ServiceFor(ss: seq<Service>, c: Characteristic): Service {
    match FindService(ss, c.handle) case Some(i) => ss[i] case None => PlaceholderService(c)
  }

  /** The second-level insertion into "GATTArray" / "characteristics". */
  function Insert(lists: Lists, ss: seq<Service>, tier1: Service, tier2: Characteristic): seq<Service> {
    match FindHeader(ss, tier1)
    case None => ss + [tier1]
    case Some(i) => ss[i := WithCharacteristic(lists, ss[i], tier2)]
  }

  function ExportCharacteristic(st: State, c: Characteristic, contents: Lists): State {
    var lists := st.lists + contents;
    State(Insert(lists, st.services, ServiceFor(st.services, c), c), lists)
  }

  /** What becomes of a value, by what there is for its handle. */
  datatype Landing =
    | NewService
    | NewCharacteristic(service: nat)
    | FirstValue(service: nat, characteristic: nat)
    | Adopts(service: nat, characteristic: nat)
    | Extends(service: nat, characteristic: nat, list: ListId)
    | Raises

  function LandingOf(ss: seq<Service>, v: CharValue): (l: Landing)
    ensures l.NewCharacteristic? ==> l.service < |ss| && InRange(ss[l.service], v.handle)
    ensures l.FirstValue? || l.Adopts? || l.Extends? ==>
              && l.service < |ss| && InRange(ss[l.service], v.handle)
              && l.characteristic < |Characteristics(ss[l.service])|
              && Characteristics(ss[l.service])[l.characteristic].valueHandle == v.handle
    ensures l.FirstValue? ==> Characteristics(ss[l.service])[l.characteristic].value.None?
    ensures l.Adopts? ==> IoListOf(Characteristics(ss[l.service])[l.characteristic]).None?
    ensures l.Extends? ==> IoListOf(Characteristics(ss[l.service])[l.characteristic]) == Some(l.list)
    ensures l.Raises? ==> v.io.None?
    ensures l.Adopts? || l.Extends? ==> v.io.Some? && Characteristics(ss[l.service])[l.characteristic].value.Some?
  {
    match FindService(ss, v.handle)
    case None => NewService
    case Some(i) =>
      match FindByValueHandle(Characteristics(ss[i]), v.handle)
      case None => NewCharacteristic(i)
      case Some(j) =>
        var old_ := Characteristics(ss[i])[j].value;
        if old_.None? then FirstValue(i, j)
        else if v.io.None? then Raises
        else if old_.value.io.None? then Adopts(i, j)
        else Extends(i, j, old_.value.io.value)
  }

  /** The characteristic a value finds for itself, if it has a value already. */
  predicate HasValueAlready(ss: seq<Service>, v: CharValue) {
    var i := FindService(ss, v.handle);
    i.Some? &&
    var j := FindByValueHandle(Characteristics(ss[i.value]), v.handle);
    j.Some? && Characteristics(ss[i.value])[j.value].value.Some?
  }

  function WithChar(ss: seq<Service>, i: nat, j: nat, c: Characteristic): seq<Service>
    requires i < |ss| && j < |Characteristics(ss[i])|
  {
    ss[i := WithCharacteristics(ss[i], Characteristics(ss[i])[j := c])]
  }

  function WithValue(ss: seq<Service>, i: nat, j: nat, v: CharValue): Characteristic
    requires i < |ss| && j < |Characteristics(ss[i])|
  {
    Characteristics(ss[i])[j].(value := Some(v))
  }

  /** A value that has one already keeps its handle and takes over the list. */
  function Adopted(ss: seq<Service>, i: nat, j: nat, v: CharValue): Characteristic
    requires i < |ss| && j < |Characteristics(ss[i])| && Characteristics(ss[i])[j].value.Some?
  {
    WithValue(ss, i, j, Characteristics(ss[i])[j].value.value.(io := v.io))
  }

  function ExportValue(st: State, v: CharValue, contents: Lists): State {
    var placeholder := PlaceholderCharacteristic(v);
    var ss, lists := st.services, st.lists + contents;
    match LandingOf(ss, v)
    case NewService => State(ss + [PlaceholderService(placeholder)], lists)
    case NewCharacteristic(i) =>
      State(ss[i := WithCharacteristics(ss[i], Characteristics(ss[i]) + [placeholder])], lists)
    case FirstValue(i, j) => State(WithChar(ss, i, j, WithValue(ss, i, j, v)), lists)
    case Adopts(i, j) => State(WithChar(ss, i, j, Adopted(ss, i, j, v)) + [PlaceholderService(placeholder)], lists)
    case Extends(_, _, a) =>
      State(ss + [PlaceholderService(placeholder)], lists[a := Items(lists, Some(a)) + Items(lists, v.io)])
    case Raises => State(ss, lists)
  }

  /** The `GATTArray` of one entry; the key may be missing.  `contents` are the lists an argument brings along. */
  class GattEntry {
    var gattArray: Option<seq<Service>>
    var lists: Lists

    ghost function View(): State
      reads this
    {
      State(if gattArray.Some? then gattArray.value else [], lists)
    }

    constructor ()
      ensures View() == State([], map[])
    {
      gattArray, lists := None, map[];
    }

    method ExportGattService(data: Service, contents: Lists)
      modifies this
      ensures View() == ExportService(old(View()), data, contents)
    {
      lists := lists + contents;
      if gattArray.None? {
        gattArray := Some([data]);
        return;
      }
      var services := gattArray.value;
      for n := 0 to |services|
        invariant gattArray == Some(services) && lists == old(lists) + contents
        invariant forall m :: 0 <= m < n ==> !SameService(lists, services[m], data)
      {
        if SameService(lists, services[n], data) {
          return;
        }
      }
      gattArray := Some(services + [data]);
    }

    method InsertSecondLevel(tier1: Service, tier2: Characteristic)
      requires gattArray.Some?
      modifies `gattArray
      ensures View() == State(Insert(lists, old(View().services), tier1, tier2), old(lists))
    {
      var services := gattArray.value;
      for n := 0 to |services|
        invariant gattArray == Some(services) && forall m :: 0 <= m < n ==> !SameHeader(services[m], tier1)
      {
        var service := services[n];
        if SameHeader(service, tier1) {
          assert FindHeader(services, tier1) == Some(n);
          var cs := Characteristics(service);
          for m := 0 to |cs|
            invariant gattArray == Some(services)
            invariant forall j :: 0 <= j < m ==> !SameCharacteristic(lists, cs[j], tier2)
          {
            if SameCharacteristic(lists, cs[m], tier2) {
              assert services[n := service] == services;
              return;
            }
          }
          gattArray := Some(services[n := WithCharacteristics(service, cs + [tier2])]);
          return;
        }
      }
      gattArray := Some(services + [tier1]);
    }

    method ExportGattCharacteristic(data: Characteristic, contents: Lists)
      modifies this
      ensures View() == ExportCharacteristic(old(View()), data, contents)
    {
      lists := lists + contents;
      if gattArray.None? {
        gattArray := Some([PlaceholderService(data)]);
        return;
      }
      var found := FindService(gattArray.value, data.handle);
      var serviceEntry := if found.Some? then gattArray.value[found.value] else PlaceholderService(data);
      InsertSecondLevel(serviceEntry, data);
    }

    method ExportGattCharacteristicValue(data: CharValue, contents: Lists) returns (raised: bool)
      modifies this
      ensures View() == ExportValue(old(View()), data, contents)
      ensures raised <==> data.io.None? && HasValueAlready(old(View()).services, data)
    {
      lists := lists + contents;
      raised := false;
      var placeholderChar := PlaceholderCharacteristic(data);
      var placeholderService := PlaceholderService(placeholderChar);
      if gattArray.None? {
        gattArray := Some([placeholderService]);
        return;
      }
      var services := gattArray.value;
      var found := FindService(services, data.handle);
      if found.Some? {
        var i, service := found.value, services[found.value];
        if service.characteristics.None? {
          gattArray := Some(services[i := WithCharacteristics(service, [placeholderChar])]);
          assert Characteristics(service) + [placeholderChar] == [placeholderChar];
          return;
        }
        var cs := service.characteristics.value;
        var match_ := FindByValueHandle(cs, data.handle);
        if match_.None? {
          gattArray := Some(services[i := WithCharacteristics(service, cs + [placeholderChar])]);
          return;
        }
        var j, c := match_.value, cs[match_.value];
        if c.value.None? {
          gattArray := Some(services[i := WithCharacteristics(service, cs[j := c.(value := Some(data))])]);
          return;
        }
        if data.io.None? {
          return true;
        }
        if c.value.value.io.None? {
          var c' := c.(value := Some(c.value.value.(io := data.io)));
          services := services[i := WithCharacteristics(service, cs[j := c'])];
        } else {
          lists := lists[c.value.value.io.value := Items(lists, c.value.value.io) + Items(lists, data.io)];
        }
      }
      gattArray := Some(services + [placeholderService]);
    }
  }

  // ---------- Exports ----------

  /** An export, with what the lists in it hold. */
  datatype Export =
    | OfService(service: Service, contents: Lists)
    | OfCharacteristic(characteristic: Characteristic, contents: Lists)
    | OfValue(value: CharValue, contents: Lists)

  function Apply(st: State, e: Export): State {
    match e
    case OfService(s, contents) => ExportService(st, s, contents)
    case OfCharacteristic(c, contents) => ExportCharacteristic(st, c, contents)
    case OfValue(v, contents) => ExportValue(st, v, contents)
  }

  function Run(exports: seq<Export>): State {
    if exports == [] then State([], map[]) else Apply(Run(exports[..|exports| - 1]), exports[|exports| - 1])
  }

  lemma RunSnoc(exports: seq<Export>, e: Export)
    ensures Run(exports + [e]) == Apply(Run(exports), e)
  {
    assert (exports + [e])[..|exports|] == exports;
  }

  predicate IsHandle(h: nat) {
    1 <= h <= 0xFFFF
  }

  /** Handles of the attribute protocol, real characteristics, services that enclose what they bring. */
  ghost predicate Proper(e: Export) {
    match e
    case OfService(s, _) => Placed(s)
    case OfCharacteristic(c, _) => IsHandle(c.handle) && !c.placeholder
    case OfValue(v, _) => IsHandle(v.handle)
  }

  /** Every list in the export is its own: new, and in one place. */
  ghost predicate OwnLists(st: State, e: Export) {
    && e.contents.Keys !! st.lists.Keys
    && match e
       case OfService(s, contents) => forall a :: Holders([s], a) <= if a in contents then 1 else 0
       case OfCharacteristic(c, contents) => IoListOf(c).Some? ==> IoListOf(c).value in contents
       case OfValue(v, contents) => v.io.Some? ==> v.io.value in contents
  }

  ghost predicate Legal(exports: seq<Export>) {
    exports == [] ||
    var before, e := exports[..|exports| - 1], exports[|exports| - 1];
    Legal(before) && OwnLists(Run(before), e)
  }

  // ---------- Placement ----------

  /** The handle a characteristic is placed by. */
  function PlacedBy(c: Characteristic): nat {
    if c.placeholder then c.valueHandle else c.handle
  }

  predicate Encloses(s: Service, c: Characteristic) {
    s.begin <= PlacedBy(c) <= s.end
  }

  ghost predicate Placed(s: Service) {
    forall c :: c in Characteristics(s) ==> Encloses(s, c)
  }

  ghost predicate AllPlaced(ss: seq<Service>) {
    forall i :: 0 <= i < |ss| ==> Placed(ss[i])
  }

  /** The object found by range is also the first with its header, so the insertion goes back to it. */
  lemma FoundAgain(ss: seq<Service>, target: nat)
    requires FindService(ss, target).Some?
    ensures FindHeader(ss, ss[FindService(ss, target).value]) == FindService(ss, target)
  {
    var i := FindService(ss, target).value;
    var j := FindHeader(ss, ss[i]);
    assert SameHeader(ss[i], ss[i]);
    assert j.Some? && j.value <= i;
    assert InRange(ss[j.value], target);
  }

  lemma ReplaceKeepsPlaced(ss: seq<Service>, i: nat, cs: seq<Characteristic>)
    requires AllPlaced(ss) && i < |ss| && forall c :: c in cs ==> Encloses(ss[i], c)
    ensures AllPlaced(ss[i := WithCharacteristics(ss[i], cs)])
  {
    assert Placed(WithCharacteristics(ss[i], cs));
  }

  lemma ValueKeepsPlaced(st: State, v: CharValue, contents: Lists)
    requires AllPlaced(st.services) && IsHandle(v.handle)
    ensures AllPlaced(ExportValue(st, v, contents).services)
  {
    hide LandingOf;
    var placeholder, ss := PlaceholderCharacteristic(v), st.services;
    assert Placed(PlaceholderService(placeholder));
    match LandingOf(ss, v) {
      case NewCharacteristic(i) =>
        assert Placed(ss[i]) && Encloses(ss[i], placeholder);
        ReplaceKeepsPlaced(ss, i, Characteristics(ss[i]) + [placeholder]);
      case FirstValue(i, j) =>
        assert Placed(ss[i]) && Characteristics(ss[i])[j] in Characteristics(ss[i]);
        ReplaceKeepsPlaced(ss, i, Characteristics(ss[i])[j := WithValue(ss, i, j, v)]);
      case Adopts(i, j) =>
        assert Placed(ss[i]) && Characteristics(ss[i])[j] in Characteristics(ss[i]);
        ReplaceKeepsPlaced(ss, i, Characteristics(ss[i])[j := Adopted(ss, i, j, v)]);
      case _ =>
    }
  }

  lemma CharacteristicKeepsPlaced(lists: Lists, ss: seq<Service>, c: Characteristic)
    requires AllPlaced(ss) && IsHandle(c.handle) && !c.placeholder
    ensures AllPlaced(Insert(lists, ss, ServiceFor(ss, c), c))
  {
    var found := FindService(ss, c.handle);
    if found.Some? {
      FoundAgain(ss, c.handle);
    }
    var m := FindHeader(ss, ServiceFor(ss, c));
    if m.Some? {
      var s := ss[m.value];
      assert Placed(s) && Encloses(s, c);
      assert Placed(WithCharacteristic(lists, s, c));
    } else {
      assert Placed(PlaceholderService(c));
    }
  }

  lemma ApplyKeepsPlaced(st: State, e: Export)
    requires AllPlaced(st.services) && Proper(e)
    ensures AllPlaced(Apply(st, e).services)
  {
    hide Insert, ExportValue, FindService, FindHeader, FindEqualService, LandingOf;
    match e {
      case OfService(_, _) =>
      case OfCharacteristic(c, contents) => CharacteristicKeepsPlaced(st.lists + contents, st.services, c);
      case OfValue(v, contents) => ValueKeepsPlaced(st, v, contents);
    }
  }

  /** Whatever order services, characteristics and values come in, everything sits where its handle belongs. */
  lemma {:induction false} RunKeepsPlaced(exports: seq<Export>)
    requires forall e :: e in exports ==> Proper(e)
    ensures AllPlaced(Run(exports).services)
  {
    if exports == [] {
    } else {
      hide Apply, Proper;
      RunKeepsPlaced(exports[..|exports| - 1]);
      ApplyKeepsPlaced(Run(exports[..|exports| - 1]), exports[|exports| - 1]);
    }
  }

  // ---------- Adding up over all characteristics ----------

  function SumOf(cs: seq<Characteristic>, w: Characteristic -> nat): nat {
    if cs == [] then 0 else SumOf(cs[..|cs| - 1], w) + w(cs[|cs| - 1])
  }

  function Sum(ss: seq<Service>, w: Characteristic -> nat): nat {
    if ss == [] then 0 else Sum(ss[..|ss| - 1], w) + SumOf(Characteristics(ss[|ss| - 1]), w)
  }

  /** How many readings a characteristic shows. */
  function Shown(lists: Lists): Characteristic -> nat {
    c => |Items(lists, IoListOf(c))|
  }

  function Count(st: State): nat {
    Sum(st.services, Shown(st.lists))
  }

  function HasList(a: ListId): Characteristic -> nat {
    c => if IoListOf(c) == Some(a) then 1 else 0
  }

  /** In how many characteristics a list sits. */
  function Holders(ss: seq<Service>, a: ListId): nat {
    Sum(ss, HasList(a))
  }

  lemma SumOfSnoc(cs: seq<Characteristic>, c: Characteristic, w: Characteristic -> nat)
    ensures SumOf(cs + [c], w) == SumOf(cs, w) + w(c)
  {
    assert (cs + [c])[..|cs|] == cs;
  }

  lemma SumSnoc(ss: seq<Service>, s: Service, w: Characteristic -> nat)
    ensures Sum(ss + [s], w) == Sum(ss, w) + SumOf(Characteristics(s), w)
  {
    assert (ss + [s])[..|ss|] == ss;
  }

  lemma SumOfOne(c: Characteristic, w: Characteristic -> nat)
    ensures SumOf([c], w) == w(c)
  {
    SumOfSnoc([], c, w);
    assert [] + [c] == [c];
  }

  lemma {:induction false} SumOfReplace(cs: seq<Characteristic>, j: nat, c: Characteristic, w: Characteristic -> nat)
    requires j < |cs|
    ensures SumOf(cs[j := c], w) + w(cs[j]) == SumOf(cs, w) + w(c)
  {
    var last := |cs| - 1;
    if j == last {
      assert cs[j := c][..last] == cs[..last];
    } else {
      assert cs[j := c][..last] == cs[..last][j := c];
      SumOfReplace(cs[..last], j, c, w);
    }
  }

  lemma {:induction false} SumReplace(ss: seq<Service>, i: nat, s: Service, w: Characteristic -> nat)
    requires i < |ss|
    ensures Sum(ss[i := s], w) + SumOf(Characteristics(ss[i]), w) == Sum(ss, w) + SumOf(Characteristics(s), w)
  {
    var last := |ss| - 1;
    if i == last {
      assert ss[i := s][..last] == ss[..last];
    } else {
      assert ss[i := s][..last] == ss[..last][i := s];
      SumReplace(ss[..last], i, s, w);
    }
  }

  lemma SumWithChar(ss: seq<Service>, i: nat, j: nat, c: Characteristic, w: Characteristic -> nat)
    requires i < |ss| && j < |Characteristics(ss[i])|
    ensures Sum(WithChar(ss, i, j, c), w) + w(Characteristics(ss[i])[j]) == Sum(ss, w) + w(c)
  {
    SumOfReplace(Characteristics(ss[i]), j, c, w);
    SumReplace(ss, i, WithCharacteristics(ss[i], Characteristics(ss[i])[j := c]), w);
  }

  lemma SumWithPlaceholder(ss: seq<Service>, c: Characteristic, w: Characteristic -> nat)
    ensures Sum(ss + [PlaceholderService(c)], w) == Sum(ss, w) + w(c)
  {
    SumSnoc(ss, PlaceholderService(c), w);
    SumOfOne(c, w);
  }

  /** What an exported value adds to any such sum. */
  lemma SumAfterValue(st: State, v: CharValue, contents: Lists, w: Characteristic -> nat)
    ensures var p, ss, after := PlaceholderCharacteristic(v), st.services,
                Sum(ExportValue(st, v, contents).services, w);
            match LandingOf(ss, v)
            case FirstValue(i, j) => after + w(Characteristics(ss[i])[j]) == Sum(ss, w) + w(WithValue(ss, i, j, v))
            case Adopts(i, j) =>
              after + w(Characteristics(ss[i])[j]) == Sum(ss, w) + w(Adopted(ss, i, j, v)) + w(p)
            case Raises => after == Sum(ss, w)
            case _ => after == Sum(ss, w) + w(p)
  {
    hide Sum, SumOf, LandingOf;
    var p, ss := PlaceholderCharacteristic(v), st.services;
    SumWithPlaceholder(ss, p, w);
    match LandingOf(ss, v) {
      case NewCharacteristic(i) =>
        SumOfSnoc(Characteristics(ss[i]), p, w);
        SumReplace(ss, i, WithCharacteristics(ss[i], Characteristics(ss[i]) + [p]), w);
      case FirstValue(i, j) => SumWithChar(ss, i, j, WithValue(ss, i, j, v), w);
      case Adopts(i, j) =>
        SumWithChar(ss, i, j, Adopted(ss, i, j, v), w);
        SumWithPlaceholder(WithChar(ss, i, j, Adopted(ss, i, j, v)), p, w);
      case _ =>
    }
  }

  /** What an exported characteristic adds: itself or nothing. */
  lemma SumAfterCharacteristic(lists: Lists, ss: seq<Service>, c: Characteristic, w: Characteristic -> nat)
    ensures var after := Sum(Insert(lists, ss, ServiceFor(ss, c), c), w);
            after == Sum(ss, w) || after == Sum(ss, w) + w(c)
  {
    hide Sum, SumOf, FindHeader, FindService, FindEqualCharacteristic;
    if FindService(ss, c.handle).Some? {
      FoundAgain(ss, c.handle);
    }
    match FindHeader(ss, ServiceFor(ss, c)) {
      case None => SumWithPlaceholder(ss, c, w);
      case Some(i) =>
        SumOfSnoc(Characteristics(ss[i]), c, w);
        SumReplace(ss, i, WithCharacteristic(lists, ss[i], c), w);
    }
  }

  // ---------- Who shares a list ----------

  /** The characteristic sits somewhere in the array. */
  ghost predicate InStore(ss: seq<Service>, c: Characteristic) {
    exists i :: 0 <= i < |ss| && c in Characteristics(ss[i])
  }

  lemma {:induction false} SumOfCovers(cs: seq<Characteristic>, c: Characteristic, w: Characteristic -> nat)
    requires c in cs
    ensures SumOf(cs, w) >= w(c)
  {
    if cs[|cs| - 1] != c {
      SumOfCovers(cs[..|cs| - 1], c, w);
    }
  }

  lemma {:induction false} SumCovers(ss: seq<Service>, i: nat, c: Characteristic, w: Characteristic -> nat)
    requires i < |ss| && c in Characteristics(ss[i])
    ensures Sum(ss, w) >= w(c)
  {
    var last := |ss| - 1;
    if i == last {
      SumOfCovers(Characteristics(ss[i]), c, w);
    } else {
      assert ss[..last][i] == ss[i];
      SumCovers(ss[..last], i, c, w);
    }
  }

  /** A stored list is known, and sits in at most two characteristics. */
  ghost predicate Sound(st: State) {
    forall a :: Holders(st.services, a) <= if a in st.lists then 2 else 0
  }

  lemma StoredListIsKnown(st: State, i: nat, c: Characteristic)
    requires Sound(st) && i < |st.services| && c in Characteristics(st.services[i]) && IoListOf(c).Some?
    ensures IoListOf(c).value in st.lists
  {
    SumCovers(st.services, i, c, HasList(IoListOf(c).value));
    assert Holders(st.services, IoListOf(c).value) >= 1;
  }

  /** The list that a value without one takes over, if this export is such a value. */
  function AdoptedBy(st: State, e: Export): Option<ListId> {
    if e.OfValue? && LandingOf(st.services, e.value).Adopts? then e.value.io else None
  }

  lemma HoldersAfter(st: State, e: Export, a: ListId)
    requires Sound(st) && OwnLists(st, e)
    ensures var before, after := Holders(st.services, a), Holders(Apply(st, e).services, a);
            && (a !in e.contents ==> after == before)
            && (a in e.contents ==> before == 0 && after <= 2 && (after == 2 <==> AdoptedBy(st, e) == Some(a)))
    ensures e.contents.Keys + st.lists.Keys <= Apply(st, e).lists.Keys
  {
    hide Sum, SumOf, FindService, FindHeader, FindEqualService, FindEqualCharacteristic, LandingOf;
    assert a in e.contents ==> a !in st.lists;
    match e {
      case OfService(s, contents) =>
        SumSnoc(st.services, s, HasList(a));
        HoldersOfOne(s, a);
      case OfCharacteristic(c, contents) =>
        SumAfterCharacteristic(st.lists + contents, st.services, c, HasList(a));
      case OfValue(v, contents) =>
        SumAfterValue(st, v, contents, HasList(a));
    }
  }

  lemma HoldersOfOne(s: Service, a: ListId)
    ensures Holders([s], a) == SumOf(Characteristics(s), HasList(a))
  {
    SumSnoc([], s, HasList(a));
    assert [] + [s] == [s];
  }

  lemma {:induction false} RunIsSound(exports: seq<Export>)
    requires Legal(exports)
    ensures Sound(Run(exports))
  {
    if exports == [] {
    } else {
      hide Apply, Holders, OwnLists;
      var before, e := exports[..|exports| - 1], exports[|exports| - 1];
      RunIsSound(before);
      forall a ensures Holders(Run(exports).services, a) <= if a in Run(exports).lists then 2 else 0 {
        HoldersAfter(Run(before), e, a);
        assert Holders(Run(before).services, a) <= if a in Run(before).lists then 2 else 0;
      }
    }
  }

  /** The lists taken over so far. */
  function AdoptedIn(exports: seq<Export>): set<ListId> {
    if exports == [] then {}
    else
      var before, e := exports[..|exports| - 1], exports[|exports| - 1];
      AdoptedIn(before) + match AdoptedBy(Run(before), e) case None => {} case Some(a) => {a}
  }

  /** A list sits in two characteristics exactly if some value took it over, and in three never. */
  lemma {:induction false} SharedExactly(exports: seq<Export>, a: ListId)
    requires Legal(exports)
    ensures Holders(Run(exports).services, a) <= 2
    ensures Holders(Run(exports).services, a) == 2 <==> a in AdoptedIn(exports)
  {
    if exports == [] {
    } else {
      hide Apply, Holders, AdoptedBy;
      var before, e := exports[..|exports| - 1], exports[|exports| - 1];
      RunIsSound(before);
      SharedExactly(before, a);
      HoldersAfter(Run(before), e, a);
      AdoptedIsBrought(Run(before), e);
    }
  }

  lemma AdoptedIsBrought(st: State, e: Export)
    requires OwnLists(st, e)
    ensures AdoptedBy(st, e).Some? ==> AdoptedBy(st, e).value in e.contents
  {
  }

  // ---------- How often a reading is kept ----------

  /** In how many places the readings of an exported value show. */
  function Copies(ss: seq<Service>, v: CharValue): nat {
    match LandingOf(ss, v)
    case Adopts(_, _) => 2
    case Extends(_, _, a) => Holders(ss, a) + 1
    case Raises => 0
    case _ => 1
  }

  lemma {:induction false} SumOfGrows(cs: seq<Characteristic>, lists: Lists, a: ListId, more: seq<Io>)
    requires a in lists
    ensures var lists' := lists[a := lists[a] + more];
            SumOf(cs, Shown(lists')) == SumOf(cs, Shown(lists)) + |more| * SumOf(cs, HasList(a))
  {
    if cs == [] {
    } else {
      SumOfGrows(cs[..|cs| - 1], lists, a, more);
      Distribute(|more|, SumOf(cs[..|cs| - 1], HasList(a)), HasList(a)(cs[|cs| - 1]));
    }
  }

  lemma {:induction false} SumGrows(ss: seq<Service>, lists: Lists, a: ListId, more: seq<Io>)
    requires a in lists
    ensures var lists' := lists[a := lists[a] + more];
            Sum(ss, Shown(lists')) == Sum(ss, Shown(lists)) + |more| * Holders(ss, a)
  {
    if ss == [] {
    } else {
      var init, cs := ss[..|ss| - 1], Characteristics(ss[|ss| - 1]);
      SumGrows(init, lists, a, more);
      SumOfGrows(cs, lists, a, more);
      Distribute(|more|, Holders(init, a), SumOf(cs, HasList(a)));
    }
  }

  lemma Distribute(n: nat, x: nat, y: nat)
    ensures n * (x + y) == n * x + n * y
  {
  }

  lemma {:induction false} SumUnchanged(ss: seq<Service>, lists: Lists, contents: Lists)
    requires contents.Keys !! lists.Keys && forall i, c :: 0 <= i < |ss| && c in Characteristics(ss[i]) ==>
               (IoListOf(c).Some? ==> IoListOf(c).value in lists)
    ensures Sum(ss, Shown(lists + contents)) == Sum(ss, Shown(lists))
  {
    if ss == [] {
    } else {
      var init := ss[..|ss| - 1];
      assert forall i :: 0 <= i < |init| ==> init[i] == ss[i];
      SumUnchanged(init, lists, contents);
      SumOfUnchanged(Characteristics(ss[|ss| - 1]), lists, contents);
    }
  }

  lemma {:induction false} SumOfUnchanged(cs: seq<Characteristic>, lists: Lists, contents: Lists)
    requires contents.Keys !! lists.Keys
    requires forall c :: c in cs ==> (IoListOf(c).Some? ==> IoListOf(c).value in lists)
    ensures SumOf(cs, Shown(lists + contents)) == SumOf(cs, Shown(lists))
  {
    if cs == [] {
    } else {
      SumOfUnchanged(cs[..|cs| - 1], lists, contents);
      assert cs[|cs| - 1] in cs;
    }
  }

  /** An exported value adds its readings once for each of its copies. */
  lemma ValueIsKeptExactly(st: State, v: CharValue, contents: Lists)
    requires Sound(st) && OwnLists(st, OfValue(v, contents))
    ensures Count(ExportValue(st, v, contents)) == Count(st) + |Items(contents, v.io)| * Copies(st.services, v)
  {
    hide Sum, SumOf, LandingOf, Sound;
    var ss, lists, n := st.services, st.lists + contents, |Items(contents, v.io)|;
    assert Items(lists, v.io) == Items(contents, v.io);
    forall i, c | 0 <= i < |ss| && c in Characteristics(ss[i]) &&
          IoListOf(c).Some? ensures IoListOf(c).value in st.lists {
      StoredListIsKnown(st, i, c);
    }
    SumUnchanged(ss, st.lists, contents);
    match LandingOf(ss, v) {
      case Extends(i, j, a) =>
        StoredListIsKnown(st, i, Characteristics(ss[i])[j]);
        SumGrows(ss, lists, a, Items(lists, v.io));
        Distribute(n, Holders(ss, a), 1);
        SumWithPlaceholder(ss, PlaceholderCharacteristic(v), Shown(ExportValue(st, v, contents).lists));
      case _ =>
        SumAfterValue(st, v, contents, Shown(lists));
    }
  }

  /** After any run: once if there was no value, thrice if the value's list was taken over, else twice. */
  lemma CopiesExactly(exports: seq<Export>, v: CharValue)
    requires Legal(exports) && v.io.Some?
    ensures var ss, landing := Run(exports).services, LandingOf(Run(exports).services, v);
            Copies(ss, v) == if !HasValueAlready(ss, v) then 1
                             else if landing.Extends? && landing.list in AdoptedIn(exports) then 3 else 2
  {
    var ss, landing := Run(exports).services, LandingOf(Run(exports).services, v);
    if landing.Extends? {
      SharedExactly(exports, landing.list);
      SumCovers(ss, landing.service, Characteristics(ss[landing.service])[landing.characteristic],
            HasList(landing.list));
    }
  }

  // ---------- Nothing is lost ----------

  predicate Shows(lists: Lists, c: Characteristic, h: nat, io: Io) {
    c.valueHandle == h && io in Items(lists, IoListOf(c))
  }

  /** Some characteristic with this value handle shows this access. */
  ghost predicate Recorded(st: State, h: nat, io: Io) {
    exists c :: InStore(st.services, c) && Shows(st.lists, c, h, io)
  }

  ghost predicate Brings(e: Export, h: nat, io: Io) {
    match e
    case OfService(s, contents) => exists c :: c in Characteristics(s) && Shows(contents, c, h, io)
    case OfCharacteristic(c, contents) => Shows(contents, c, h, io)
    case OfValue(v, contents) => v.handle == h && io in Items(contents, v.io)
  }

  /** The characteristics an export may add. */
  ghost predicate Adds(ss: seq<Service>, e: Export, c: Characteristic) {
    match e
    case OfService(s, _) => c in Characteristics(s)
    case OfCharacteristic(d, _) => c == d
    case OfValue(v, _) =>
      || c == PlaceholderCharacteristic(v)
      || match LandingOf(ss, v)
         case FirstValue(i, j) => c == WithValue(ss, i, j, v)
         case Adopts(i, j) => c == Adopted(ss, i, j, v)
         case _ => false
  }

  lemma StoreSnoc(ss: seq<Service>, s: Service, c: Characteristic)
    ensures InStore(ss + [s], c) <==> InStore(ss, c) || c in Characteristics(s)
  {
    var all := ss + [s];
    assert all[|ss|] == s;
    if InStore(ss, c) {
      var i :| 0 <= i < |ss| && c in Characteristics(ss[i]);
      assert all[i] == ss[i];
    }
  }

  /** Replacing the characteristics of a service, all but one without a list kept. */
  lemma StoreReplace(ss: seq<Service>, i: nat, cs: seq<Characteristic>, c: Characteristic)
    requires i < |ss|
    requires forall d :: d in Characteristics(ss[i]) && IoListOf(d).Some? ==> d in cs
    ensures InStore(ss[i := WithCharacteristics(ss[i], cs)], c) ==> InStore(ss, c) || c in cs
    ensures InStore(ss, c) && IoListOf(c).Some? ==> InStore(ss[i := WithCharacteristics(ss[i], cs)], c)
    ensures c in cs ==> InStore(ss[i := WithCharacteristics(ss[i], cs)], c)
  {
    var all := ss[i := WithCharacteristics(ss[i], cs)];
    assert all[i] == WithCharacteristics(ss[i], cs);
    if InStore(all, c) {
      var k :| 0 <= k < |all| && c in Characteristics(all[k]);
      assert k != i ==> ss[k] == all[k];
    }
    if InStore(ss, c) {
      var k :| 0 <= k < |ss| && c in Characteristics(ss[k]);
      assert k != i ==> all[k] == ss[k];
    }
  }

  lemma StoreWithChar(ss: seq<Service>, i: nat, j: nat, d: Characteristic, c: Characteristic)
    requires i < |ss| && j < |Characteristics(ss[i])| && IoListOf(Characteristics(ss[i])[j]).None?
    ensures InStore(WithChar(ss, i, j, d), c) ==> InStore(ss, c) || c == d
    ensures InStore(ss, c) && IoListOf(c).Some? ==> InStore(WithChar(ss, i, j, d), c)
    ensures InStore(WithChar(ss, i, j, d), d)
  {
    var cs := Characteristics(ss[i]);
    var ds := cs[j := d];
    forall x | x in cs && IoListOf(x).Some? ensures x in ds {
      var k :| 0 <= k < |cs| && cs[k] == x;
      assert ds[k] == x;
    }
    assert ds[j] == d;
    assert c in ds ==> c in cs || c == d;
    assert c in cs ==> InStore(ss, c);
    StoreReplace(ss, i, ds, c);
    StoreReplace(ss, i, ds, d);
  }

  /** An export adds nothing but its own, and drops nothing that has a list. */
  lemma StoreAfter(st: State, e: Export, c: Characteristic)
    ensures InStore(Apply(st, e).services, c) ==> InStore(st.services, c) || Adds(st.services, e, c)
    ensures InStore(st.services, c) && IoListOf(c).Some? ==> InStore(Apply(st, e).services, c)
  {
    hide InStore, FindService, FindHeader, FindEqualService, FindEqualCharacteristic, LandingOf;
    var ss := st.services;
    match e {
      case OfService(s, _) => StoreSnoc(ss, s, c);
      case OfCharacteristic(d, contents) => StoreAfterInsert(st.lists + contents, ss, d, c);
      case OfValue(v, _) => StoreAfterValue(st, v, e.contents, c);
    }
  }

  lemma StoreAfterInsert(lists: Lists, ss: seq<Service>, d: Characteristic, c: Characteristic)
    ensures InStore(Insert(lists, ss, ServiceFor(ss, d), d), c) ==> InStore(ss, c) || c == d
    ensures InStore(ss, c) ==> InStore(Insert(lists, ss, ServiceFor(ss, d), d), c) || IoListOf(c).None?
    ensures exists x :: InStore(Insert(lists, ss, ServiceFor(ss, d), d), x) && SameCharacteristic(lists, x, d)
  {
    hide FindHeader, FindService, FindEqualCharacteristic;
    if FindService(ss, d.handle).Some? {
      FoundAgain(ss, d.handle);
    }
    match FindHeader(ss, ServiceFor(ss, d)) {
      case None =>
        StoreSnoc(ss, PlaceholderService(d), c);
        StoreSnoc(ss, PlaceholderService(d), d);
      case Some(i) =>
        var cs := Characteristics(ss[i]);
        var found := FindEqualCharacteristic(lists, cs, d);
        if found.Some? {
          assert ss[i := ss[i]] == ss && cs[found.value] in cs;
          assert InStore(ss, cs[found.value]);
        } else {
          assert c in cs ==> InStore(ss, c);
          StoreReplace(ss, i, cs + [d], c);
          StoreReplace(ss, i, cs + [d], d);
        }
    }
  }

  lemma StoreAfterValue(st: State, v: CharValue, contents: Lists, c: Characteristic)
    ensures var after := ExportValue(st, v, contents).services;
            && (InStore(after, c) ==> InStore(st.services, c) || Adds(st.services, OfValue(v, contents), c))
            && (InStore(st.services, c) && IoListOf(c).Some? ==> InStore(after, c))
            && (v.io.Some? ==> exists x :: InStore(after, x) && IoListOf(x) == v.io && x.valueHandle == v.handle)
  {
    hide InStore, LandingOf;
    var ss, p := st.services, PlaceholderCharacteristic(v);
    StoreSnoc(ss, PlaceholderService(p), c);
    StoreSnoc(ss, PlaceholderService(p), p);
    match LandingOf(ss, v) {
      case NewCharacteristic(i) =>
        var cs := Characteristics(ss[i]);
        StoredIn(ss, i, c);
        StoreReplace(ss, i, cs + [p], c);
        StoreReplace(ss, i, cs + [p], p);
      case FirstValue(i, j) =>
        StoreWithChar(ss, i, j, WithValue(ss, i, j, v), c);
      case Adopts(i, j) =>
        StoreWithChar(ss, i, j, Adopted(ss, i, j, v), c);
        StoreSnoc(WithChar(ss, i, j, Adopted(ss, i, j, v)), PlaceholderService(p), c);
        StoreSnoc(WithChar(ss, i, j, Adopted(ss, i, j, v)), PlaceholderService(p), p);
      case _ =>
    }
  }

  lemma StoredIn(ss: seq<Service>, i: nat, c: Characteristic)
    requires i < |ss|
    ensures c in Characteristics(ss[i]) ==> InStore(ss, c)
  {
  }

  /** Characteristics that share a list have one value handle. */
  ghost predicate Coherent(ss: seq<Service>) {
    forall c, d :: InStore(ss, c) && InStore(ss, d) && IoListOf(c).Some? && IoListOf(c) == IoListOf(d) ==>
                     c.valueHandle == d.valueHandle
  }

  lemma {:induction false} TwoHolders(cs: seq<Characteristic>, c: Characteristic, d: Characteristic, a: ListId)
    requires c in cs && d in cs && c != d && IoListOf(c) == IoListOf(d) == Some(a)
    ensures SumOf(cs, HasList(a)) >= 2
  {
    var init, last := cs[..|cs| - 1], cs[|cs| - 1];
    assert cs == init + [last];
    if last == c {
      SumOfCovers(init, d, HasList(a));
    } else if last == d {
      SumOfCovers(init, c, HasList(a));
    } else {
      TwoHolders(init, c, d, a);
    }
  }

  lemma AddedAreCoherent(st: State, e: Export, c: Characteristic, d: Characteristic)
    requires OwnLists(st, e) && Adds(st.services, e, c) && Adds(st.services, e, d) && IoListOf(c).Some?
    ensures IoListOf(c).value in e.contents
    ensures IoListOf(c) == IoListOf(d) ==> c.valueHandle == d.valueHandle
  {
    if e.OfService? {
      var a := IoListOf(c).value;
      HoldersOfOne(e.service, a);
      SumOfCovers(Characteristics(e.service), c, HasList(a));
      if IoListOf(c) == IoListOf(d) && c != d {
        TwoHolders(Characteristics(e.service), c, d, a);
      }
    }
  }

  lemma ApplyKeepsCoherent(st: State, e: Export)
    requires Sound(st) && Coherent(st.services) && OwnLists(st, e)
    ensures Coherent(Apply(st, e).services)
  {
    hide Apply, Adds, OwnLists, InStore, Sound;
    forall c, d | InStore(Apply(st, e).services, c) && InStore(Apply(st, e).services, d)
                  && IoListOf(c).Some? && IoListOf(c) == IoListOf(d)
      ensures c.valueHandle == d.valueHandle
    {
      StoreAfter(st, e, c);
      StoreAfter(st, e, d);
      if Adds(st.services, e, c) {
        AddedAreCoherent(st, e, c, c);
        AddedIsNew(st, e, c, d);
        AddedAreCoherent(st, e, c, d);
      } else if Adds(st.services, e, d) {
        AddedAreCoherent(st, e, d, d);
        AddedIsNew(st, e, d, c);
      }
    }
  }

  /** What holds a list of the export was not there before. */
  lemma AddedIsNew(st: State, e: Export, c: Characteristic, d: Characteristic)
    requires Sound(st) && OwnLists(st, e) && IoListOf(c).Some? && IoListOf(c).value in e.contents &&
                IoListOf(c) == IoListOf(d)
    requires InStore(Apply(st, e).services, d)
    ensures !InStore(st.services, d) && Adds(st.services, e, d)
  {
    StoreAfter(st, e, d);
    if InStore(st.services, d) {
      var i :| 0 <= i < |st.services| && d in Characteristics(st.services[i]);
      StoredListIsKnown(st, i, d);
    }
  }

  lemma {:induction false} RunIsCoherent(exports: seq<Export>)
    requires Legal(exports)
    ensures Coherent(Run(exports).services)
  {
    if exports == [] {
    } else {
      hide Apply, Coherent, OwnLists;
      RunIsSound(exports[..|exports| - 1]);
      RunIsCoherent(exports[..|exports| - 1]);
      ApplyKeepsCoherent(Run(exports[..|exports| - 1]), exports[|exports| - 1]);
    }
  }

  /** What the lists hold after an export: what they held, what it brought, and more in the one list it extends. */
  lemma ItemsAfter(st: State, e: Export, c: Characteristic, io: Io)
    requires Sound(st) && Coherent(st.services) && OwnLists(st, e) && InStore(st.services, c)
    ensures io in Items(Apply(st, e).lists, IoListOf(c)) ==>
              io in Items(st.lists, IoListOf(c)) || Brings(e, c.valueHandle, io)
    ensures io in Items(st.lists, IoListOf(c)) ==> io in Items(Apply(st, e).lists, IoListOf(c))
  {
    hide FindService, FindHeader, FindEqualService, FindEqualCharacteristic, LandingOf, Sound;
    var i :| 0 <= i < |st.services| && c in Characteristics(st.services[i]);
    if IoListOf(c).Some? {
      StoredListIsKnown(st, i, c);
      if e.OfValue? && LandingOf(st.services, e.value).Extends? {
        var l := LandingOf(st.services, e.value);
        var found := Characteristics(st.services[l.service])[l.characteristic];
        StoredListIsKnown(st, l.service, found);
        StoredIn(st.services, l.service, found);
      }
    }
  }

  /** What an added characteristic shows is what the export brings. */
  lemma AddedShowsBrought(st: State, e: Export, c: Characteristic, h: nat, io: Io)
    requires OwnLists(st, e) && Sound(st) && Adds(st.services, e, c) && Shows(Apply(st, e).lists, c, h, io)
    ensures Brings(e, h, io)
  {
    hide FindService, FindHeader, FindEqualService, FindEqualCharacteristic, Sound;
    AddedAreCoherent(st, e, c, c);
    if e.OfValue? && LandingOf(st.services, e.value).Extends? {
      var l := LandingOf(st.services, e.value);
      StoredListIsKnown(st, l.service, Characteristics(st.services[l.service])[l.characteristic]);
    }
  }

  /** What an export brings shows afterwards, even where it found its equal. */
  lemma BroughtIsRecorded(st: State, e: Export, h: nat, io: Io)
    requires OwnLists(st, e) && Sound(st) && Brings(e, h, io)
    ensures Recorded(Apply(st, e), h, io)
  {
    hide FindService, FindHeader, LandingOf, InStore, Sound;
    match e {
      case OfService(s, contents) =>
        var c :| c in Characteristics(s) && Shows(contents, c, h, io);
        var lists := st.lists + contents;
        StoreSnoc(st.services, s, c);
        var found := FindEqualService(lists, st.services, s);
        if found.Some? {
          var j :| 0 <= j < |Characteristics(s)| && Characteristics(s)[j] == c;
          var d := Characteristics(st.services[found.value])[j];
          assert SameCharacteristic(lists, d, c);
          StoredIn(st.services, found.value, d);
          assert Shows(lists, d, h, io);
        }
      case OfCharacteristic(c, contents) =>
        var lists := st.lists + contents;
        StoreAfterInsert(lists, st.services, c, c);
        var x :| InStore(Insert(lists, st.services, ServiceFor(st.services, c), c), x) &&
              SameCharacteristic(lists, x, c);
        assert x.(value := None).valueHandle == c.(value := None).valueHandle;
        assert Shows(lists, x, h, io);
      case OfValue(v, contents) =>
        StoreAfterValue(st, v, contents, PlaceholderCharacteristic(v));
        var x :| InStore(Apply(st, e).services, x) && IoListOf(x) == v.io && x.valueHandle == v.handle;
        if LandingOf(st.services, v).Extends? {
          var l := LandingOf(st.services, v);
          StoredListIsKnown(st, l.service, Characteristics(st.services[l.service])[l.characteristic]);
        }
        assert Shows(Apply(st, e).lists, x, h, io);
    }
  }

  lemma ApplyRecords(st: State, e: Export, h: nat, io: Io)
    requires Sound(st) && Coherent(st.services) && OwnLists(st, e)
    ensures Recorded(Apply(st, e), h, io) <==> Recorded(st, h, io) || Brings(e, h, io)
  {
    hide Apply, Adds, OwnLists, InStore, Sound, Coherent, Brings;
    var st' := Apply(st, e);
    if Recorded(st', h, io) {
      var c :| InStore(st'.services, c) && Shows(st'.lists, c, h, io);
      StoreAfter(st, e, c);
      if Adds(st.services, e, c) {
        AddedShowsBrought(st, e, c, h, io);
      } else {
        ItemsAfter(st, e, c, io);
      }
    }
    if Recorded(st, h, io) {
      var c :| InStore(st.services, c) && Shows(st.lists, c, h, io);
      StoreAfter(st, e, c);
      ItemsAfter(st, e, c, io);
    }
    if Brings(e, h, io) {
      BroughtIsRecorded(st, e, h, io);
    }
  }

  ghost predicate Exported(exports: seq<Export>, h: nat, io: Io) {
    exists i :: 0 <= i < |exports| && Brings(exports[i], h, io)
  }

  lemma ExportedSnoc(exports: seq<Export>, e: Export, h: nat, io: Io)
    ensures Exported(exports + [e], h, io) <==> Exported(exports, h, io) || Brings(e, h, io)
  {
    hide Brings;
    var all := exports + [e];
    assert all[|exports|] == e;
    if Exported(exports, h, io) {
      var i :| 0 <= i < |exports| && Brings(exports[i], h, io);
      assert all[i] == exports[i];
    }
  }

  /** What can be read back under a value handle is exactly what was exported for it: nothing lost, nothing made up. */
  lemma {:induction false} RunRecordsWhatWasExported(exports: seq<Export>, h: nat, io: Io)
    requires Legal(exports)
    ensures Recorded(Run(exports), h, io) <==> Exported(exports, h, io)
  {
    if exports == [] {
    } else {
      var before, e := exports[..|exports| - 1], exports[|exports| - 1];
      assert Legal(before) && OwnLists(Run(before), e) && Run(exports) == Apply(Run(before), e);
      hide Recorded, Brings, Apply, Sound, Coherent, OwnLists, Exported, Run, Legal;
      RunIsSound(before);
      RunIsCoherent(before);
      RunRecordsWhatWasExported(before, h, io);
      ApplyRecords(Run(before), e, h, io);
      assert exports == before + [e];
      ExportedSnoc(before, e, h, io);
    }
  }

  // ---------- Two runs that keep readings more than once ----------

  /** Two values of one handle under one service: the second is kept twice. */
  lemma SecondValueIsKeptTwice(s: Service, h: nat, a: Io, b: Io)
    requires InRange(s, h) && s.characteristics.None?
    ensures var exports := [OfService(s, map[]), OfValue(CharValue(h, Some(0)), map[0 := [a]]),
                            OfValue(CharValue(h, Some(1)), map[1 := [b]])];
            Legal(exports) && Count(Run(exports)) == 3
  {
    hide Sum, SumOf, Sound, Apply, LandingOf, ExportValue;
    var v, w := CharValue(h, Some(0)), CharValue(h, Some(1));
    var e0, e1, e2 := OfService(s, map[]), OfValue(v, map[0 := [a]]), OfValue(w, map[1 := [b]]);
    assert [e0] + [e1] == [e0, e1] && [e0, e1] + [e2] == [e0, e1, e2];
    var st1 := BareService(s);
    var st2 := Apply(st1, e1);
    BareLandings(s, v, w);
    ApplyValue(st1, v, map[0 := [a]]);
    OneMore([e0], e1, st1);
    OneMore([e0, e1], e2, st2);
    HoldersAfter(st1, e1, 0);
    ValueIsKeptExactly(st1, v, map[0 := [a]]);
    ValueIsKeptExactly(st2, w, map[1 := [b]]);
    StoredOnce(s, PlaceholderCharacteristic(v), 0);
    ApplyValue(st2, w, map[1 := [b]]);
  }

  lemma ApplyValue(st: State, v: CharValue, contents: Lists)
    ensures Apply(st, OfValue(v, contents)) == ExportValue(st, v, contents)
  {
  }

  /** A run of one service without characteristics. */
  lemma BareService(s: Service) returns (st: State)
    requires s.characteristics.None?
    ensures st == State([s], map[]) && Run([OfService(s, map[])]) == st && Legal([OfService(s, map[])])
    ensures Sound(st) && Count(st) == 0
  {
    st := State([s], map[]);
    var e := OfService(s, map[]);
    assert [e][..0] == [] && [] + [s] == [s];
    var none: Lists := map[];
    assert none + none == none;
    SumSnoc([], s, Shown(map[]));
    forall a ensures Holders([s], a) == 0 {
      HoldersOfOne(s, a);
    }
    assert Run([e]) == Apply(Run([]), e) && Legal([e][..0]);
  }

  lemma OneMore(exports: seq<Export>, e: Export, st: State)
    requires Legal(exports) && Run(exports) == st && OwnLists(st, e)
    ensures Legal(exports + [e]) && Run(exports + [e]) == Apply(st, e) && Sound(st) && Sound(Apply(st, e))
  {
    hide Apply, OwnLists;
    assert (exports + [e])[..|exports|] == exports;
    RunSnoc(exports, e);
    RunIsSound(exports);
    RunIsSound(exports + [e]);
  }

  /** The first value of a bare service makes a characteristic, and the second one extends it. */
  lemma BareLandings(s: Service, v: CharValue, w: CharValue)
    requires InRange(s, v.handle) && s.characteristics.None? && w.handle == v.handle && v.io.Some? && w.io.Some?
    ensures LandingOf([s], v) == NewCharacteristic(0)
    ensures forall lists, contents ::
              ExportValue(State([s], lists), v, contents) ==
              State([WithCharacteristics(s, [PlaceholderCharacteristic(v)])], lists + contents)
    ensures LandingOf([WithCharacteristics(s, [PlaceholderCharacteristic(v)])], w) == Extends(0, 0, v.io.value)
  {
    var c := PlaceholderCharacteristic(v);
    var ss := [WithCharacteristics(s, [c])];
    assert FindService([s], v.handle) == Some(0) && FindService(ss, v.handle) == Some(0);
    assert Characteristics(s) + [c] == [c] && [s][0 := ss[0]] == ss;
    assert FindByValueHandle([c], v.handle) == Some(0);
  }

  lemma StoredOnce(s: Service, c: Characteristic, a: ListId)
    ensures Holders([WithCharacteristics(s, [c])], a) == HasList(a)(c)
  {
    HoldersOfOne(WithCharacteristics(s, [c]), a);
    SumOfOne(c, HasList(a));
  }

  /**
   A characteristic whose value arrived without a list, as the exporter of declarations leaves it: the first reading
   is kept twice, in one list, and the second one three times.
   */
  lemma SharedListIsKeptThrice(s: Service, c: Characteristic, h: nat, a: Io, b: Io)
    requires InRange(s, c.handle) && InRange(s, h) && s.characteristics.None?
    requires c.valueHandle == h && c.value == Some(CharValue(h, None))
    ensures var exports := [OfService(s, map[]), OfCharacteristic(c, map[]),
                            OfValue(CharValue(h, Some(0)), map[0 := [a]]),
                                  OfValue(CharValue(h, Some(1)), map[1 := [b]])];
            && Legal(exports)
            && Count(Run(exports[..3])) == 2 && Count(Run(exports)) == 5
  {
    hide Sum, SumOf, Sound, Apply, LandingOf, ExportValue;
    var v, w := CharValue(h, Some(0)), CharValue(h, Some(1));
    var e0, e1, e2, e3 := OfService(s, map[]), OfCharacteristic(c, map[]), OfValue(v, map[0 := [a]]),
                          OfValue(w, map[1 := [b]]);
    var exports := [e0, e1, e2, e3];
    assert [e0] + [e1] == [e0, e1] && [e0, e1] + [e2] == exports[..3] && exports[..3] + [e3] == exports;
    var st1 := BareService(s);
    var st2 := Apply(st1, e1);
    var st3 := Apply(st2, e2);
    DeclarationLandings(s, c, v, w);
    ApplyValue(st2, v, map[0 := [a]]);
    ApplyValue(st3, w, map[1 := [b]]);
    OneMore([e0], e1, st1);
    OneMore([e0, e1], e2, st2);
    OneMore(exports[..3], e3, st3);
    NothingShown(s, c);
    HoldersAfter(st2, e2, 0);
    ValueIsKeptExactly(st2, v, map[0 := [a]]);
    ValueIsKeptExactly(st3, w, map[1 := [b]]);
  }

  lemma NothingShown(s: Service, c: Characteristic)
    requires IoListOf(c).None?
    ensures Count(State([WithCharacteristics(s, [c])], map[])) == 0
  {
    var t := WithCharacteristics(s, [c]);
    SumSnoc([], t, Shown(map[]));
    SumOfOne(c, Shown(map[]));
    assert [] + [t] == [t];
  }

  /** A declared characteristic: the first value gives it a list, the second one extends it. */
  lemma DeclarationLandings(s: Service, c: Characteristic, v: CharValue, w: CharValue)
    requires InRange(s, c.handle) && InRange(s, v.handle) && s.characteristics.None? && w.handle == v.handle
    requires c.valueHandle == v.handle && c.value == Some(CharValue(v.handle, None)) && v.io.Some? && w.io.Some?
    ensures Apply(State([s], map[]), OfCharacteristic(c, map[])) == State([WithCharacteristics(s, [c])], map[])
    ensures LandingOf([WithCharacteristics(s, [c])], v) == Adopts(0, 0)
    ensures forall contents ::
              var after := ExportValue(State([WithCharacteristics(s, [c])], map[]), v, contents);
              LandingOf(after.services, w) == Extends(0, 0, v.io.value) && after.lists == contents
  {
    DeclarationArrives(s, c);
    var t := WithCharacteristics(s, [c]);
    var d := c.(value := Some(CharValue(v.handle, v.io)));
    var tt := [WithCharacteristics(s, [d]), PlaceholderService(PlaceholderCharacteristic(v))];
    LandsFirst([t], t, c, v);
    LandsFirst(tt, tt[0], d, w);
    assert [c][0 := d] == [d] && [t][0 := tt[0]] + [tt[1]] == tt;
    hide LandingOf;
    forall contents ensures ExportValue(State([t], map[]), v, contents) == State(tt, contents) {
      var none: Lists := map[];
      assert none + contents == contents;
    }
  }

  lemma DeclarationArrives(s: Service, c: Characteristic)
    requires InRange(s, c.handle) && s.characteristics.None?
    ensures Apply(State([s], map[]), OfCharacteristic(c, map[])) == State([WithCharacteristics(s, [c])], map[])
  {
    var none: Lists := map[];
    assert none + none == none;
    assert FindService([s], c.handle) == Some(0) && SameHeader(s, s) && FindHeader([s], s) == Some(0);
    assert Characteristics(s) + [c] == [c] && [s][0 := WithCharacteristics(s, [c])] == [WithCharacteristics(s, [c])];
  }

  /** The first service is around the handle and has the one characteristic for it, with a value. */
  lemma LandsFirst(ss: seq<Service>, t: Service, c: Characteristic, v: CharValue)
    requires ss != [] && ss[0] == t && InRange(t, v.handle) && t.characteristics == Some([c])
    requires c.valueHandle == v.handle && c.value.Some? && v.io.Some?
    ensures LandingOf(ss, v) ==
            if c.value.value.io.None? then Adopts(0, 0) else Extends(0, 0, c.value.value.io.value)
  {
    assert FindService(ss, v.handle) == Some(0) && FindByValueHandle([c], v.handle) == Some(0);
  }
}
