/** Where an exported service, characteristic or value lands, in any array, and what is there after any run. */
module GattPlaces {
  import opened Collections
  import opened Gatt
  import opened Wrappers

  /** The first service whose range, without its own handle, contains the handle. */
  ghost predicate Around(ss: seq<Service>, i: nat, h: nat) {
    && i < |ss| && ss[i].begin < h <= ss[i].end
    && forall k :: 0 <= k < i ==> !(ss[k].begin < h <= ss[k].end)
  }

  ghost predicate NoneAround(ss: seq<Service>, h: nat) {
    forall k :: 0 <= k < |ss| ==> !(ss[k].begin < h <= ss[k].end)
  }

  /** The first characteristic with the value handle. */
  ghost predicate FirstFor(cs: seq<Characteristic>, j: nat, h: nat) {
    j < |cs| && cs[j].valueHandle == h && forall k :: 0 <= k < j ==> cs[k].valueHandle != h
  }

  /** Only the characteristics of one service differ. */
  ghost predicate OnlyAt(ss: seq<Service>, i: nat, cs: seq<Characteristic>, after: seq<Service>) {
    && |after| == |ss| && (forall k :: 0 <= k < |ss| && k != i ==> after[k] == ss[k])
    && i < |ss| && after[i].begin == ss[i].begin && after[i].end == ss[i].end && after[i].details == ss[i].details
    && after[i].placeholder == ss[i].placeholder && after[i].characteristics == Some(cs)
  }

  function Placeholder(cs: seq<Characteristic>): Service {
    Service(1, 0xFFFF, "FFFF", true, Some(cs))
  }

  lemma AroundIsFound(ss: seq<Service>, h: nat)
    ensures forall i: nat :: Around(ss, i, h) <==> FindService(ss, h) == Some(i)
    ensures NoneAround(ss, h) <==> FindService(ss, h).None?
  {
    hide FindService;
    assert forall k :: 0 <= k < |ss| ==> (InRange(ss[k], h) <==> ss[k].begin < h <= ss[k].end);
    forall i: nat ensures Around(ss, i, h) <==> FindService(ss, h) == Some(i) {
    }
  }

  /** An equal characteristic: the same fields, and, if it has a value with a list, the same readings. */
  ghost predicate Alike(lists: Lists, c: Characteristic, d: Characteristic) {
    && c.handle == d.handle && c.valueHandle == d.valueHandle && c.details == d.details
    && c.placeholder == d.placeholder && (c.value.None? <==> d.value.None?)
    && (c.value.Some? && d.value.Some? ==>
          c.value.value.handle == d.value.value.handle && (c.value.value.io.None? <==> d.value.value.io.None?))
    && Items(lists, IoListOf(c)) == Items(lists, IoListOf(d))
  }

  lemma AlikeIsSame(lists: Lists, c: Characteristic, d: Characteristic)
    ensures Alike(lists, c, d) <==> SameCharacteristic(lists, c, d)
  {
  }

  /** A characteristic joins the first service around its handle, unless an equal one is there already. */
  lemma CharacteristicJoins(st: State, i: nat, c: Characteristic, contents: Lists)
    requires Around(st.services, i, c.handle)
    ensures var cs, after := Characteristics(st.services[i]), ExportCharacteristic(st, c, contents);
            && after.lists == st.lists + contents
            && if exists d :: d in cs && Alike(after.lists, d, c) then after.services == st.services
               else OnlyAt(st.services, i, cs + [c], after.services)
  {
    hide FindService, FindHeader, FindEqualCharacteristic, Alike;
    AroundIsFound(st.services, c.handle);
    FoundAgain(st.services, c.handle);
    var cs, lists := Characteristics(st.services[i]), st.lists + contents;
    forall d ensures Alike(lists, d, c) <==> SameCharacteristic(lists, d, c) {
      AlikeIsSame(lists, d, c);
    }
    assert st.services[i := st.services[i]] == st.services;
  }

  /** One that no service is around makes a placeholder service for every handle, with itself in it. */
  lemma CharacteristicMakesService(st: State, c: Characteristic, contents: Lists)
    requires NoneAround(st.services, c.handle) && 1 < c.handle <= 0xFFFF
    ensures ExportCharacteristic(st, c, contents) ==
            State(st.services + [Placeholder([c])], st.lists + contents)
  {
    hide FindService, FindHeader, FindEqualCharacteristic;
    AroundIsFound(st.services, c.handle);
    assert forall s :: SameHeader(s, PlaceholderService(c)) ==> s.begin < c.handle <= s.end;
  }

  // ---------- Values ----------

  /** The placeholder characteristic of a value. */
  function PlaceholderOf(v: CharValue): Characteristic {
    Characteristic(0xFFFE, v.handle, "FFFF", true, Some(v))
  }

  lemma FirstIsFound(cs: seq<Characteristic>, h: nat)
    ensures forall j: nat :: FirstFor(cs, j, h) <==> FindByValueHandle(cs, h) == Some(j)
    ensures (forall c :: c in cs ==> c.valueHandle != h) <==> FindByValueHandle(cs, h).None?
  {
    hide FindByValueHandle;
    forall j: nat ensures FirstFor(cs, j, h) <==> FindByValueHandle(cs, h) == Some(j) {
    }
  }

  /** No service around the handle: a placeholder service with a placeholder characteristic. */
  lemma ValueMakesService(st: State, v: CharValue, contents: Lists)
    requires NoneAround(st.services, v.handle)
    ensures ExportValue(st, v, contents) ==
            State(st.services + [Placeholder([PlaceholderOf(v)])], st.lists + contents)
  {
    hide FindService;
    AroundIsFound(st.services, v.handle);
  }

  /** A service, but no characteristic for the value: a placeholder characteristic in that service. */
  lemma ValueMakesCharacteristic(st: State, i: nat, v: CharValue, contents: Lists)
    requires Around(st.services, i, v.handle)
    requires forall c :: c in Characteristics(st.services[i]) ==> c.valueHandle != v.handle
    ensures var after := ExportValue(st, v, contents);
            && OnlyAt(st.services, i, Characteristics(st.services[i]) + [PlaceholderOf(v)], after.services)
            && after.lists == st.lists + contents
  {
    hide FindService, FindByValueHandle;
    AroundIsFound(st.services, v.handle);
    FirstIsFound(Characteristics(st.services[i]), v.handle);
  }

  /** The characteristic is there: a first value is put in it, and one without readings to add cannot be exported. */
  lemma ValueIsTheFirst(st: State, i: nat, j: nat, v: CharValue, contents: Lists)
    requires Around(st.services, i, v.handle) && FirstFor(Characteristics(st.services[i]), j, v.handle)
    ensures var cs, after := Characteristics(st.services[i]), ExportValue(st, v, contents);
            && (cs[j].value.None? ==>
                  && OnlyAt(st.services, i, cs[j := cs[j].(value := Some(v))], after.services)
                  && after.lists == st.lists + contents)
            && (cs[j].value.Some? && v.io.None? ==> after == State(st.services, st.lists + contents))
  {
    hide FindService, FindByValueHandle;
    AroundIsFound(st.services, v.handle);
    FirstIsFound(Characteristics(st.services[i]), v.handle);
  }

  /** A value without a list takes over the new one, which then also sits in a placeholder service. */
  lemma ValueIsAdopted(st: State, i: nat, j: nat, v: CharValue, w: CharValue, contents: Lists)
    requires Around(st.services, i, v.handle) && FirstFor(Characteristics(st.services[i]), j, v.handle)
    requires Characteristics(st.services[i])[j].value == Some(w) && w.io.None? && v.io.Some?
    ensures var ss, cs, after := st.services, Characteristics(st.services[i]), ExportValue(st, v, contents);
            && |after.services| == |ss| + 1 && after.services[|ss|] == Placeholder([PlaceholderOf(v)])
            && OnlyAt(ss, i, cs[j := cs[j].(value := Some(CharValue(w.handle, v.io)))], after.services[..|ss|])
            && after.lists == st.lists + contents
  {
    hide FindService, FindByValueHandle;
    AroundIsFound(st.services, v.handle);
    FirstIsFound(Characteristics(st.services[i]), v.handle);
  }

  /** A list that is there grows by the new readings, and the value goes to a placeholder service as well. */
  lemma ValueExtends(st: State, i: nat, j: nat, v: CharValue, w: CharValue, contents: Lists)
    requires Around(st.services, i, v.handle) && FirstFor(Characteristics(st.services[i]), j, v.handle)
    requires Characteristics(st.services[i])[j].value == Some(w) && w.io.Some? && v.io.Some?
    ensures var before, after := st.lists + contents, ExportValue(st, v, contents);
            && after.services == st.services + [Placeholder([PlaceholderOf(v)])]
            && Items(after.lists, w.io) == Items(before, w.io) + Items(before, v.io)
            && forall a: ListId :: Some(a) != w.io ==> Items(after.lists, Some(a)) == Items(before, Some(a))
  {
    hide FindService, FindByValueHandle;
    AroundIsFound(st.services, v.handle);
    FirstIsFound(Characteristics(st.services[i]), v.handle);
  }

  // ---------- What is there after a run ----------

  /** Some stored characteristic has these fields, whatever its value. */
  ghost predicate Declared(ss: seq<Service>, d: Characteristic) {
    exists c :: InStore(ss, c) && c.(value := None) == d
  }

  /** The export brings a characteristic with these fields. */
  ghost predicate Declares(e: Export, d: Characteristic) {
    match e
    case OfService(s, _) => exists c :: c in Characteristics(s) && c.(value := None) == d
    case OfCharacteristic(c, _) => c.(value := None) == d
    case OfValue(_, _) => false
  }

  /** The export may leave a placeholder with these fields. */
  predicate LeavesPlaceholder(e: Export, d: Characteristic) {
    e.OfValue? && d == Characteristic(0xFFFE, e.value.handle, "FFFF", true, None)
  }

  lemma DeclaredIn(ss: seq<Service>, i: nat, c: Characteristic)
    requires i < |ss| && c in Characteristics(ss[i])
    ensures Declared(ss, c.(value := None))
  {
    StoredIn(ss, i, c);
  }

  /** Services only get longer, and their characteristics keep their fields. */
  ghost predicate Covers(ss: seq<Service>, after: seq<Service>) {
    |ss| <= |after| && forall i :: 0 <= i < |ss| ==> CoversService(ss[i], after[i])
  }

  ghost predicate CoversService(s: Service, t: Service) {
    && s.(characteristics := None) == t.(characteristics := None)
    && |Characteristics(s)| <= |Characteristics(t)|
    && forall j :: 0 <= j < |Characteristics(s)| ==>
         Characteristics(s)[j].(value := None) == Characteristics(t)[j].(value := None)
  }

  lemma ApplyCovers(st: State, e: Export)
    ensures Covers(st.services, Apply(st, e).services)
  {
    hide FindService, FindHeader, FindEqualService, FindEqualCharacteristic, LandingOf;
  }

  lemma CoversDeclared(ss: seq<Service>, after: seq<Service>, d: Characteristic)
    requires Covers(ss, after) && Declared(ss, d)
    ensures Declared(after, d)
  {
    var c :| InStore(ss, c) && c.(value := None) == d;
    var i :| 0 <= i < |ss| && c in Characteristics(ss[i]);
    var j :| 0 <= j < |Characteristics(ss[i])| && Characteristics(ss[i])[j] == c;
    assert CoversService(ss[i], after[i]);
    DeclaredIn(after, i, Characteristics(after[i])[j]);
  }

  /** What an export declares is there, even where it found its equal. */
  lemma DeclaredAfter(st: State, e: Export, d: Characteristic)
    requires Declares(e, d)
    ensures Declared(Apply(st, e).services, d)
  {
    hide FindService, FindHeader, LandingOf, InStore;
    match e {
      case OfService(s, contents) =>
        var c :| c in Characteristics(s) && c.(value := None) == d;
        StoreSnoc(st.services, s, c);
        var found := FindEqualService(st.lists + contents, st.services, s);
        if found.Some? {
          var j :| 0 <= j < |Characteristics(s)| && Characteristics(s)[j] == c;
          DeclaredIn(st.services, found.value, Characteristics(st.services[found.value])[j]);
        }
      case OfCharacteristic(c, contents) =>
        StoreAfterInsert(st.lists + contents, st.services, c, c);
    }
  }

  /** What is there was there before, or the export brought it, or it is the placeholder of a value. */
  lemma DeclaredBefore(st: State, e: Export, d: Characteristic)
    requires Declared(Apply(st, e).services, d)
    ensures Declared(st.services, d) || Declares(e, d) || LeavesPlaceholder(e, d)
  {
    hide Apply, LandingOf, InStore;
    var c :| InStore(Apply(st, e).services, c) && c.(value := None) == d;
    StoreAfter(st, e, c);
    if !InStore(st.services, c) && e.OfValue? {
      match LandingOf(st.services, e.value) {
        case FirstValue(i, j) => DeclaredIn(st.services, i, Characteristics(st.services[i])[j]);
        case Adopts(i, j) => DeclaredIn(st.services, i, Characteristics(st.services[i])[j]);
        case _ =>
      }
    }
  }

  lemma {:induction false} DeclaredStays(exports: seq<Export>, k: nat, d: Characteristic)
    requires k < |exports| && Declares(exports[k], d)
    ensures Declared(Run(exports).services, d)
    decreases |exports|
  {
    hide Apply, Declares, Declared, Covers;
    var before, e := exports[..|exports| - 1], exports[|exports| - 1];
    if k < |before| {
      assert before[k] == exports[k];
      DeclaredStays(before, k, d);
      ApplyCovers(Run(before), e);
      CoversDeclared(Run(before).services, Run(exports).services, d);
    } else {
      DeclaredAfter(Run(before), e, d);
    }
  }

  lemma {:induction false} DeclaredCameFrom(exports: seq<Export>, d: Characteristic) returns (k: nat)
    requires Declared(Run(exports).services, d)
    ensures k < |exports| && (Declares(exports[k], d) || LeavesPlaceholder(exports[k], d))
    decreases |exports|
  {
    k := |exports|;
    if exports == [] {
    } else {
      hide Apply, Declares, Declared, LeavesPlaceholder;
      var before, e := exports[..|exports| - 1], exports[|exports| - 1];
      DeclaredBefore(Run(before), e, d);
      if Declared(Run(before).services, d) {
        k := DeclaredCameFrom(before, d);
      } else {
        k := |before|;
      }
    }
  }

  /** After any run exactly the exported characteristics are there, and placeholders of exported values. */
  lemma RunDeclaresWhatWasExported(exports: seq<Export>, d: Characteristic)
    ensures (exists k :: 0 <= k < |exports| && Declares(exports[k], d)) ==> Declared(Run(exports).services, d)
    ensures Declared(Run(exports).services, d) ==>
              exists k :: 0 <= k < |exports| && (Declares(exports[k], d) || LeavesPlaceholder(exports[k], d))
  {
    hide Run, Declares, Declared, LeavesPlaceholder;
    if k: nat :| k < |exports| && Declares(exports[k], d) {
      DeclaredStays(exports, k, d);
    }
    if Declared(Run(exports).services, d) {
      var k := DeclaredCameFrom(exports, d);
    }
  }

  /** Some stored service has these fields, whatever its characteristics. */
  ghost predicate HasService(ss: seq<Service>, t: Service) {
    exists i :: 0 <= i < |ss| && ss[i].(characteristics := None) == t
  }

  predicate BringsService(e: Export, t: Service) {
    e.OfService? && e.service.(characteristics := None) == t
  }

  lemma HasServiceAfter(st: State, e: Export, t: Service)
    ensures HasService(st.services, t) || BringsService(e, t) ==> HasService(Apply(st, e).services, t)
    ensures HasService(Apply(st, e).services, t) ==>
              HasService(st.services, t) || BringsService(e, t) || t == Service(1, 0xFFFF, "FFFF", true, None)
  {
    hide FindService, FindHeader, FindEqualService, FindEqualCharacteristic, LandingOf;
    var ss, after := st.services, Apply(st, e).services;
    ApplyCovers(st, e);
    forall i | 0 <= i < |ss| ensures ss[i].(characteristics := None) == after[i].(characteristics := None) {
      assert CoversService(ss[i], after[i]);
    }
    if BringsService(e, t) && FindEqualService(st.lists + e.contents, ss, e.service).None? {
      assert after[|ss|] == e.service;
    }
  }

  /** After any run exactly the exported services are there, and at most the one placeholder besides. */
  lemma {:induction false} RunHasExportedServices(exports: seq<Export>, t: Service)
    ensures (exists k :: 0 <= k < |exports| && BringsService(exports[k], t)) ==> HasService(Run(exports).services, t)
    ensures HasService(Run(exports).services, t) && t != Service(1, 0xFFFF, "FFFF", true, None) ==>
              exists k :: 0 <= k < |exports| && BringsService(exports[k], t)
  {
    if exports == [] {
    } else {
      hide Apply, BringsService, HasService;
      var before, e := exports[..|exports| - 1], exports[|exports| - 1];
      RunHasExportedServices(before, t);
      HasServiceAfter(Run(before), e, t);
      assert forall k :: 0 <= k < |before| ==> before[k] == exports[k];
    }
  }

  /** A service whose equal is there already is dropped: the same fields, and alike characteristics. */
  lemma EqualServiceIsDropped(st: State, i: nat, s: Service, contents: Lists)
    requires i < |st.services| && st.services[i].(characteristics := None) == s.(characteristics := None)
    requires st.services[i].characteristics.None? <==> s.characteristics.None?
    requires |Characteristics(st.services[i])| == |Characteristics(s)|
    requires forall j :: 0 <= j < |Characteristics(s)| ==>
               Alike(st.lists + contents, Characteristics(st.services[i])[j], Characteristics(s)[j])
    ensures ExportService(st, s, contents).services == st.services
  {
    hide FindEqualService, Alike, SameCharacteristic;
    var lists := st.lists + contents;
    forall j | 0 <= j < |Characteristics(s)|
      ensures SameCharacteristic(lists, Characteristics(st.services[i])[j], Characteristics(s)[j])
    {
      AlikeIsSame(lists, Characteristics(st.services[i])[j], Characteristics(s)[j]);
    }
    assert SameService(lists, st.services[i], s);
  }
}
