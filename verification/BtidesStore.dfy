/**
 The same data as shared mutable objects: `BTIDES_JSON` is a list of entries, `BTIDES_JSON_by_bdaddr_key` an index
 that points at some of them.  Every operation keeps the index right and does what BtidesModel says.
 */
module BtidesStore {
  import opened Wrappers
  import M = BtidesModel
  import Text

  /** A base entry; its identifying fields never change once it is made, its arrays do. */
  class Entry {
    const bdaddr: Option<string>
    const random: Option<int>
    const connectInd: Option<M.Value>
    var arrays: map<string, seq<M.Item>>

    constructor (e: M.Entry)
      ensures bdaddr == e.bdaddr && random == e.random && connectInd == e.connectInd && arrays == e.arrays
    {
      bdaddr, random, connectInd, arrays := e.bdaddr, e.random, e.connectInd, e.arrays;
    }

    function Value(): M.Entry
      reads this
    {
      M.Entry(bdaddr, random, connectInd, arrays)
    }
  }

  function KeyOf(e: Entry): Option<M.Key> {
    M.KeyFrom(e.bdaddr, e.random)
  }

  function KeysOf(list: seq<Entry>): seq<Option<M.Key>> {
    seq(|list|, i requires 0 <= i < |list| => KeyOf(list[i]))
  }

  function ConnectIndsOf(list: seq<Entry>): seq<Option<M.Value>> {
    seq(|list|, i requires 0 <= i < |list| => list[i].connectInd)
  }

  /** The dictionary sends every address in the list to the last entry that has it, and holds nothing else. */
  ghost predicate Indexes(index: map<M.Key, Entry>, list: seq<Entry>) {
    forall k :: match M.LastOf(KeysOf(list), k)
                case None => k !in index
                case Some(i) => k in index && index[k] == list[i]
  }

  lemma RegisteringIndexes(index: map<M.Key, Entry>, list: seq<Entry>, e: Entry)
    requires Indexes(index, list)
    ensures Indexes(if KeyOf(e).Some? then index[KeyOf(e).value := e] else index, list + [e])
  {
    var keys := KeysOf(list + [e]);
    assert keys[..|keys| - 1] == KeysOf(list) && keys[|keys| - 1] == KeyOf(e);
    forall k ensures match M.LastOf(keys, k)
                     case None => M.LastOf(KeysOf(list), k).None?
                     case Some(i) => if KeyOf(e) == Some(k) then i == |list| else M.LastOf(KeysOf(list), k) == Some(i) {
    }
  }

  class Store {
    var list: seq<Entry>
    var index: map<M.Key, Entry>

    ghost predicate Valid()
      reads this
    {
      (forall i, j :: 0 <= i < j < |list| ==> list[i] != list[j]) && Indexes(index, list)
    }

    ghost function View(): seq<M.Entry>
      reads this, list
    {
      seq(|list|, i requires 0 <= i < |list| reads this, list => list[i].Value())
    }

    constructor ()
      ensures Valid() && View() == [] && list == []
    {
      list, index := [], map[];
    }

    lemma ViewKeys()
      ensures M.Keys(View()) == KeysOf(list) && M.ConnectInds(View()) == ConnectIndsOf(list)
    {
    }

    /** `lookup_SingleBDADDR_base_entry`: one dictionary access. */
    method LookupSingle(bdaddr: string, random: Option<int>) returns (e: Entry?)
      requires Valid()
      ensures match M.LastOf(M.Keys(View()), (Text.Lower(bdaddr), random))
              case None => e == null
              case Some(i) => e == list[i]
    {
      ViewKeys();
      var key := (Text.Lower(bdaddr), random);
      e := if key in index then index[key] else null;
    }

    /** `lookup_DualBDADDR_base_entry`: a scan that stops at the first match. */
    method LookupDual(connectInd: M.Value) returns (e: Entry?)
      ensures match M.FirstOf(M.ConnectInds(View()), connectInd)
              case None => e == null
              case Some(i) => e == list[i]
    {
      ViewKeys();
      ghost var connectInds := ConnectIndsOf(list);
      for i := 0 to |list|
        invariant forall j :: 0 <= j < i ==> connectInds[j] != Some(connectInd)
      {
        assert connectInds[i] == list[i].connectInd;
        if list[i].connectInd == Some(connectInd) {
          return list[i];
        }
      }
      e := null;
    }

    /** `register_SingleBDADDR_in_index`. */
    method Register(base: Entry)
      modifies this`index
      ensures index == if KeyOf(base).Some? then old(index)[KeyOf(base).value := base] else old(index)
    {
      if base.bdaddr.None? {
        return;
      }
      index := index[(Text.Lower(base.bdaddr.value), base.random) := base];
    }

    /** `rebuild_SingleBDADDR_index`. */
    method Rebuild()
      requires forall i, j :: 0 <= i < j < |list| ==> list[i] != list[j]
      modifies this`index
      ensures Valid()
    {
      index := map[];
      for i := 0 to |list|
        invariant Indexes(index, list[..i])
      {
        RegisteringIndexes(index, list[..i], list[i]);
        assert list[..i] + [list[i]] == list[..i + 1];
        if list[i].bdaddr.Some? {
          Register(list[i]);
        }
      }
      assert list[..|list|] == list;
    }

    /** Appends a new base entry, and registers it. */
    method AppendEntry(e: M.Entry)
      requires Valid()
      modifies this
      ensures Valid() && View() == old(View()) + [e]
      ensures |list| == |old(list)| + 1 && list[..|old(list)|] == old(list) && fresh(list[|old(list)|])
    {
      ghost var before := View();
      var base := new Entry(e);
      RegisteringIndexes(index, list, base);
      list := list + [base];
      Register(base);
      assert View() == before + [e];
    }

    /** Replaces one array of the entry at position i, in place. */
    method SetArray(e: Entry, ghost i: nat, name: string, xs: seq<M.Item>)
      requires Valid() && i < |list| && list[i] == e
      modifies e
      ensures Valid() && View() == old(View())[i := M.WithArray(old(View())[i], name, xs)]
    {
      e.arrays := e.arrays[name := xs];
    }

    /** Appends to a named array of an entry unless an equal object is there. */
    method AddToFirstLevel(e: Entry, ghost i: nat, name: string, tier1: M.Item)
      requires Valid() && i < |list| && list[i] == e
      modifies e
      ensures Valid()
      ensures var v := old(View());
              View() == v[i := M.WithArray(v[i], name, M.AppendUnique(M.ArrayOf(v[i], name), tier1))]
    {
      if name !in e.arrays {
        M.NothingToMergeWith(tier1, "", M.Null);
        SetArray(e, i, name, [tier1]);
        return;
      }
      var objs := e.arrays[name];
      for n := 0 to |objs|
        invariant forall m :: 0 <= m < n ==> objs[m] != tier1
      {
        if objs[n] == tier1 {
          assert e.arrays[name := objs] == e.arrays;
          return;
        }
      }
      SetArray(e, i, name, objs + [tier1]);
    }

    /** Merges into the first object with the same header, else appends the whole tier-1 object. */
    method AddToSecondLevel(e: Entry, ghost i: nat, name: string, tier1: M.Item, sub: string, tier2: M.Value)
      requires Valid() && i < |list| && list[i] == e
      requires M.Fits(M.ArrayOf(e.Value(), name), tier1, sub)
      modifies e
      ensures Valid()
      ensures var v := old(View());
              View() == v[i := M.WithArray(v[i], name, M.Merge(M.ArrayOf(v[i], name), tier1, sub, tier2))]
    {
      if name !in e.arrays {
        M.NothingToMergeWith(tier1, sub, tier2);
        SetArray(e, i, name, [tier1]);
        return;
      }
      var objs := e.arrays[name];
      for n := 0 to |objs|
        invariant forall m :: 0 <= m < n ==> !M.PrimitivelyEqual(objs[m], tier1)
      {
        var tier1Obj := objs[n];
        if M.PrimitivelyEqual(tier1Obj, tier1) {
          assert M.FirstMatch(objs, tier1) == Some(n);
          var items := M.AppendUnique(M.SubItems(tier1Obj, sub), tier2);
          SetArray(e, i, name, objs[n := tier1Obj[sub := M.Arr(items)]]);
          return;
        }
      }
      SetArray(e, i, name, objs + [tier1]);
    }

    method InsertSingleFirstLevel(bdaddr: string, random: Option<int>, tier1: Option<M.Item>, name: string)
        returns (ok: bool)
      requires Valid()
      modifies this, list
      ensures Valid() && (ok <==> random.Some? && tier1.Some?)
      ensures View() == if ok then M.InsertFirst(old(View()), M.Single(bdaddr, random.value), name, tier1.value)
                        else old(View())
      ensures forall e :: e in list ==> e in old(list) || fresh(e)
    {
      if random.None? || tier1.None? {
        return false;
      }
      ghost var d := M.Single(bdaddr, random.value);
      ghost var where := M.Find(View(), d);
      var e := LookupSingle(bdaddr, random);
      if e == null {
        AppendEntry(M.WithArray(M.NewEntry(M.Single(bdaddr, random.value)), name, [tier1.value]));
      } else {
        AddToFirstLevel(e, where.value, name, tier1.value);
      }
      ok := true;
    }

    method InsertDualZerothLevel(connectInd: M.Value) returns (ok: bool)
      requires Valid()
      modifies this
      ensures Valid() && ok
      ensures View() == M.InsertZeroth(old(View()), connectInd)
      ensures forall e :: e in list ==> e in old(list) || fresh(e)
    {
      var e := LookupDual(connectInd);
      if e == null {
        AppendEntry(M.NewEntry(M.Dual(connectInd)));
      }
      ok := true;
    }

    method InsertDualFirstLevel(connectInd: M.Value, tier1: Option<M.Item>, name: string) returns (ok: bool)
      requires Valid()
      modifies this, list
      ensures Valid() && (ok <==> tier1.Some?)
      ensures View() == if ok then M.InsertFirst(old(View()), M.Dual(connectInd), name, tier1.value) else old(View())
      ensures forall e :: e in list ==> e in old(list) || fresh(e)
    {
      if tier1.None? {
        return false;
      }
      ghost var where := M.Find(View(), M.Dual(connectInd));
      var e := LookupDual(connectInd);
      if e == null {
        AppendEntry(M.WithArray(M.NewEntry(M.Dual(connectInd)), name, [tier1.value]));
      } else {
        AddToFirstLevel(e, where.value, name, tier1.value);
      }
      ok := true;
    }

    method InsertSingleSecondLevel(bdaddr: string, random: Option<int>, tier1: Option<M.Item>, name: string,
                                   tier2: M.Value, sub: string) returns (ok: bool)
      requires Valid()
      requires random.Some? && tier1.Some? ==> M.FitsIn(View(), M.Single(bdaddr, random.value), name, tier1.value, sub)
      modifies this, list
      ensures Valid() && (ok <==> random.Some? && tier1.Some?)
      ensures View() == if ok then M.InsertSecond(old(View()), M.Single(bdaddr, random.value), name, tier1.value,
                  sub, tier2)
                        else old(View())
      ensures forall e :: e in list ==> e in old(list) || fresh(e)
    {
      if random.None? || tier1.None? {
        return false;
      }
      ghost var where := M.Find(View(), M.Single(bdaddr, random.value));
      var e := LookupSingle(bdaddr, random);
      if e == null {
        AppendEntry(M.WithArray(M.NewEntry(M.Single(bdaddr, random.value)), name, [tier1.value]));
      } else {
        assert View()[where.value] == e.Value();
        AddToSecondLevel(e, where.value, name, tier1.value, sub, tier2);
      }
      ok := true;
    }

    method InsertDualSecondLevel(connectInd: M.Value, tier1: Option<M.Item>, name: string, tier2: M.Value, sub: string)
      returns (ok: bool)
      requires Valid() && (tier1.Some? ==> M.FitsIn(View(), M.Dual(connectInd), name, tier1.value, sub))
      modifies this, list
      ensures Valid() && (ok <==> tier1.Some?)
      ensures View() == if ok then M.InsertSecond(old(View()), M.Dual(connectInd), name, tier1.value, sub, tier2)
                  else old(View())
      ensures forall e :: e in list ==> e in old(list) || fresh(e)
    {
      if tier1.None? {
        return false;
      }
      ghost var where := M.Find(View(), M.Dual(connectInd));
      var e := LookupDual(connectInd);
      if e == null {
        AppendEntry(M.WithArray(M.NewEntry(M.Dual(connectInd)), name, [tier1.value]));
      } else {
        assert View()[where.value] == e.Value();
        AddToSecondLevel(e, where.value, name, tier1.value, sub, tier2);
      }
      ok := true;
    }

    /** `json.load` of a file into the list, with whatever keys it holds, and the rebuild after it. */
    method Load(entries: seq<M.Entry>)
      modifies this
      ensures Valid() && View() == entries
    {
      list := [];
      for i := 0 to |entries|
        invariant |list| == i && forall j :: 0 <= j < i ==> list[j].Value() == entries[j]
        invariant forall j, k :: 0 <= j < k < i ==> list[j] != list[k]
        invariant forall j :: 0 <= j < i ==> fresh(list[j])
      {
        var e := new Entry(entries[i]);
        list := list + [e];
      }
      assert View() == entries;
      Rebuild();
    }

    /** The reset between files: an empty list and an empty index. */
    method Reset()
      modifies this
      ensures Valid() && View() == []
    {
      list, index := [], map[];
    }

    /**
     `filter_BTIDES_by_NOT_args`: drops entries in place, and rebuilds the index if any went.  The survivors are the
     old entries at the ascending positions `kept`.
     */
    method FilterByNotArgs(anyCriterion: bool, remove: M.Entry -> bool) returns (removed: nat, ghost kept: seq<nat>)
      requires Valid()
      modifies this
      ensures Valid()
      ensures |list| == |kept| && removed == |old(list)| - |list|
      ensures forall n :: 0 <= n < |kept| ==> kept[n] < |old(list)| && list[n] == old(list)[kept[n]]
      ensures forall m, n :: 0 <= m < n < |kept| ==> kept[m] < kept[n]
      ensures forall i :: 0 <= i < |old(list)| ==>
                (i !in kept <==>
                 anyCriterion && old(View())[i].bdaddr.Some? && old(View())[i].bdaddr.value != "" &&
                       remove(old(View())[i]))
    {
      if !anyCriterion {
        removed, kept := 0, seq(|list|, i => i);
        forall i | 0 <= i < |list| ensures i in kept {
          assert kept[i] == i;
        }
        return;
      }
      var rest: seq<Entry> := [];
      kept := [];
      for i := 0 to |list|
        invariant |kept| == |rest| <= i
        invariant forall n :: 0 <= n < |kept| ==> kept[n] < i && rest[n] == list[kept[n]]
        invariant forall m, n :: 0 <= m < n < |kept| ==> kept[m] < kept[n]
        invariant forall j :: 0 <= j < i ==>
                    (j !in kept <==> list[j].bdaddr.Some? && list[j].bdaddr.value != "" && remove(list[j].Value()))
      {
        var e := list[i];
        if !(e.bdaddr.Some? && e.bdaddr.value != "" && remove(e.Value())) {
          rest, kept := rest + [e], kept + [i];
        }
      }
      removed := |list| - |rest|;
      AllKept(kept, |list|);
      list := rest;
      if removed > 0 {
        Rebuild();
      } else {
        assert list == old(list);
      }
    }
  }

  /** As many ascending positions as there are: all of them. */
  lemma {:induction false} AllKept(kept: seq<nat>, n: nat)
    requires |kept| <= n && forall i :: 0 <= i < |kept| ==> kept[i] < n
    requires forall i, j :: 0 <= i < j < |kept| ==> kept[i] < kept[j]
    ensures |kept| == n ==> forall i :: 0 <= i < n ==> kept[i] == i
  {
    if n == 0 {
    } else if |kept| == n {
      assert forall i :: 0 <= i < n - 1 ==> kept[i] < kept[n - 1];
      AllKept(kept[..n - 1], n - 1);
      forall i | 0 <= i < n ensures kept[i] == i {
        if i < n - 1 {
          assert kept[..n - 1][i] == i;
        } else if n > 1 {
          assert kept[..n - 1][n - 2] == n - 2 && kept[n - 2] < kept[n - 1];
        }
      }
    }
  }

  /** One insertion of any kind. */
  method Perform(ghost s: M.Schema, store: Store, op: M.Op)
    requires store.Valid() && M.Tidy(s, store.View()) && M.Allowed(s, op)
    modifies store, store.list
    ensures store.Valid() && store.View() == M.Apply(s, old(store.View()), op)
    ensures forall e :: e in store.list ==> e in old(store.list) || fresh(e)
  {
    hide M.Tidy, M.Merge, M.AppendUnique;
    var ok;
    match op {
      case Zeroth(ci) => ok := store.InsertDualZerothLevel(ci);
      case First(d, name, x) =>
        match d {
          case Single(bdaddr, random) => ok := store.InsertSingleFirstLevel(bdaddr, Some(random), Some(x), name);
          case Dual(ci) => ok := store.InsertDualFirstLevel(ci, Some(x), name);
        }
      case Second(d, name, x, sub, y) =>
        M.TidyFitsIn(s, store.View(), d, name, x);
        match d {
          case Single(bdaddr, random) =>
            ok := store.InsertSingleSecondLevel(bdaddr, Some(random), Some(x), name, y, sub);
          case Dual(ci) => ok := store.InsertDualSecondLevel(ci, Some(x), name, y, sub);
        }
    }
  }

  /** Any allowed sequence of insertions, run on the real store: its view is the modelled one, its index right. */
  method RunInsertions(ghost s: M.Schema, ops: seq<M.Op>) returns (store: Store)
    requires forall op :: op in ops ==> M.Allowed(s, op)
    ensures fresh(store) && store.Valid() && store.View() == M.Run(s, ops)
  {
    hide M.Apply, M.Allowed, M.Tidy;
    store := new Store();
    assert M.Run(s, []) == [];
    for n := 0 to |ops|
      invariant fresh(store) && store.Valid()
      invariant forall op :: op in ops[..n] ==> M.Allowed(s, op)
      invariant store.View() == M.Run(s, ops[..n])
      invariant forall e :: e in store.list ==> fresh(e)
    {
      assert ops[..n] + [ops[n]] == ops[..n + 1];
      M.RunSnoc(s, ops[..n], ops[n]);
      assert forall i :: 0 <= i < |store.list| ==> fresh(store.list[i]) by {
        assert forall i :: 0 <= i < |store.list| ==> store.list[i] in store.list;
      }
      Perform(s, store, ops[n]);
    }
    assert ops[..|ops|] == ops;
  }
}
