/**
 The rows of `bdaddr_to_GPS`, and what the slow and the fast GPS import do to them.

 A row is a key (address, address type, time, position) and an rssi; the unique key of the table covers all
 of them, so the rows of one key are a set of rssi values.  An rssi of 0 stands for "not recorded".
 The connection raises on warnings, so an UPDATE or a bulk INSERT that runs into the unique key ends the import.
 */
module GpsRows {
  import opened Wrappers

  datatype Key = Key(bdaddr: string, random: int, time: nat, timeType: nat, lat: real, lon: real)

  datatype Op = Op(key: Key, rssi: int)

  type Rows = map<Key, set<int>>

  /** The rows as they are when an import ended, or when an exception ended it. */
  datatype Outcome = Done(rows: Rows) | Raised(rows: Rows)

  function At(t: Rows, k: Key): (rssis: set<int>) {
    if k in t then t[k] else {}
  }

  ghost predicate SameRows(t: Rows, u: Rows) {
    forall k :: At(t, k) == At(u, k)
  }

  predicate HasNonZero(s: set<int>) {
    exists r :: r in s && r != 0
  }

  /** The rows worth keeping: zeros only if there is nothing better. */
  function Settle(s: set<int>): set<int> {
    if HasNonZero(s) then s - {0} else s
  }

  /** Rows the table should never hold: a zero beside a non-zero for one key. */
  predicate Coexist(s: set<int>) {
    0 in s && HasNonZero(s)
  }

  // ---------- The statements ----------

  /** UPDATE ... SET rssi = r over all rows of one key; None when the unique key stops it. */
  function UpdateKey(s: set<int>, r: int): Option<set<int>> {
    if |s| >= 2 then None else if s == {} then Some({}) else Some({r})
  }

  function Update(t: Rows, op: Op): Outcome {
    match UpdateKey(At(t, op.key), op.rssi)
    case None => Raised(t)
    case Some(s) => Done(t[op.key := s])
  }

  function Insert(t: Rows, op: Op): Rows {
    t[op.key := At(t, op.key) + {op.rssi}]
  }

  // ---------- One reading at a time ----------

  function SerialStep(t: Rows, op: Op): Outcome {
    var s := At(t, op.key);
    if 0 in s && op.rssi != 0 then Update(t, op)
    else if op.rssi == 0 && HasNonZero(s) then Done(t)
    else Done(Insert(t, op))
  }

  function Serial(t: Rows, ops: seq<Op>): Outcome {
    if ops == [] then Done(t)
    else
      match Serial(t, ops[..|ops| - 1])
      case Raised(u) => Raised(u)
      case Done(u) => SerialStep(u, ops[|ops| - 1])
  }

  // ---------- Decide in memory, then all UPDATEs, then all INSERTs ----------

  datatype Plan = Plan(view: Rows, updates: seq<Op>, inserts: seq<Op>)

  function PlanStep(p: Plan, op: Op): Plan {
    var s := At(p.view, op.key);
    if 0 in s && op.rssi != 0 then
      Plan(p.view[op.key := s - {0} + {op.rssi}], p.updates + [op], p.inserts)
    else if op.rssi == 0 && HasNonZero(s) then p
    else if op.rssi in s || op in p.inserts then p
    else Plan(p.view[op.key := s + {op.rssi}], p.updates, p.inserts + [op])
  }

  function Decide(view: Rows, ops: seq<Op>): Plan {
    if ops == [] then Plan(view, [], []) else PlanStep(Decide(view, ops[..|ops| - 1]), ops[|ops| - 1])
  }

  function RunUpdates(t: Rows, updates: seq<Op>): Outcome {
    if updates == [] then Done(t)
    else
      match RunUpdates(t, updates[..|updates| - 1])
      case Raised(u) => Raised(u)
      case Done(u) => Update(u, updates[|updates| - 1])
  }

  function InsertAll(t: Rows, inserts: seq<Op>): Rows {
    if inserts == [] then t else Insert(InsertAll(t, inserts[..|inserts| - 1]), inserts[|inserts| - 1])
  }

  /** The rows the pre-fetch sees: those of the addresses in the batch. */
  function Fetched(t: Rows, bdaddrs: set<string>): Rows {
    map k | k in t && k.bdaddr in bdaddrs :: t[k]
  }

  function AddressesOf(ops: seq<Op>): set<string> {
    set i | 0 <= i < |ops| :: ops[i].key.bdaddr
  }

  function PlanOf(t: Rows, ops: seq<Op>): Plan {
    Decide(Fetched(t, AddressesOf(ops)), ops)
  }

  function Batch(t: Rows, ops: seq<Op>): Outcome {
    var p := PlanOf(t, ops);
    match RunUpdates(t, p.updates)
    case Raised(u) => Raised(u)
    case Done(u) => Done(InsertAll(u, p.inserts))
  }

  // ---------- The readings of one key ----------

  function Readings(ops: seq<Op>, k: Key): seq<int> {
    if ops == [] then []
    else
      var rest := Readings(ops[..|ops| - 1], k);
      var op := ops[|ops| - 1];
      if op.key == k then rest + [op.rssi] else rest
  }

  function Seen(rs: seq<int>): set<int> {
    set r | r in rs
  }

  function SerialKeyStep(s: set<int>, r: int): Option<set<int>> {
    if 0 in s && r != 0 then UpdateKey(s, r)
    else if r == 0 && HasNonZero(s) then Some(s)
    else Some(s + {r})
  }

  function SerialKey(s: set<int>, rs: seq<int>): Option<set<int>> {
    if rs == [] then Some(s)
    else
      match SerialKey(s, rs[..|rs| - 1])
      case None => None
      case Some(u) => SerialKeyStep(u, rs[|rs| - 1])
  }

  /** Inserting or promoting one key never depends on another key's rows. */
  lemma {:induction false} SerialByKey(t: Rows, ops: seq<Op>)
    ensures Serial(t, ops).Done? ==>
              forall k :: SerialKey(At(t, k), Readings(ops, k)) == Some(At(Serial(t, ops).rows, k))
    ensures Serial(t, ops).Raised? ==> exists k :: SerialKey(At(t, k), Readings(ops, k)) == None
  {
    if ops == [] {
    } else {
      var rest, op := ops[..|ops| - 1], ops[|ops| - 1];
      SerialByKey(t, rest);
      if Serial(t, rest).Raised? {
        var k :| SerialKey(At(t, k), Readings(rest, k)) == None;
        assert Readings(ops, k) == Readings(rest, k) || Readings(ops, k)[..|Readings(ops, k)| - 1] == Readings(rest, k);
      } else {
        var u := Serial(t, rest).rows;
        var rs := Readings(rest, op.key);
        assert (rs + [op.rssi])[..|rs|] == rs;
        assert SerialKey(At(t, op.key), Readings(ops, op.key)) == SerialKeyStep(At(u, op.key), op.rssi);
        if SerialStep(u, op).Raised? {
          assert SerialKey(At(t, op.key), Readings(ops, op.key)) == None;
        } else {
          forall k ensures SerialKey(At(t, k), Readings(ops, k)) == Some(At(Serial(t, ops).rows, k)) {
            if k != op.key {
              assert Readings(ops, k) == Readings(rest, k);
            }
          }
        }
      }
    }
  }

  lemma SettleStep(x: set<int>, r: int)
    ensures HasNonZero(Settle(x)) == HasNonZero(x)
    ensures 0 in Settle(x) && r != 0 ==> Settle(x) == {0} && Settle(x + {r}) == {r}
    ensures r == 0 && HasNonZero(x) ==> Settle(x + {r}) == Settle(x)
    ensures (r == 0 ==> !HasNonZero(x)) && (0 in Settle(x) ==> r == 0) ==> Settle(x + {r}) == Settle(x) + {r}
  {
    if HasNonZero(x) {
      var y :| y in x && y != 0;
      assert y in Settle(x) && y in x + {r};
    } else {
      assert forall y :: y in x ==> y == 0;
      if r != 0 {
        assert r in x + {r};
      }
    }
  }

  /** One reading on a settled key. */
  lemma SettledStep(x: set<int>, r: int)
    ensures SerialKeyStep(Settle(x), r) == Some(Settle(x + {r}))
  {
    hide Settle, HasNonZero;
    SettleStep(x, r);
  }

  lemma SeenSnoc(rs: seq<int>, r: int)
    ensures Seen(rs + [r]) == Seen(rs) + {r}
    ensures HasNonZero(Seen(rs + [r])) == (HasNonZero(Seen(rs)) || r != 0)
  {
    assert r in Seen(rs + [r]) by { assert (rs + [r])[|rs|] == r; }
    assert forall x :: x in rs ==> x in rs + [r];
  }

  /** The closed form of the slow import, for one key. */
  lemma {:induction false} SerialKeyClosedForm(s: set<int>, rs: seq<int>)
    ensures SerialKey(s, rs) ==
            if Coexist(s) then (if !HasNonZero(Seen(rs)) then Some(s) else None)
            else Some(Settle(s + Seen(rs)))
  {
    if rs != [] {
      var rest, r := rs[..|rs| - 1], rs[|rs| - 1];
      assert rs == rest + [r];
      SerialKeyClosedForm(s, rest);
      SeenSnoc(rest, r);
      if Coexist(s) {
        CoexistHasTwo(s);
      } else {
        hide Settle, SerialKeyStep, HasNonZero, Seen;
        SettledStep(s + Seen(rest), r);
        assert s + Seen(rs) == s + Seen(rest) + {r};
      }
    } else {
      assert s + Seen(rs) == s;
      assert !Coexist(s) ==> Settle(s) == s;
    }
  }

  lemma CoexistHasTwo(s: set<int>)
    requires Coexist(s)
    ensures |s| >= 2
  {
    var r :| r in s && r != 0;
    assert {0, r} <= s;
    assert |s| == |s - {0, r}| + |{0, r}|;
  }

  // ---------- The plan, key by key ----------

  datatype KeyPlan = KeyPlan(view: set<int>, updates: seq<int>, inserts: seq<int>)

  function KeyPlanStep(p: KeyPlan, r: int): KeyPlan {
    if 0 in p.view && r != 0 then KeyPlan(p.view - {0} + {r}, p.updates + [r], p.inserts)
    else if r == 0 && HasNonZero(p.view) then p
    else if r in p.view || r in p.inserts then p
    else KeyPlan(p.view + {r}, p.updates, p.inserts + [r])
  }

  function DecideKey(s: set<int>, rs: seq<int>): KeyPlan {
    if rs == [] then KeyPlan(s, [], []) else KeyPlanStep(DecideKey(s, rs[..|rs| - 1]), rs[|rs| - 1])
  }

  lemma {:induction false} ReadingsMember(ops: seq<Op>, op: Op)
    ensures op in ops <==> op.rssi in Readings(ops, op.key)
  {
    if ops == [] {
    } else {
      assert ops == ops[..|ops| - 1] + [ops[|ops| - 1]];
      ReadingsMember(ops[..|ops| - 1], op);
    }
  }

  lemma ReadingsSnoc(ops: seq<Op>, op: Op, k: Key)
    ensures Readings(ops + [op], k) == if op.key == k then Readings(ops, k) + [op.rssi] else Readings(ops, k)
  {
    assert (ops + [op])[..|ops|] == ops;
  }

  function ForKey(p: Plan, k: Key): KeyPlan {
    KeyPlan(At(p.view, k), Readings(p.updates, k), Readings(p.inserts, k))
  }

  lemma PlanStepByKey(p: Plan, op: Op, k: Key)
    ensures ForKey(PlanStep(p, op), k) == if op.key == k then KeyPlanStep(ForKey(p, k), op.rssi) else ForKey(p, k)
  {
    ReadingsSnoc(p.updates, op, k);
    ReadingsSnoc(p.inserts, op, k);
    if op.key == k {
      ReadingsMember(p.inserts, op);
    }
  }

  lemma {:induction false} DecideByKey(view: Rows, ops: seq<Op>, k: Key)
    ensures DecideKey(At(view, k), Readings(ops, k)) == ForKey(Decide(view, ops), k)
  {
    if ops == [] {
    } else {
      var rest, op := ops[..|ops| - 1], ops[|ops| - 1];
      DecideByKey(view, rest, k);
      PlanStepByKey(Decide(view, rest), op, k);
      var rs := Readings(rest, k);
      assert (rs + [op.rssi])[..|rs|] == rs;
    }
  }

  /** No row yet, and the first reading has no rssi. */
  predicate ZeroFirst(s: set<int>, rs: seq<int>) {
    s == {} && rs != [] && rs[0] == 0
  }

  function FirstNonZero(rs: seq<int>): int {
    if rs == [] then 0 else if rs[0] != 0 then rs[0] else FirstNonZero(rs[1..])
  }

  lemma {:induction false} FirstNonZeroSnoc(rs: seq<int>, r: int)
    ensures FirstNonZero(rs + [r]) == if FirstNonZero(rs) != 0 then FirstNonZero(rs) else r
    ensures FirstNonZero(rs) != 0 <==> HasNonZero(Seen(rs))
    ensures FirstNonZero(rs) != 0 ==> FirstNonZero(rs) in Seen(rs)
  {
    if rs == [] {
      assert FirstNonZero([r][1..]) == 0;
    } else {
      FirstNonZeroSnoc(rs[1..], r);
      assert (rs + [r])[1..] == rs[1..] + [r];
      assert rs == [rs[0]] + rs[1..];
      assert Seen(rs) == {rs[0]} + Seen(rs[1..]);
    }
  }

  predicate Distinct<T(==)>(xs: seq<T>) {
    forall i, j :: 0 <= i < j < |xs| ==> xs[i] != xs[j]
  }

  /** What the fast import decides for one key, in closed form. */
  ghost predicate Decided(s: set<int>, rs: seq<int>, p: KeyPlan) {
    && p.view == (if 0 in s && !HasNonZero(Seen(rs)) then s else Settle(s + Seen(rs)))
    && p.updates == (if (0 in s || ZeroFirst(s, rs)) && HasNonZero(Seen(rs)) then [FirstNonZero(rs)] else [])
    && Seen(p.inserts) == p.view + (if ZeroFirst(s, rs) then {0} else {}) - s - Seen(p.updates)
    && Distinct(p.inserts)
  }

  lemma {:induction false} DecideKeyClosedForm(s: set<int>, rs: seq<int>)
    ensures Decided(s, rs, DecideKey(s, rs))
  {
    if rs != [] {
      var rest, r := rs[..|rs| - 1], rs[|rs| - 1];
      DecideKeyClosedForm(s, rest);
      assert rs == rest + [r];
      DecidedStep(s, rest, r, DecideKey(s, rest));
    } else {
      assert s + Seen(rs) == s;
      assert !HasNonZero(Seen(rs));
    }
  }

  lemma DecidedStep(s: set<int>, rest: seq<int>, r: int, p: KeyPlan)
    requires Decided(s, rest, p)
    ensures Decided(s, rest + [r], KeyPlanStep(p, r))
  {
    DecidedView(s, rest, r, p);
    DecidedUpdates(s, rest, r, p);
    DecidedInserts(s, rest, r, p);
  }

  lemma DecidedFromZero(s: set<int>, rest: seq<int>, r: int)
    requires !HasNonZero(Seen(rest)) && r != 0
    ensures Settle(s + Seen(rest) + {r}) == s - {0} + {r}
  {
    assert r in s + Seen(rest) + {r};
    assert forall y :: y in Seen(rest) ==> y == 0;
  }

  lemma ZeroInView(s: set<int>, rest: seq<int>, p: KeyPlan)
    requires Decided(s, rest, p)
    ensures 0 in p.view <==> (0 in s || ZeroFirst(s, rest)) && !HasNonZero(Seen(rest))
  {
    if 0 in p.view && 0 !in s {
      assert !HasNonZero(s + Seen(rest));
      assert forall y :: y in s + Seen(rest) ==> y == 0;
      assert s == {};
      assert rest[0] in Seen(rest);
    }
    if ZeroFirst(s, rest) {
      assert rest[0] in Seen(rest);
    }
  }

  lemma DecidedView(s: set<int>, rest: seq<int>, r: int, p: KeyPlan)
    requires Decided(s, rest, p)
    ensures KeyPlanStep(p, r).view ==
            if 0 in s && !HasNonZero(Seen(rest + [r])) then s else Settle(s + Seen(rest + [r]))
    ensures r in p.inserts ==> r in p.view || (r == 0 && HasNonZero(p.view))
  {
    SeenSnoc(rest, r);
    SettleStep(s + Seen(rest), r);
    assert s + Seen(rest + [r]) == s + Seen(rest) + {r};
    assert r in p.inserts <==> r in Seen(p.inserts);
    if 0 in s && !HasNonZero(Seen(rest)) && r != 0 {
      DecidedFromZero(s, rest, r);
    }
  }

  lemma DecidedUpdates(s: set<int>, rest: seq<int>, r: int, p: KeyPlan)
    requires Decided(s, rest, p)
    ensures KeyPlanStep(p, r).updates ==
            if (0 in s || ZeroFirst(s, rest + [r])) && HasNonZero(Seen(rest + [r]))
            then [FirstNonZero(rest + [r])] else []
  {
    SeenSnoc(rest, r);
    FirstNonZeroSnoc(rest, r);
    assert ZeroFirst(s, rest + [r]) == (ZeroFirst(s, rest) || (s == {} && rest == [] && r == 0));
    ZeroInView(s, rest, p);
    if rest == [] && 0 !in s {
      assert p.view == Settle(s) && !HasNonZero(Seen(rest));
    }
  }

  lemma DecidedInserts(s: set<int>, rest: seq<int>, r: int, p: KeyPlan)
    requires Decided(s, rest, p)
    ensures var q := KeyPlanStep(p, r);
            && Distinct(q.inserts)
            && Seen(q.inserts) == q.view + (if ZeroFirst(s, rest + [r]) then {0} else {}) - s - Seen(q.updates)
  {
    SeenSnoc(p.inserts, r);
    SeenSnoc(p.updates, r);
    DecidedView(s, rest, r, p);
    assert ZeroFirst(s, rest + [r]) == (ZeroFirst(s, rest) || (s == {} && rest == [] && r == 0));
    ZeroInView(s, rest, p);
    if 0 in p.view && r != 0 {
      assert Seen(p.updates) == {};
      DecidedFromZero(s, rest, r);
      assert forall y :: y in Seen(rest) ==> y == 0;
    } else if !(r == 0 && HasNonZero(p.view)) && r !in p.view {
      AppendedIsFresh(s, rest, r, p);
    }
  }

  lemma AppendedIsFresh(s: set<int>, rest: seq<int>, r: int, p: KeyPlan)
    requires Decided(s, rest, p) && r !in p.view && (r == 0 ==> !HasNonZero(p.view))
    ensures r !in s && r !in Seen(p.updates) && r !in Seen(p.inserts)
    ensures r == 0 ==> s == {} && rest == []
  {
    SettleStep(s + Seen(rest), r);
    FirstNonZeroSnoc(rest, r);
    if r == 0 {
      assert forall y :: y in s + Seen(rest) ==> y == 0;
    }
  }

  // ---------- The two imports compared ----------

  function UpdateKeyAll(s: set<int>, updates: seq<int>): Option<set<int>> {
    if updates == [] then Some(s)
    else
      match UpdateKeyAll(s, updates[..|updates| - 1])
      case None => None
      case Some(u) => UpdateKey(u, updates[|updates| - 1])
  }

  function BatchKey(s: set<int>, rs: seq<int>): Option<set<int>> {
    var p := DecideKey(s, rs);
    match UpdateKeyAll(s, p.updates)
    case None => None
    case Some(u) => Some(u + Seen(p.inserts))
  }

  lemma {:induction false} UpdatesByKey(t: Rows, updates: seq<Op>)
    ensures RunUpdates(t, updates).Done? ==>
              forall k :: UpdateKeyAll(At(t, k), Readings(updates, k)) == Some(At(RunUpdates(t, updates).rows, k))
    ensures RunUpdates(t, updates).Raised? ==> exists k :: UpdateKeyAll(At(t, k), Readings(updates, k)) == None
  {
    if updates == [] {
    } else {
      var rest, op := updates[..|updates| - 1], updates[|updates| - 1];
      UpdatesByKey(t, rest);
      if RunUpdates(t, rest).Raised? {
        var k :| UpdateKeyAll(At(t, k), Readings(rest, k)) == None;
        assert Readings(updates, k) == Readings(rest, k)
            || Readings(updates, k)[..|Readings(updates, k)| - 1] == Readings(rest, k);
      } else {
        var u := RunUpdates(t, rest).rows;
        var rs := Readings(rest, op.key);
        assert (rs + [op.rssi])[..|rs|] == rs;
        assert UpdateKeyAll(At(t, op.key), Readings(updates, op.key)) == UpdateKey(At(u, op.key), op.rssi);
        if Update(u, op).Done? {
          forall k ensures UpdateKeyAll(At(t, k), Readings(updates, k)) == Some(At(RunUpdates(t, updates).rows, k)) {
            if k != op.key {
              assert Readings(updates, k) == Readings(rest, k);
            }
          }
        }
      }
    }
  }

  lemma {:induction false} InsertsByKey(t: Rows, inserts: seq<Op>, k: Key)
    ensures At(InsertAll(t, inserts), k) == At(t, k) + Seen(Readings(inserts, k))
  {
    if inserts == [] {
      assert Seen([]) == {};
    } else {
      var rest, op := inserts[..|inserts| - 1], inserts[|inserts| - 1];
      InsertsByKey(t, rest, k);
      SeenSnoc(Readings(rest, k), op.rssi);
    }
  }

  /** The closed form of the fast import, for one key. */
  lemma BatchKeyClosedForm(s: set<int>, rs: seq<int>)
    ensures Coexist(s) && HasNonZero(Seen(rs)) ==> BatchKey(s, rs) == None
    ensures Coexist(s) && !HasNonZero(Seen(rs)) ==> BatchKey(s, rs) == Some(s)
    ensures !Coexist(s) && !(ZeroFirst(s, rs) && HasNonZero(Seen(rs))) ==> BatchKey(s, rs) == Some(Settle(s + Seen(rs)))
    ensures ZeroFirst(s, rs) && HasNonZero(Seen(rs)) ==>
              BatchKey(s, rs) == Some(Settle(Seen(rs)) - {FirstNonZero(rs)} + {0})
  {
    DecideKeyClosedForm(s, rs);
    var p := DecideKey(s, rs);
    if p.updates == [] {
      BatchKeyWithoutUpdate(s, rs, p);
    } else {
      BatchKeyWithUpdate(s, rs, p);
    }
    assert 0 !in s && HasNonZero(s) ==> HasNonZero(s + Seen(rs));
  }

  lemma BatchKeyWithoutUpdate(s: set<int>, rs: seq<int>, p: KeyPlan)
    requires Decided(s, rs, p) && p.updates == []
    ensures !((0 in s || ZeroFirst(s, rs)) && HasNonZero(Seen(rs)))
    ensures s + Seen(p.inserts) == if Coexist(s) then s else Settle(s + Seen(rs))
  {
    assert Seen(p.updates) == {};
    if 0 in s && !Coexist(s) {
      assert forall y :: y in s + Seen(rs) ==> y == 0;
    } else if ZeroFirst(s, rs) {
      assert rs[0] in Seen(rs);
      assert forall y :: y in s + Seen(rs) ==> y == 0;
    } else if 0 !in s {
      if y :| y in s {
        assert y in s + Seen(rs) && y != 0;
      }
      assert s <= p.view;
    }
  }

  lemma OneUpdate(s: set<int>, f: int)
    ensures UpdateKeyAll(s, [f]) == UpdateKey(s, f) && Seen([f]) == {f}
  {
    assert [f][..0] == [];
  }

  lemma BatchKeyWithUpdate(s: set<int>, rs: seq<int>, p: KeyPlan)
    requires Decided(s, rs, p) && p.updates != []
    ensures (0 in s || ZeroFirst(s, rs)) && HasNonZero(Seen(rs)) && p.updates == [FirstNonZero(rs)]
    ensures Coexist(s) ==> UpdateKeyAll(s, p.updates) == None
    ensures ZeroFirst(s, rs) ==> UpdateKeyAll(s, p.updates) == Some({})
                                 && {} + Seen(p.inserts) == Settle(Seen(rs)) - {FirstNonZero(rs)} + {0}
    ensures 0 in s && !Coexist(s) ==> UpdateKeyAll(s, p.updates) == Some({FirstNonZero(rs)})
                                      && {FirstNonZero(rs)} + Seen(p.inserts) == Settle(s + Seen(rs))
  {
    var f := FirstNonZero(rs);
    FirstNonZeroSnoc(rs, 0);
    OneUpdate(s, f);
    if Coexist(s) {
      CoexistHasTwo(s);
    } else if 0 in s {
      PromotedInserts(rs, f, p.view, Seen(p.inserts), s);
    } else {
      ZeroFirstInserts(rs, f, p.view, Seen(p.inserts));
    }
  }

  lemma PromotedInserts(rs: seq<int>, f: int, view: set<int>, inserts: set<int>, s: set<int>)
    requires f in Seen(rs) && f != 0 && view == Settle(s + Seen(rs)) && inserts == view + {} - s - {f}
    requires 0 in s && !Coexist(s)
    ensures UpdateKey(s, f) == Some({f}) && {f} + inserts == view
  {
    assert forall y :: y in s ==> y == 0;
    assert s == {0};
    assert f in s + Seen(rs);
    assert f in view && 0 !in view;
  }

  lemma ZeroFirstInserts(rs: seq<int>, f: int, view: set<int>, inserts: set<int>)
    requires f in Seen(rs) && f != 0 && view == Settle({} + Seen(rs)) && inserts == view + {0} - {} - {f}
    ensures {} + inserts == Settle(Seen(rs)) - {f} + {0}
  {
    assert {} + Seen(rs) == Seen(rs);
  }

  lemma BatchByKey(t: Rows, ops: seq<Op>, k: Key)
    ensures var p := PlanOf(t, ops);
            && BatchKey(At(t, k), Readings(ops, k)) ==
               (match UpdateKeyAll(At(t, k), Readings(p.updates, k))
                case None => None
                case Some(u) => Some(u + Seen(Readings(p.inserts, k))))
  {
    var view, p := Fetched(t, AddressesOf(ops)), PlanOf(t, ops);
    DecideByKey(view, ops, k);
    if At(view, k) != At(t, k) {
      NoReadings(ops, k);
    }
    if Readings(ops, k) == [] {
      assert Readings(p.updates, k) == [] && Readings(p.inserts, k) == [];
    }
  }

  lemma {:induction false} NoReadings(ops: seq<Op>, k: Key)
    requires k.bdaddr !in AddressesOf(ops)
    ensures Readings(ops, k) == []
  {
    if ops == [] {
    } else {
      var rest := ops[..|ops| - 1];
      assert ops[|ops| - 1].key.bdaddr in AddressesOf(ops);
      assert AddressesOf(rest) <= AddressesOf(ops) by {
        forall i | 0 <= i < |rest| ensures rest[i].key.bdaddr in AddressesOf(ops) {
          assert rest[i] == ops[i];
        }
      }
      NoReadings(rest, k);
    }
  }

  /** Some key already breaks the table's rule and the batch brings a real rssi for it. */
  ghost predicate Blocked(t: Rows, ops: seq<Op>) {
    exists k :: Coexist(At(t, k)) && HasNonZero(Seen(Readings(ops, k)))
  }

  /** No key without rows has its rssi recorded only after a first reading that lacks it. */
  ghost predicate Promotable(t: Rows, ops: seq<Op>) {
    forall k :: ZeroFirst(At(t, k), Readings(ops, k)) ==> !HasNonZero(Seen(Readings(ops, k)))
  }

  /** The slow import in closed form: it is stopped only by Blocked, else it settles what it found and what it read. */
  lemma SerialRaisesExactly(t: Rows, ops: seq<Op>)
    ensures Serial(t, ops).Raised? <==> Blocked(t, ops)
  {
    SerialByKey(t, ops);
    forall k {
      SerialKeyClosedForm(At(t, k), Readings(ops, k));
    }
  }

  /** Per key: every non-zero reading of table and input, or just 0 if a zero is all there was. */
  lemma SerialClosedForm(t: Rows, ops: seq<Op>, k: Key)
    requires Serial(t, ops).Done?
    ensures At(Serial(t, ops).rows, k) ==
            if Coexist(At(t, k)) then At(t, k) else Settle(At(t, k) + Seen(Readings(ops, k)))
  {
    SerialByKey(t, ops);
    SerialKeyClosedForm(At(t, k), Readings(ops, k));
  }

  lemma SerialClosedForms(t: Rows, ops: seq<Op>)
    requires Serial(t, ops).Done?
    ensures forall k :: At(Serial(t, ops).rows, k) ==
                        if Coexist(At(t, k)) then At(t, k) else Settle(At(t, k) + Seen(Readings(ops, k)))
  {
    forall k ensures At(Serial(t, ops).rows, k) ==
                     if Coexist(At(t, k)) then At(t, k) else Settle(At(t, k) + Seen(Readings(ops, k))) {
      SerialClosedForm(t, ops, k);
    }
  }

  lemma BatchClosedForm(t: Rows, ops: seq<Op>)
    ensures Batch(t, ops).Raised? <==> Blocked(t, ops)
    ensures Batch(t, ops).Done? ==>
              forall k :: BatchKey(At(t, k), Readings(ops, k)) == Some(At(Batch(t, ops).rows, k))
  {
    var p := PlanOf(t, ops);
    UpdatesByKey(t, p.updates);
    forall k ensures BatchKey(At(t, k), Readings(ops, k)) == None <==>
                     Coexist(At(t, k)) && HasNonZero(Seen(Readings(ops, k))) {
      BatchKeyClosedForm(At(t, k), Readings(ops, k));
    }
    match RunUpdates(t, p.updates)
    case Raised(_) =>
      var k :| UpdateKeyAll(At(t, k), Readings(p.updates, k)) == None;
      BatchByKey(t, ops, k);
    case Done(u) =>
      forall k ensures BatchKey(At(t, k), Readings(ops, k)) == Some(At(Batch(t, ops).rows, k)) {
        BatchByKey(t, ops, k);
        InsertsByKey(u, p.inserts, k);
      }
  }

  /** The fast import stops exactly when the slow one does. */
  lemma BothStopAlike(t: Rows, ops: seq<Op>)
    ensures Batch(t, ops).Raised? <==> Serial(t, ops).Raised?
  {
    SerialRaisesExactly(t, ops);
    BatchClosedForm(t, ops);
  }

  /** When it does not stop it leaves the table of the slow one exactly when the batch is Promotable. */
  lemma BatchRefinesSerial(t: Rows, ops: seq<Op>)
    requires Serial(t, ops).Done?
    ensures SameRows(Batch(t, ops).rows, Serial(t, ops).rows) <==> Promotable(t, ops)
  {
    BothStopAlike(t, ops);
    SerialRaisesExactly(t, ops);
    BatchClosedForm(t, ops);
    SerialClosedForms(t, ops);
    forall k ensures At(Batch(t, ops).rows, k) == At(Serial(t, ops).rows, k) <==>
                     (ZeroFirst(At(t, k), Readings(ops, k)) ==> !HasNonZero(Seen(Readings(ops, k)))) {
      var s, rs := At(t, k), Readings(ops, k);
      BatchKeyClosedForm(s, rs);
      SerialKeyClosedForm(s, rs);
      assert !(Coexist(s) && HasNonZero(Seen(rs)));
      if ZeroFirst(s, rs) && HasNonZero(Seen(rs)) {
        assert s + Seen(rs) == Seen(rs);
        assert 0 in At(Batch(t, ops).rows, k) && 0 !in At(Serial(t, ops).rows, k);
      }
    }
  }

  /** The claim in the comment above the fast import is false: two readings of a new key are enough. */
  lemma BatchDiffers(k: Key, r: int)
    requires r != 0
    ensures Serial(map[], [Op(k, 0), Op(k, r)]).Done? && Batch(map[], [Op(k, 0), Op(k, r)]).Done?
    ensures At(Serial(map[], [Op(k, 0), Op(k, r)]).rows, k) == {r}
    ensures At(Batch(map[], [Op(k, 0), Op(k, r)]).rows, k) == {0}
  {
    var ops := [Op(k, 0), Op(k, r)];
    ReadingsSnoc([Op(k, 0)], Op(k, r), k);
    ReadingsSnoc([], Op(k, 0), k);
    assert [Op(k, 0)] + [Op(k, r)] == ops && [] + [Op(k, 0)] == [Op(k, 0)];
    var rs := Readings(ops, k);
    assert rs == [0, r];
    assert Seen(rs) == {0, r};
    SerialRaisesExactly(map[], ops);
    SerialClosedForm(map[], ops, k);
    BatchClosedForm(map[], ops);
    BatchKeyClosedForm({}, rs);
    assert {} + Seen(rs) == Seen(rs);
    assert FirstNonZero(rs) == r by { assert rs[1..] == [r]; }
  }

  // ---------- What the slow import keeps ----------

  ghost predicate Clean(t: Rows) {
    forall k :: !Coexist(At(t, k))
  }

  lemma SettledIsClean(x: set<int>)
    ensures !Coexist(Settle(x)) && Settle(Settle(x)) == Settle(x)
    ensures forall y: set<int> :: Settle(Settle(x) + y) == Settle(x + y)
  {
    SettleStep(x, 0);
    forall y: set<int> ensures Settle(Settle(x) + y) == Settle(x + y) {
      if HasNonZero(x) {
        var r :| r in x && r != 0;
        assert r in Settle(x) + y && r in x + y;
      }
      assert HasNonZero(x + y) <==> HasNonZero(Settle(x) + y);
    }
  }

  lemma SameReadings(ops: seq<Op>, ops': seq<Op>, k: Key)
    requires forall op :: op in ops <==> op in ops'
    ensures Seen(Readings(ops, k)) == Seen(Readings(ops', k))
  {
    forall r ensures r in Readings(ops, k) <==> r in Readings(ops', k) {
      ReadingsMember(ops, Op(k, r));
      ReadingsMember(ops', Op(k, r));
    }
  }

  /** From any table, order and repetition of the readings matter neither to the result nor to whether there is one. */
  lemma OrderDoesNotMatter(t: Rows, ops: seq<Op>, ops': seq<Op>)
    requires forall op :: op in ops <==> op in ops'
    ensures Serial(t, ops).Done? <==> Serial(t, ops').Done?
    ensures Serial(t, ops).Done? ==> SameRows(Serial(t, ops).rows, Serial(t, ops').rows)
  {
    SerialRaisesExactly(t, ops);
    SerialRaisesExactly(t, ops');
    forall k ensures Seen(Readings(ops, k)) == Seen(Readings(ops', k)) {
      SameReadings(ops, ops', k);
    }
    if Serial(t, ops).Done? {
      SerialClosedForms(t, ops);
      SerialClosedForms(t, ops');
    }
  }

  /** On a clean table the slow import never stops and keeps the table clean. */
  lemma SerialKeepsClean(t: Rows, ops: seq<Op>)
    requires Clean(t)
    ensures Serial(t, ops).Done? && Clean(Serial(t, ops).rows)
  {
    SerialRaisesExactly(t, ops);
    SerialClosedForms(t, ops);
    forall k ensures !Coexist(At(Serial(t, ops).rows, k)) {
      SettledIsClean(At(t, k) + Seen(Readings(ops, k)));
    }
  }

  /** From any table, importing the same readings again neither stops nor changes anything. */
  lemma ReimportChangesNothing(t: Rows, ops: seq<Op>)
    requires Serial(t, ops).Done?
    ensures Serial(Serial(t, ops).rows, ops).Done?
    ensures SameRows(Serial(Serial(t, ops).rows, ops).rows, Serial(t, ops).rows)
  {
    var u := Serial(t, ops).rows;
    SerialRaisesExactly(t, ops);
    SerialClosedForms(t, ops);
    SerialRaisesExactly(u, ops);
    forall k {
      SettledIsClean(At(t, k) + Seen(Readings(ops, k)));
    }
    SerialClosedForms(u, ops);
    forall k ensures At(Serial(u, ops).rows, k) == At(u, k) {
      var s, x := At(t, k), Seen(Readings(ops, k));
      SettledIsClean(s + x);
      assert s + x + x == s + x;
    }
  }

  /** On a clean table every UPDATE of the slow import changes exactly one row: the zero it was meant for. */
  lemma UpdateTouchesOneRow(t: Rows, ops: seq<Op>, op: Op)
    requires Clean(t) && op.rssi != 0
    ensures Serial(t, ops).Done?
    ensures var u := Serial(t, ops).rows;
            0 in At(u, op.key) ==>
              && At(u, op.key) == {0} && SerialStep(u, op) == Update(u, op) && Update(u, op).Done?
              && forall k :: At(Update(u, op).rows, k) == if k == op.key then {op.rssi} else At(u, k)
  {
    SerialKeepsClean(t, ops);
    var s := At(Serial(t, ops).rows, op.key);
    if 0 in s {
      assert forall r :: r in s ==> r == 0;
    }
  }

  // ---------- The bulk INSERT meets no existing row ----------

  ghost predicate NoCollision(t: Rows, inserts: seq<Op>) {
    inserts == [] ||
    var rest, op := inserts[..|inserts| - 1], inserts[|inserts| - 1];
    NoCollision(t, rest) && op.rssi !in At(InsertAll(t, rest), op.key)
  }

  lemma {:induction false} FreshRowsDoNotCollide(t: Rows, inserts: seq<Op>)
    requires Distinct(inserts) && forall op :: op in inserts ==> op.rssi !in At(t, op.key)
    ensures NoCollision(t, inserts)
  {
    if inserts == [] {
    } else {
      var rest, op := inserts[..|inserts| - 1], inserts[|inserts| - 1];
      FreshRowsDoNotCollide(t, rest);
      InsertsByKey(t, rest, op.key);
      ReadingsMember(rest, op);
    }
  }

  lemma {:induction false} PlanInsertsDistinct(view: Rows, ops: seq<Op>)
    ensures Distinct(Decide(view, ops).inserts)
  {
    if ops == [] {
    } else {
      PlanInsertsDistinct(view, ops[..|ops| - 1]);
    }
  }

  /** INSERT IGNORE in the fast import never has a row to ignore, so the raised warning never ends it. */
  lemma BulkInsertIsFresh(t: Rows, ops: seq<Op>)
    ensures var p := PlanOf(t, ops);
            RunUpdates(t, p.updates).Done? ==> NoCollision(RunUpdates(t, p.updates).rows, p.inserts)
  {
    var view, p := Fetched(t, AddressesOf(ops)), PlanOf(t, ops);
    if RunUpdates(t, p.updates).Done? {
      var u := RunUpdates(t, p.updates).rows;
      PlanInsertsDistinct(view, ops);
      forall op | op in p.inserts ensures op.rssi !in At(u, op.key) {
        FreshAfterUpdates(t, ops, op);
      }
      FreshRowsDoNotCollide(u, p.inserts);
    }
  }

  lemma FreshAfterUpdates(t: Rows, ops: seq<Op>, op: Op)
    requires RunUpdates(t, PlanOf(t, ops).updates).Done?
    requires op in PlanOf(t, ops).inserts
    ensures op.rssi !in At(RunUpdates(t, PlanOf(t, ops).updates).rows, op.key)
  {
    var view, p, k := Fetched(t, AddressesOf(ops)), PlanOf(t, ops), op.key;
    UpdatesByKey(t, p.updates);
    DecideByKey(view, ops, k);
    ReadingsMember(p.inserts, op);
    var s, rs, us := At(t, k), Readings(ops, k), Readings(p.updates, k);
    if At(view, k) != s {
      NoReadings(ops, k);
      assert false;
    }
    DecideKeyClosedForm(s, rs);
    FreshKey(s, rs, ForKey(p, k), op.rssi);
  }

  lemma FreshKey(s: set<int>, rs: seq<int>, p: KeyPlan, r: int)
    requires Decided(s, rs, p) && UpdateKeyAll(s, p.updates).Some? && r in Seen(p.inserts)
    ensures r !in UpdateKeyAll(s, p.updates).value
  {
    if p.updates != [] {
      OneUpdate(s, p.updates[0]);
      assert p.updates[0] in Seen(p.updates);
    }
  }
}
