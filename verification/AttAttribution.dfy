/**
 A read response does not name the handle it answers for.  The exporter stores requests and responses in the
 `ATTArray` of the connection, where an object equal to an earlier one is dropped; the importer credits each response
 it finds there to the last request before it.
 */
module AttAttribution {
  import M = BtidesModel

  datatype Packet = ReadReq(handle: nat) | ReadRsp(value: string)

  /** The array the exporter leaves for a trace of packets. */
  function Exported(trace: seq<Packet>): seq<Packet> {
    if trace == [] then [] else M.AppendUnique(Exported(trace[..|trace| - 1]), trace[|trace| - 1])
  }

  /** The handle that is being read, 0 before the first request. */
  function LastRequested(packets: seq<Packet>): nat {
    if packets == [] then 0
    else
      match packets[|packets| - 1]
      case ReadReq(h) => h
      case ReadRsp(_) => LastRequested(packets[..|packets| - 1])
  }

  /** The importer's last request handle, 0 at the start of an entry, and the rows it inserted so far. */
  datatype Imported = Imported(lastHandle: nat, rows: set<(nat, string)>)

  function Import(packets: seq<Packet>): (i: Imported)
    ensures i.lastHandle == LastRequested(packets)
  {
    if packets == [] then Imported(0, {})
    else
      var before := Import(packets[..|packets| - 1]);
      match packets[|packets| - 1]
      case ReadReq(h) => before.(lastHandle := h)
      case ReadRsp(v) =>
        // a response with no request before it is ignored
        if before.lastHandle == 0 then before else before.(rows := before.rows + {(before.lastHandle, v)})
  }

  class Session {
    var attArray: seq<Packet>
    var lastReadReqHandle: nat
    var rows: set<(nat, string)>

    constructor ()
      ensures attArray == [] && lastReadReqHandle == 0 && rows == {}
    {
      attArray, lastReadReqHandle, rows := [], 0, {};
    }

    /** The first-level insertion behind both export functions. */
    method ExportPacket(p: Packet)
      modifies this`attArray
      ensures attArray == M.AppendUnique(old(attArray), p)
    {
      for i := 0 to |attArray|
        invariant p !in attArray[..i] && attArray == old(attArray)
      {
        if attArray[i] == p {
          return;
        }
      }
      assert attArray[..|attArray|] == attArray;
      attArray := attArray + [p];
    }

    /** `parse_ATTArray`, for the read requests and responses of one entry. */
    method ImportAll()
      modifies this`lastReadReqHandle, this`rows
      ensures rows == old(rows) + Import(attArray).rows
    {
      lastReadReqHandle := 0;
      for i := 0 to |attArray|
        invariant lastReadReqHandle == Import(attArray[..i]).lastHandle
        invariant rows == old(rows) + Import(attArray[..i]).rows
      {
        assert attArray[..i + 1][..i] == attArray[..i];
        match attArray[i] {
          case ReadReq(h) => lastReadReqHandle := h;
          case ReadRsp(v) =>
            if lastReadReqHandle != 0 {
              rows := rows + {(lastReadReqHandle, v)};
            }
        }
      }
      assert attArray[..|attArray|] == attArray;
    }
  }

  /** The whole trace goes out through the array and comes back in. */
  method RoundTrip(trace: seq<Packet>) returns (rows: set<(nat, string)>)
    ensures rows == Import(Exported(trace)).rows
  {
    var session := new Session();
    for i := 0 to |trace|
      invariant fresh(session) && session.attArray == Exported(trace[..i]) && session.rows == {}
    {
      assert trace[..i + 1][..i] == trace[..i];
      session.ExportPacket(trace[i]);
    }
    assert trace[..|trace|] == trace;
    session.ImportAll();
    rows := session.rows;
  }

  // ---------- When the detour through the array loses nothing ----------

  /** The handle of the last request that had not been made before. */
  function NewestHandle(trace: seq<Packet>): nat {
    if trace == [] then 0
    else
      var before, p := trace[..|trace| - 1], trace[|trace| - 1];
      if p.ReadReq? && p !in before then p.handle else NewestHandle(before)
  }

  /** The handle that was being read when a value was first returned. */
  function FirstHandle(trace: seq<Packet>, v: string): nat {
    if trace == [] then 0
    else
      var before, p := trace[..|trace| - 1], trace[|trace| - 1];
      if p == ReadRsp(v) && p !in before then LastRequested(before) else FirstHandle(before, v)
  }

  /** The newest handle at that moment. */
  function FirstNewest(trace: seq<Packet>, v: string): nat {
    if trace == [] then 0
    else
      var before, p := trace[..|trace| - 1], trace[|trace| - 1];
      if p == ReadRsp(v) && p !in before then NewestHandle(before) else FirstNewest(before, v)
  }

  /** Every new value is read from the newest handle, and every repeated one from the handle it came from first. */
  predicate Faithful(trace: seq<Packet>) {
    trace == [] ||
    var before, p := trace[..|trace| - 1], trace[|trace| - 1];
    Faithful(before) &&
    match p
    case ReadReq(_) => true
    case ReadRsp(v) =>
      LastRequested(before) == if p in before then FirstHandle(before, v) else NewestHandle(before)
  }

  predicate RealHandles(trace: seq<Packet>) {
    forall p :: p in trace && p.ReadReq? ==> p.handle != 0
  }

  lemma {:induction false} ExportedMembers(trace: seq<Packet>, p: Packet)
    ensures p in Exported(trace) <==> p in trace
  {
    if trace == [] {
    } else {
      assert trace == trace[..|trace| - 1] + [trace[|trace| - 1]];
      ExportedMembers(trace[..|trace| - 1], p);
    }
  }

  lemma ImportSnoc(packets: seq<Packet>, p: Packet)
    ensures Import(packets + [p]) ==
            match p
            case ReadReq(h) => Import(packets).(lastHandle := h)
            case ReadRsp(v) =>
              if Import(packets).lastHandle == 0 then Import(packets)
              else Import(packets).(rows := Import(packets).rows + {(Import(packets).lastHandle, v)})
  {
    assert (packets + [p])[..|packets|] == packets;
  }

  /** What the importer makes of the array, in terms of the trace. */
  lemma {:induction false} ImportOfExported(trace: seq<Packet>)
    ensures Import(Exported(trace)).lastHandle == NewestHandle(trace)
    ensures forall h, v :: (h, v) in Import(Exported(trace)).rows <==>
                             ReadRsp(v) in trace && h == FirstNewest(trace, v) && h != 0
  {
    if trace == [] {
    } else {
      var before, p := trace[..|trace| - 1], trace[|trace| - 1];
      assert trace == before + [p];
      ImportOfExported(before);
      ExportedMembers(before, p);
      ImportSnoc(Exported(before), p);
    }
  }

  lemma {:induction false} HandlesAreNonZero(trace: seq<Packet>)
    requires RealHandles(trace)
    ensures Import(trace).lastHandle == 0 <==> NewestHandle(trace) == 0
    ensures forall v :: FirstHandle(trace, v) == 0 <==> FirstNewest(trace, v) == 0
    ensures Import(trace).lastHandle == 0 ==> forall v :: FirstHandle(trace, v) == 0
    ensures NewestHandle(trace) == 0 ==> forall p :: p in trace ==> p.ReadRsp?
  {
    if trace == [] {
    } else {
      var before, p := trace[..|trace| - 1], trace[|trace| - 1];
      assert trace == before + [p];
      HandlesAreNonZero(before);
    }
  }

  /** True rows: each value under every handle it was read from, the first one among them. */
  lemma {:induction false} TrueRows(trace: seq<Packet>)
    ensures forall h, v :: (h, v) in Import(trace).rows ==> ReadRsp(v) in trace && h != 0
    ensures forall v :: ReadRsp(v) in trace && FirstHandle(trace, v) != 0 ==>
                (FirstHandle(trace, v), v) in Import(trace).rows
  {
    if trace == [] {
    } else {
      var before, p := trace[..|trace| - 1], trace[|trace| - 1];
      assert trace == before + [p];
      TrueRows(before);
    }
  }

  lemma {:induction false} CoversExactly(trace: seq<Packet>)
    requires RealHandles(trace)
    ensures Import(trace).rows <= Import(Exported(trace)).rows <==> Faithful(trace)
    ensures Faithful(trace) ==> Import(Exported(trace)).rows <= Import(trace).rows
  {
    if trace == [] {
    } else {
      var before, p := trace[..|trace| - 1], trace[|trace| - 1];
      assert trace == before + [p];
      CoversExactly(before);
      match p
      case ReadReq(_) =>
        ExportedMembers(before, p);
        ImportSnoc(Exported(before), p);
      case ReadRsp(v) =>
        if p in before {
          RepeatedValue(before, v);
        } else {
          NewValue(before, v);
        }
    }
  }

  lemma NewValue(before: seq<Packet>, v: string)
    requires RealHandles(before) && ReadRsp(v) !in before
    requires Import(before).rows <= Import(Exported(before)).rows <==> Faithful(before)
    requires Faithful(before) ==> Import(Exported(before)).rows <= Import(before).rows
    ensures var trace := before + [ReadRsp(v)];
            && (Import(trace).rows <= Import(Exported(trace)).rows <==> Faithful(trace))
            && (Faithful(trace) ==> Import(Exported(trace)).rows <= Import(trace).rows)
  {
    var p := ReadRsp(v);
    var trace := before + [p];
    assert trace[..|before|] == before;
    ExportedMembers(before, p);
    ImportSnoc(before, p);
    ImportSnoc(Exported(before), p);
    ImportOfExported(before);
    HandlesAreNonZero(before);
    TrueRows(before);
    var l, n := Import(before).lastHandle, NewestHandle(before);
    if l != 0 {
      assert Import(trace).rows == Import(before).rows + {(l, v)};
      assert Import(Exported(trace)).rows == Import(Exported(before)).rows + {(n, v)};
      assert (l, v) !in Import(Exported(before)).rows;
    }
  }

  lemma RepeatedValue(before: seq<Packet>, v: string)
    requires RealHandles(before) && ReadRsp(v) in before
    requires Import(before).rows <= Import(Exported(before)).rows <==> Faithful(before)
    requires Faithful(before) ==> Import(Exported(before)).rows <= Import(before).rows
    ensures var trace := before + [ReadRsp(v)];
            && (Import(trace).rows <= Import(Exported(trace)).rows <==> Faithful(trace))
            && (Faithful(trace) ==> Import(Exported(trace)).rows <= Import(trace).rows)
  {
    var p := ReadRsp(v);
    var trace := before + [p];
    assert trace[..|before|] == before;
    ExportedMembers(before, p);
    ImportSnoc(before, p);
    ImportOfExported(before);
    HandlesAreNonZero(before);
    TrueRows(before);
    var l, f := Import(before).lastHandle, FirstHandle(before, v);
    assert Exported(trace) == Exported(before);
    if l != 0 {
      assert Import(trace).rows == Import(before).rows + {(l, v)};
    }
  }

  /** The rows imported through the array are the true ones exactly for faithful traces. */
  lemma AttributionExactly(trace: seq<Packet>)
    requires RealHandles(trace)
    ensures Import(Exported(trace)).rows == Import(trace).rows <==> Faithful(trace)
  {
    CoversExactly(trace);
  }

  // ---------- Reading each handle once ----------

  datatype Read = Read(handle: nat, value: string)

  /** A request and its response for each read, in turn. */
  function TraceOf(rs: seq<Read>): seq<Packet> {
    if rs == [] then []
    else TraceOf(rs[..|rs| - 1]) + [ReadReq(rs[|rs| - 1].handle), ReadRsp(rs[|rs| - 1].value)]
  }

  predicate AllDifferent(rs: seq<Read>) {
    forall i, j :: 0 <= i < j < |rs| ==> rs[i].handle != rs[j].handle && rs[i].value != rs[j].value
  }

  lemma {:induction false} TraceMembers(rs: seq<Read>, p: Packet)
    ensures p in TraceOf(rs) ==>
              exists i :: 0 <= i < |rs| && (p == ReadReq(rs[i].handle) || p == ReadRsp(rs[i].value))
  {
    if rs == [] {
    } else {
      var init := rs[..|rs| - 1];
      TraceMembers(init, p);
      if p in TraceOf(init) {
        var i :| 0 <= i < |init| && (p == ReadReq(init[i].handle) || p == ReadRsp(init[i].value));
        assert rs[i] == init[i];
      }
    }
  }

  lemma OneMoreRead(t: seq<Packet>, h: nat, v: string)
    requires ReadReq(h) !in t && ReadRsp(v) !in t && h != 0
    ensures var t' := t + [ReadReq(h), ReadRsp(v)];
            && (Faithful(t) ==> Faithful(t')) && (RealHandles(t) ==> RealHandles(t'))
            && Import(t').rows == Import(t).rows + {(h, v)}
  {
    var req, rsp := ReadReq(h), ReadRsp(v);
    var t1 := t + [req];
    var t2 := t1 + [rsp];
    assert t + [req, rsp] == t2;
    assert t1[..|t|] == t && t2[..|t1|] == t1;
    ImportSnoc(t, req);
    ImportSnoc(t1, rsp);
    assert rsp !in t1 && NewestHandle(t1) == h;
    assert Faithful(t) ==> Faithful(t1);
  }

  function RowsOf(rs: seq<Read>): set<(nat, string)> {
    set r | r in rs :: (r.handle, r.value)
  }

  lemma FreshRead(init: seq<Read>, r: Read)
    requires AllDifferent(init + [r])
    ensures ReadReq(r.handle) !in TraceOf(init) && ReadRsp(r.value) !in TraceOf(init)
    ensures AllDifferent(init) && RowsOf(init + [r]) == RowsOf(init) + {(r.handle, r.value)}
  {
    var rs := init + [r];
    forall i | 0 <= i < |init| ensures init[i].handle != r.handle && init[i].value != r.value {
      assert rs[i] == init[i] && rs[|init|] == r;
    }
    assert forall i :: 0 <= i < |init| ==> init[i] == rs[i];
    TraceMembers(init, ReadReq(r.handle));
    TraceMembers(init, ReadRsp(r.value));
  }

  lemma {:induction false} TraceRows(rs: seq<Read>)
    requires AllDifferent(rs) && forall r :: r in rs ==> r.handle != 0
    ensures RealHandles(TraceOf(rs)) && Faithful(TraceOf(rs))
    ensures Import(TraceOf(rs)).rows == RowsOf(rs)
  {
    if rs == [] {
    } else {
      hide Faithful, Import, RealHandles, AllDifferent, RowsOf;
      var init, r := rs[..|rs| - 1], rs[|rs| - 1];
      assert rs == init + [r];
      FreshRead(init, r);
      TraceRows(init);
      OneMoreRead(TraceOf(init), r.handle, r.value);
    }
  }

  /** Reads of different handles that return different values come back exactly as they were made. */
  lemma DifferentReadsComeBack(rs: seq<Read>)
    requires AllDifferent(rs) && forall r :: r in rs ==> r.handle != 0
    ensures Import(Exported(TraceOf(rs))).rows == RowsOf(rs)
  {
    TraceRows(rs);
    AttributionExactly(TraceOf(rs));
  }

  /** Going back to a handle is enough to credit its new value to another one. */
  lemma RereadIsMisattributed(h: nat, k: nat, a: string, b: string, c: string)
    requires h != 0 && k != 0 && h != k && c != a && c != b
    ensures var trace := [ReadReq(h), ReadRsp(a), ReadReq(k), ReadRsp(b), ReadReq(h), ReadRsp(c)];
            && (h, c) in Import(trace).rows && (h, c) !in Import(Exported(trace)).rows
            && (k, c) in Import(Exported(trace)).rows
  {
    var t1: seq<Packet> := [ReadReq(h)];
    var t2 := t1 + [ReadRsp(a)];
    var t3 := t2 + [ReadReq(k)];
    var t4 := t3 + [ReadRsp(b)];
    var t5 := t4 + [ReadReq(h)];
    var t6 := t5 + [ReadRsp(c)];
    var trace := [ReadReq(h), ReadRsp(a), ReadReq(k), ReadRsp(b), ReadReq(h), ReadRsp(c)];
    assert t6 == trace;
    assert t6[..5] == t5 && t5[..4] == t4 && t4[..3] == t3 && t3[..2] == t2 && t2[..1] == t1 && t1[..0] == [];
    ImportSnoc(t5, ReadRsp(c));
    ImportSnoc(t4, ReadReq(h));
    assert NewestHandle(t3) == k;
    assert NewestHandle(t5) == k;
    assert FirstNewest(t6, c) == k;
    ImportOfExported(t6);
  }
}
