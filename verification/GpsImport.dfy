/**
 `parse_GPSArray` and `parse_all_GPSArrays_batched` as loops over a shared connection,
 each proved to do what GpsRows says the readings of the entries do.
 */
module GpsImport {
  import opened Collections
  import opened Wrappers
  import opened GpsRows

  const UNIX_TIME_MILLI := 1

  /** One reading of a GPSArray; a missing rssi is None. */
  datatype Reading = Reading(lat: Option<real>, lon: Option<real>, unixTimeMilli: Option<nat>, rssi: Option<int>)

  /** One BTIDES entry, as far as the GPS import looks at it. */
  datatype Entry = Entry(bdaddr: Option<string>, random: Option<int>, readings: Option<seq<Reading>>)

  predicate Usable(e: Entry) {
    e.readings.Some? && e.bdaddr.Some? && e.random.Some?
  }

  /** The row a reading asks for, if all its required fields are there. */
  function OpOf(e: Entry, r: Reading): Option<Op>
    requires Usable(e)
  {
    if r.lat.None? || r.lon.None? || r.unixTimeMilli.None? then None
    else if e.random.value != 0 && e.random.value != 1 then None
    else
      var rssi := if r.rssi.Some? then r.rssi.value else 0;
      Some(Op(Key(e.bdaddr.value, e.random.value, r.unixTimeMilli.value, UNIX_TIME_MILLI, r.lat.value, r.lon.value),
            rssi))
  }

  function OpsOfReadings(e: Entry, rs: seq<Reading>): seq<Op>
    requires Usable(e)
  {
    if rs == [] then []
    else
      var rest := OpsOfReadings(e, rs[..|rs| - 1]);
      match OpOf(e, rs[|rs| - 1])
      case None => rest
      case Some(op) => rest + [op]
  }

  function OpsOfEntry(e: Entry): seq<Op> {
    if Usable(e) then OpsOfReadings(e, e.readings.value) else []
  }

  function OpsOf(entries: seq<Entry>): seq<Op> {
    if entries == [] then []
    else OpsOf(entries[..|entries| - 1]) + OpsOfEntry(entries[|entries| - 1])
  }

  lemma NoOpsWithBadType(e: Entry, rs: seq<Reading>)
    requires Usable(e) && e.random.value != 0 && e.random.value != 1
    ensures OpsOfReadings(e, rs) == []
  {
  }

  // ---------- Which rows the readings ask for ----------

  /** A reading in a file: of which entry, and where in it. */
  datatype Place = Place(entry: nat, reading: nat)

  predicate Earlier(a: Place, b: Place) {
    a.entry < b.entry || (a.entry == b.entry && a.reading < b.reading)
  }

  /** Entry and reading have all that is required, and the address is public (0) or random (1). */
  predicate Wanted(entries: seq<Entry>, at: Place) {
    && at.entry < |entries|
    && var e := entries[at.entry];
       && e.bdaddr.Some? && (e.random == Some(0) || e.random == Some(1))
       && e.readings.Some? && at.reading < |e.readings.value|
       && var r := e.readings.value[at.reading];
          r.lat.Some? && r.lon.Some? && r.unixTimeMilli.Some?
  }

  /** The row of a reading: its entry's address, its own place and time in milliseconds (type 1), and its rssi or 0. */
  predicate Asks(entries: seq<Entry>, at: Place, op: Op) {
    && Wanted(entries, at)
    && var e, r := entries[at.entry], entries[at.entry].readings.value[at.reading];
       && op.key.bdaddr == e.bdaddr.value && op.key.random == e.random.value
       && op.key.lat == r.lat.value && op.key.lon == r.lon.value
       && op.key.time == r.unixTimeMilli.value && op.key.timeType == 1
       && (if r.rssi.Some? then op.rssi == r.rssi.value else op.rssi == 0)
  }

  /** One op for each wanted reading below entry n, in the order of the file. */
  predicate Lists(entries: seq<Entry>, n: nat, ops: seq<Op>, places: seq<Place>) {
    && |places| == |ops|
    && (forall k :: 0 <= k < |ops| ==> places[k].entry < n && Asks(entries, places[k], ops[k]))
    && (forall k, l :: 0 <= k < l < |places| ==> Earlier(places[k], places[l]))
  }

  /** The ops are those of the wanted readings, all of them, each once, in the order of the file. */
  ghost predicate AskedInOrder(entries: seq<Entry>, ops: seq<Op>) {
    exists places :: Lists(entries, |entries|, ops, places) && forall at :: Wanted(entries, at) ==> at in places
  }

  lemma {:induction false} ReadingsAsked(entries: seq<Entry>, i: nat, n: nat) returns (places: seq<Place>)
    requires i < |entries| && Usable(entries[i]) && n <= |entries[i].readings.value|
    ensures Lists(entries, i + 1, OpsOfReadings(entries[i], entries[i].readings.value[..n]), places)
    ensures forall at :: at in places ==> at.entry == i && at.reading < n
    ensures forall at :: Wanted(entries, at) && at.entry == i && at.reading < n ==> at in places
  {
    if n == 0 {
      places := [];
    } else {
      var e, rs := entries[i], entries[i].readings.value[..n];
      places := ReadingsAsked(entries, i, n - 1);
      assert rs[..n - 1] == e.readings.value[..n - 1] && rs[n - 1] == e.readings.value[n - 1];
      var before, last := places, Place(i, n - 1);
      assert Wanted(entries, last) <==> OpOf(e, rs[n - 1]).Some?;
      forall k | 0 <= k < |before| ensures Earlier(before[k], last) {
        assert before[k] in before;
      }
      if OpOf(e, rs[n - 1]).Some? {
        places := places + [last];
      }
    }
  }

  lemma {:induction false} EntriesAsked(entries: seq<Entry>, n: nat) returns (places: seq<Place>)
    requires n <= |entries|
    ensures Lists(entries, n, OpsOf(entries[..n]), places)
    ensures forall at :: Wanted(entries, at) && at.entry < n ==> at in places
  {
    if n == 0 {
      places := [];
    } else {
      places := EntriesAsked(entries, n - 1);
      assert entries[..n][..n - 1] == entries[..n - 1] && entries[..n][n - 1] == entries[n - 1];
      if Usable(entries[n - 1]) {
        var rs := entries[n - 1].readings.value;
        var more := ReadingsAsked(entries, n - 1, |rs|);
        assert rs[..|rs|] == rs;
        places := ListsAppend(entries, n - 1, OpsOf(entries[..n - 1]), places, OpsOfEntry(entries[n - 1]), more);
      }
    }
  }

  lemma ListsAppend(entries: seq<Entry>, n: nat, ops: seq<Op>, places: seq<Place>, ops': seq<Op>, places': seq<Place>)
    returns (all: seq<Place>)
    requires Lists(entries, n, ops, places) && Lists(entries, n + 1, ops', places')
    requires forall at :: at in places' ==> at.entry == n
    ensures all == places + places' && Lists(entries, n + 1, ops + ops', all)
  {
    all := places + places';
    assert forall k :: 0 <= k < |places'| ==> places'[k] in places';
    forall k | 0 <= k < |all| ensures all[k].entry < n + 1 && Asks(entries, all[k], (ops + ops')[k]) {
      if k < |places| {
        assert Asks(entries, places[k], ops[k]);
      } else {
        assert Asks(entries, places'[k - |places|], ops'[k - |places|]);
      }
    }
  }

  lemma OpsOfOne(e: Entry)
    ensures AskedInOrder([e], OpsOfEntry(e))
  {
    hide AskedInOrder, OpsOfEntry;
    OpsAreAsked([e]);
    assert [e][..0] == [] && OpsOf([e]) == [] + OpsOfEntry(e) == OpsOfEntry(e);
  }

  lemma OpsAreAsked(entries: seq<Entry>)
    ensures AskedInOrder(entries, OpsOf(entries))
  {
    var places := EntriesAsked(entries, |entries|);
    assert entries[..|entries|] == entries;
  }

  lemma SerialSnoc(t: Rows, ops: seq<Op>, op: Op)
    ensures Serial(t, ops + [op]) ==
            (match Serial(t, ops) case Raised(u) => Raised(u) case Done(u) => SerialStep(u, op))
  {
    assert (ops + [op])[..|ops|] == ops;
  }

  lemma {:induction false} SerialAppend(t: Rows, ops: seq<Op>, more: seq<Op>)
    ensures Serial(t, ops + more) ==
            (match Serial(t, ops) case Raised(u) => Raised(u) case Done(u) => Serial(u, more))
  {
    if more == [] {
      assert ops + more == ops;
    } else {
      var init, last := more[..|more| - 1], more[|more| - 1];
      SerialAppend(t, ops, init);
      assert ops + more == (ops + init) + [last];
      SerialSnoc(t, ops + init, last);
    }
  }

  lemma NoCollisionSnoc(t: Rows, inserts: seq<Op>, op: Op)
    ensures InsertAll(t, inserts + [op]) == Insert(InsertAll(t, inserts), op)
    ensures NoCollision(t, inserts + [op]) <==>
            NoCollision(t, inserts) && op.rssi !in At(InsertAll(t, inserts), op.key)
  {
    assert (inserts + [op])[..|inserts|] == inserts;
  }

  class Database {
    var rows: Rows

    constructor (rows: Rows)
      ensures this.rows == rows
    {
      this.rows := rows;
    }

    /** UPDATE ... SET rssi over every row of the key; false when the unique key raises. */
    method ExecuteUpdate(op: Op) returns (ok: bool)
      modifies this
      ensures (if ok then Done(rows) else Raised(rows)) == Update(old(rows), op)
    {
      var found := At(rows, op.key);
      if |found| >= 2 {
        return false;
      }
      rows := rows[op.key := if found == {} then {} else {op.rssi}];
      ok := true;
    }

    /** INSERT IGNORE of one row; the caller swallows the warning about a row that is already there. */
    method ExecuteInsert(op: Op)
      modifies this
      ensures rows == Insert(old(rows), op)
    {
      rows := rows[op.key := At(rows, op.key) + {op.rssi}];
    }

    /** One INSERT IGNORE of many rows; a row that is already there raises, after the others went in. */
    method ExecuteBulkInsert(chunk: seq<Op>) returns (ok: bool)
      modifies this
      ensures rows == InsertAll(old(rows), chunk)
      ensures ok <==> NoCollision(old(rows), chunk)
    {
      ghost var start := rows;
      ok := true;
      for i := 0 to |chunk|
        invariant rows == InsertAll(start, chunk[..i])
        invariant ok <==> NoCollision(start, chunk[..i])
      {
        NoCollisionSnoc(start, chunk[..i], chunk[i]);
        assert chunk[..i] + [chunk[i]] == chunk[..i + 1];
        if chunk[i].rssi in At(rows, chunk[i].key) {
          ok := false;
        }
        rows := Insert(rows, chunk[i]);
      }
      assert chunk[..|chunk|] == chunk;
    }

    /** The slow import of one entry. */
    method ParseGpsArray(e: Entry) returns (ok: bool)
      modifies this
      ensures (if ok then Done(rows) else Raised(rows)) == Serial(old(rows), OpsOfEntry(e))
      ensures AskedInOrder([e], OpsOfEntry(e))
    {
      hide AskedInOrder;
      OpsOfOne(e);
      if !Usable(e) {
        return true;
      }
      var readings := e.readings.value;
      for i := 0 to |readings|
        invariant Serial(old(rows), OpsOfReadings(e, readings[..i])) == Done(rows)
      {
        assert readings[..i + 1][..i] == readings[..i];
        var r := readings[i];
        ghost var before := OpsOfReadings(e, readings[..i]);
        if r.lat.None? || r.lon.None? || r.unixTimeMilli.None? || (e.random.value != 0 && e.random.value != 1) {
          continue;
        }
        var rssi := if r.rssi.Some? then r.rssi.value else 0;
        var key := Key(e.bdaddr.value, e.random.value, r.unixTimeMilli.value, UNIX_TIME_MILLI, r.lat.value,
              r.lon.value);
        var op := Op(key, rssi);
        SerialSnoc(old(rows), before, op);
        if 0 in At(rows, key) && rssi != 0 {
          ok := ExecuteUpdate(op);
          if !ok {
            StoppedStays(old(rows), e, readings, i + 1);
            return;
          }
        } else {
          if rssi == 0 && HasNonZero(At(rows, key)) {
            continue;
          }
          ExecuteInsert(op);
        }
      }
      assert readings[..|readings|] == readings;
      ok := true;
    }

    /** The slow import of a whole file. */
    method ParseAllOneByOne(entries: seq<Entry>) returns (ok: bool)
      modifies this
      ensures (if ok then Done(rows) else Raised(rows)) == Serial(old(rows), OpsOf(entries))
      ensures AskedInOrder(entries, OpsOf(entries))
    {
      hide AskedInOrder;
      OpsAreAsked(entries);
      for i := 0 to |entries|
        invariant Serial(old(rows), OpsOf(entries[..i])) == Done(rows)
      {
        assert entries[..i + 1][..i] == entries[..i];
        SerialAppend(old(rows), OpsOf(entries[..i]), OpsOfEntry(entries[i]));
        ok := ParseGpsArray(entries[i]);
        if !ok {
          StoppedStaysAcross(old(rows), entries, i + 1);
          return;
        }
      }
      assert entries[..|entries|] == entries;
      ok := true;
    }

    /** The fast import of a whole file: collect, pre-fetch, decide, then all UPDATEs and all INSERTs. */
    method ParseAllBatched(entries: seq<Entry>, chunkSize: nat) returns (ok: bool)
      requires chunkSize > 0
      modifies this
      ensures (if ok then Done(rows) else Raised(rows)) == Batch(old(rows), OpsOf(entries))
      ensures AskedInOrder(entries, OpsOf(entries))
    {
      var allOps := CollectOps(entries);
      if allOps == [] {
        return true;
      }
      var existing := Prefetch(allOps, chunkSize);
      var updates, inserts := DecideAll(existing, allOps);
      ghost var plan := PlanOf(old(rows), allOps);
      ok := RunAllUpdates(updates);
      if ok {
        BulkInsertIsFresh(old(rows), allOps);
        RunAllInserts(inserts, chunkSize);
      }
    }

    method Prefetch(allOps: seq<Op>, chunkSize: nat) returns (existing: Rows)
      requires chunkSize > 0
      ensures existing == Fetched(rows, AddressesOf(allOps))
    {
      var bdaddrs := ListOf(AddressesOf(allOps));
      existing := map[];
      var i := 0;
      while i < |bdaddrs|
        invariant i <= |bdaddrs|
        invariant existing == Fetched(rows, set b | b in bdaddrs[..i])
        decreases |bdaddrs| - i
      {
        var end := Min(i + chunkSize, |bdaddrs|);
        var chunk := bdaddrs[i..end];
        existing := existing + Fetched(rows, set b | b in chunk);
        FetchedUnion(rows, set b | b in bdaddrs[..i], set b | b in chunk);
        assert bdaddrs[..end] == bdaddrs[..i] + chunk;
        assert (set b | b in bdaddrs[..end]) == (set b | b in bdaddrs[..i]) + (set b | b in chunk);
        i := end;
      }
      assert bdaddrs[..|bdaddrs|] == bdaddrs;
    }

    method RunAllUpdates(updates: seq<Op>) returns (ok: bool)
      modifies this
      ensures (if ok then Done(rows) else Raised(rows)) == RunUpdates(old(rows), updates)
    {
      ghost var start := rows;
      for i := 0 to |updates|
        invariant RunUpdates(start, updates[..i]) == Done(rows)
      {
        assert updates[..i + 1][..i] == updates[..i];
        ok := ExecuteUpdate(updates[i]);
        if !ok {
          UpdatesStopped(start, updates, i + 1);
          return;
        }
      }
      assert updates[..|updates|] == updates;
      ok := true;
    }

    method RunAllInserts(inserts: seq<Op>, chunkSize: nat)
      requires chunkSize > 0 && NoCollision(rows, inserts)
      modifies this
      ensures rows == InsertAll(old(rows), inserts)
    {
      ghost var start := rows;
      var i := 0;
      while i < |inserts|
        invariant i <= |inserts|
        invariant rows == InsertAll(start, inserts[..i])
        decreases |inserts| - i
      {
        var end := Min(i + chunkSize, |inserts|);
        ChunkStep(start, inserts, i, end);
        var ok := ExecuteBulkInsert(inserts[i..end]);
        assert ok;
        i := end;
      }
      assert inserts[..|inserts|] == inserts;
    }
  }

  function Min(a: nat, b: nat): nat {
    if a < b then a else b
  }

  /** Step 1: every valid reading of every entry, in order. */
  method CollectOps(entries: seq<Entry>) returns (allOps: seq<Op>)
    ensures allOps == OpsOf(entries) && AskedInOrder(entries, allOps)
  {
    OpsAreAsked(entries);
    allOps := [];
    for i := 0 to |entries|
      invariant allOps == OpsOf(entries[..i])
    {
      assert entries[..i + 1][..i] == entries[..i];
      var e := entries[i];
      if !Usable(e) {
        continue;
      }
      if e.random.value != 0 && e.random.value != 1 {
        NoOpsWithBadType(e, e.readings.value);
        continue;
      }
      ghost var before := allOps;
      var readings := e.readings.value;
      for j := 0 to |readings|
        invariant allOps == before + OpsOfReadings(e, readings[..j])
      {
        assert readings[..j + 1][..j] == readings[..j];
        var r := readings[j];
        if r.lat.None? || r.lon.None? || r.unixTimeMilli.None? {
          continue;
        }
        var rssi := if r.rssi.Some? then r.rssi.value else 0;
        var key := Key(e.bdaddr.value, e.random.value, r.unixTimeMilli.value, UNIX_TIME_MILLI, r.lat.value,
              r.lon.value);
        allOps := allOps + [Op(key, rssi)];
      }
      assert readings[..|readings|] == readings;
    }
    assert entries[..|entries|] == entries;
  }

  /** Step 3: promote, skip or queue each reading against the in-memory view. */
  method DecideAll(fetched: Rows, allOps: seq<Op>) returns (updates: seq<Op>, inserts: seq<Op>)
    ensures updates == Decide(fetched, allOps).updates && inserts == Decide(fetched, allOps).inserts
  {
    var existing, seenBatchInserts: set<Op> := fetched, {};
    updates, inserts := [], [];
    for i := 0 to |allOps|
      invariant Plan(existing, updates, inserts) == Decide(fetched, allOps[..i])
      invariant seenBatchInserts == set op | op in inserts
    {
      assert allOps[..i + 1][..i] == allOps[..i];
      var op := allOps[i];
      var rssis := At(existing, op.key);
      if 0 in rssis && op.rssi != 0 {
        updates := updates + [op];
        existing := existing[op.key := rssis - {0} + {op.rssi}];
      } else if op.rssi == 0 && HasNonZero(rssis) {
        continue;
      } else {
        if op.rssi in rssis || op in seenBatchInserts {
          continue;
        }
        inserts := inserts + [op];
        seenBatchInserts := seenBatchInserts + {op};
        existing := existing[op.key := rssis + {op.rssi}];
      }
    }
    assert allOps[..|allOps|] == allOps;
  }

  lemma FetchedUnion(t: Rows, a: set<string>, b: set<string>)
    ensures Fetched(t, a) + Fetched(t, b) == Fetched(t, a + b)
  {
  }

  lemma {:induction false} UpdatesStopped(t: Rows, updates: seq<Op>, n: nat)
    requires n <= |updates| && RunUpdates(t, updates[..n]).Raised?
    ensures RunUpdates(t, updates) == RunUpdates(t, updates[..n])
    decreases |updates|
  {
    if n == |updates| {
      assert updates[..n] == updates;
    } else {
      var rest := updates[..|updates| - 1];
      assert rest[..n] == updates[..n];
      UpdatesStopped(t, rest, n);
    }
  }

  /** Inserting in chunks is inserting in one go, and a fresh list stays fresh when cut. */
  lemma {:induction false} InsertAllAppend(t: Rows, xs: seq<Op>, ys: seq<Op>)
    ensures InsertAll(t, xs + ys) == InsertAll(InsertAll(t, xs), ys)
    ensures NoCollision(t, xs + ys) <==> NoCollision(t, xs) && NoCollision(InsertAll(t, xs), ys)
    decreases |ys|
  {
    if ys == [] {
      assert xs + ys == xs;
    } else {
      var init, last := ys[..|ys| - 1], ys[|ys| - 1];
      InsertAllAppend(t, xs, init);
      assert xs + ys == (xs + init) + [last] && ys == init + [last];
      NoCollisionSnoc(t, xs + init, last);
      NoCollisionSnoc(InsertAll(t, xs), init, last);
    }
  }

  lemma ChunkStep(t: Rows, inserts: seq<Op>, i: nat, end: nat)
    requires NoCollision(t, inserts) && i <= end <= |inserts|
    ensures NoCollision(InsertAll(t, inserts[..i]), inserts[i..end])
    ensures InsertAll(t, inserts[..end]) == InsertAll(InsertAll(t, inserts[..i]), inserts[i..end])
  {
    assert inserts == inserts[..end] + inserts[end..];
    assert inserts[..end] == inserts[..i] + inserts[i..end];
    InsertAllAppend(t, inserts[..end], inserts[end..]);
    InsertAllAppend(t, inserts[..i], inserts[i..end]);
  }

  /** Both imports of one file leave the same table exactly when its readings are Promotable; neither stops alone. */
  method CompareImports(rows: Rows, entries: seq<Entry>, chunkSize: nat)
    returns (slow: Database, fast: Database, slowOk: bool, fastOk: bool)
    requires chunkSize > 0
    ensures slowOk == fastOk
    ensures exists ops ::
              && AskedInOrder(entries, ops)
              && (slowOk <==> !Blocked(rows, ops))
              && (slowOk ==> (SameRows(slow.rows, fast.rows) <==> Promotable(rows, ops)))
  {
    slow := new Database(rows);
    fast := new Database(rows);
    slowOk := slow.ParseAllOneByOne(entries);
    fastOk := fast.ParseAllBatched(entries, chunkSize);
    BothStopAlike(rows, OpsOf(entries));
    if slowOk {
      BatchRefinesSerial(rows, OpsOf(entries));
    }
    SerialRaisesExactly(rows, OpsOf(entries));
  }

  lemma {:induction false} StoppedStays(t: Rows, e: Entry, readings: seq<Reading>, n: nat)
    requires Usable(e) && n <= |readings| && Serial(t, OpsOfReadings(e, readings[..n])).Raised?
    ensures Serial(t, OpsOfReadings(e, readings)) == Serial(t, OpsOfReadings(e, readings[..n]))
    decreases |readings|
  {
    if n == |readings| {
      assert readings[..n] == readings;
    } else {
      var rest := readings[..|readings| - 1];
      assert rest[..n] == readings[..n];
      StoppedStays(t, e, rest, n);
      if OpOf(e, readings[|readings| - 1]).Some? {
        SerialSnoc(t, OpsOfReadings(e, rest), OpOf(e, readings[|readings| - 1]).value);
      }
    }
  }

  lemma {:induction false} StoppedStaysAcross(t: Rows, entries: seq<Entry>, n: nat)
    requires n <= |entries| && Serial(t, OpsOf(entries[..n])).Raised?
    ensures Serial(t, OpsOf(entries)) == Serial(t, OpsOf(entries[..n]))
    decreases |entries|
  {
    if n == |entries| {
      assert entries[..n] == entries;
    } else {
      var rest := entries[..|entries| - 1];
      assert rest[..n] == entries[..n];
      StoppedStaysAcross(t, rest, n);
      SerialAppend(t, OpsOf(rest), OpsOfEntry(entries[|entries| - 1]));
    }
  }
}
