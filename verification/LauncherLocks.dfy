/**
 The locks of the capture launcher (`central_app_launcher.py`).

 Any number of application threads, the two worker threads, the Sniffle thread and the thread that reads the
 bluetoothctl log take nested locks with Python's `with`; the workers also join application threads.  The code
 paths below are the lock uses of the launcher.  Steps of different threads interleave freely.
 */
module LauncherLocks {
  datatype Lock =
    | GattSuccess | LmpSuccess | SdpSuccess
    | BleAddresses | BtcAddresses
    | BleDeprioritized | BtcDeprioritized
    | SniffleCondition

  /** Success maps, then address maps, then deprioritized maps. */
  function Rank(l: Lock): nat {
    match l
    case GattSuccess | LmpSuccess | SdpSuccess | SniffleCondition => 1
    case BleAddresses | BtcAddresses => 2
    case BleDeprioritized | BtcDeprioritized => 3
  }

  /** A stretch of a code path: lock-free work, a `with` block, or waiting for another thread to end. */
  datatype Block = Work | With(lock: Lock, body: seq<Block>) | Join(thread: nat)

  datatype Action = Compute | Acquire(lock: Lock) | Release(lock: Lock) | Await(thread: nat)

  datatype Role = Application | BleWorker | BtcWorker | Sniffle | LogReader

  // ---------- The code paths ----------

  function Section(l: Lock): Block {
    With(l, [Work])
  }

  /** A section that takes a second lock, such as `locked_delete_from_dict` under a success lock. */
  function Nested(outer: Lock, inner: Lock): Block {
    With(outer, [Work, With(inner, [Work])])
  }

  /** Every way a thread of a role can use locks before it holds none again. */
  predicate Follows(r: Role, path: seq<Block>) {
    path == [Work] ||
    match r
    case Application =>
      || path == [Section(SniffleCondition)]
      || path == [Section(GattSuccess)] || path == [Nested(GattSuccess, BleAddresses)]
      || path == [Section(LmpSuccess)] || path == [Nested(LmpSuccess, BtcAddresses)]
      || path == [Section(SdpSuccess)] || path == [Nested(SdpSuccess, BtcAddresses)]
    case BleWorker =>
      || path == [Section(BleAddresses)] || path == [Nested(BleAddresses, BleDeprioritized)]
      || path == [Section(GattSuccess)] || path == [Nested(GattSuccess, BleAddresses)]
    case BtcWorker =>
      // reprioritize_btc_bdaddr takes the BLE address lock around the BTC deprioritized lock
      || path == [Section(BtcAddresses)] || path == [Nested(BleAddresses, BtcDeprioritized)]
      || path == [Section(LmpSuccess)] || path == [Nested(LmpSuccess, BtcAddresses)]
      || path == [Section(SdpSuccess)] || path == [Nested(SdpSuccess, BtcAddresses)]
    case Sniffle =>
      path == [Section(SniffleCondition)]
    case LogReader =>
      || path == [Section(SniffleCondition)] || path == [Section(BleAddresses)] || path == [Section(BtcAddresses)]
      || path == [Section(BleAddresses), Section(BtcAddresses)]
      || path == [Nested(BleAddresses, BleDeprioritized), Section(BtcAddresses)]
      || path == [Section(BleAddresses), Nested(BtcAddresses, BtcDeprioritized)]
      || path == [Nested(BleAddresses, BleDeprioritized), Nested(BtcAddresses, BtcDeprioritized)]
  }

  function Flatten(blocks: seq<Block>): seq<Action>
    decreases blocks, 1
  {
    if blocks == [] then [] else FlattenBlock(blocks[0]) + Flatten(blocks[1..])
  }

  function FlattenBlock(block: Block): seq<Action>
    decreases block, 0
  {
    match block
    case Work => [Compute]
    case With(l, body) => [Acquire(l)] + Flatten(body) + [Release(l)]
    case Join(t) => [Await(t)]
  }

  // ---------- The lock order ----------

  /** Every `with` goes up the order, and threads are joined with no lock held. */
  predicate Ascends(floor: nat, blocks: seq<Block>)
    decreases blocks, 1
  {
    blocks == [] || (AscendsIn(floor, blocks[0]) && Ascends(floor, blocks[1..]))
  }

  predicate AscendsIn(floor: nat, block: Block)
    decreases block, 0
  {
    match block
    case Work => true
    case With(l, body) => Rank(l) > floor && Ascends(Rank(l), body)
    case Join(_) => floor == 0
  }

  /** What is left of a code path, from the locks already held, keeps the order and gives every lock back. */
  predicate Ordered(held: seq<Lock>, rest: seq<Action>)
    decreases |rest|
  {
    if rest == [] then held == []
    else
      match rest[0]
      case Compute => Ordered(held, rest[1..])
      case Acquire(l) => (forall h :: h in held ==> Rank(h) < Rank(l)) && Ordered(held + [l], rest[1..])
      case Release(l) => held != [] && held[|held| - 1] == l && Ordered(held[..|held| - 1], rest[1..])
      case Await(_) => held == [] && Ordered(held, rest[1..])
  }

  lemma {:induction false} FlattenIsOrdered(held: seq<Lock>, floor: nat, blocks: seq<Block>, rest: seq<Action>)
    requires Ascends(floor, blocks) && Ordered(held, rest)
    requires (forall h :: h in held ==> Rank(h) <= floor) && (floor == 0 ==> held == [])
    ensures Ordered(held, Flatten(blocks) + rest)
    decreases blocks, 1
  {
    if blocks == [] {
      assert Flatten(blocks) + rest == rest;
    } else {
      var after := Flatten(blocks[1..]) + rest;
      FlattenIsOrdered(held, floor, blocks[1..], rest);
      BlockIsOrdered(held, floor, blocks[0], after);
      assert Flatten(blocks) + rest == FlattenBlock(blocks[0]) + after;
    }
  }

  lemma {:induction false} BlockIsOrdered(held: seq<Lock>, floor: nat, block: Block, after: seq<Action>)
    requires AscendsIn(floor, block) && Ordered(held, after)
    requires (forall h :: h in held ==> Rank(h) <= floor) && (floor == 0 ==> held == [])
    ensures Ordered(held, FlattenBlock(block) + after)
    decreases block, 0
  {
    match block
    case Work =>
      assert ([Compute] + after)[1..] == after;
    case Join(t) =>
      assert ([Await(t)] + after)[1..] == after;
    case With(l, body) =>
      UnlockIsOrdered(held, l, after);
      FlattenIsOrdered(held + [l], Rank(l), body, [Release(l)] + after);
      LockIsOrdered(held, l, Flatten(body) + ([Release(l)] + after));
      assert FlattenBlock(block) + after == [Acquire(l)] + (Flatten(body) + ([Release(l)] + after));
  }

  lemma UnlockIsOrdered(held: seq<Lock>, l: Lock, after: seq<Action>)
    requires Ordered(held, after)
    ensures Ordered(held + [l], [Release(l)] + after)
  {
    assert ([Release(l)] + after)[1..] == after && (held + [l])[..|held|] == held;
  }

  lemma LockIsOrdered(held: seq<Lock>, l: Lock, inside: seq<Action>)
    requires (forall h :: h in held ==> Rank(h) < Rank(l)) && Ordered(held + [l], inside)
    ensures Ordered(held, [Acquire(l)] + inside)
  {
    assert ([Acquire(l)] + inside)[1..] == inside;
  }

  // ---------- Threads ----------

  /** A thread between code paths has nothing left to do; an application thread takes one path and ends. */
  datatype Thread = Thread(role: Role, held: seq<Lock>, rest: seq<Action>, begun: bool)

  type Threads = seq<Thread>

  predicate Idle(t: Thread) {
    t.rest == [] && !(t.role.Application? && t.begun)
  }

  predicate Ended(t: Thread) {
    t.role.Application? && t.begun && t.rest == []
  }

  ghost predicate Free(ts: Threads, l: Lock) {
    forall i :: 0 <= i < |ts| ==> l !in ts[i].held
  }

  /** The next action of thread i can be taken. */
  ghost predicate CanAdvance(ts: Threads, i: nat) {
    && i < |ts| && ts[i].rest != []
    && match ts[i].rest[0]
       case Compute => true
       case Release(_) => true
       case Acquire(l) => Free(ts, l)
       case Await(j) => j < |ts| && Ended(ts[j])
  }

  datatype Step = Begin(thread: nat, path: seq<Block>) | Advance(thread: nat)

  ghost predicate Possible(ts: Threads, s: Step) {
    match s
    case Advance(i) => CanAdvance(ts, i)
    case Begin(i, path) =>
      && i < |ts| && Idle(ts[i])
      && (Follows(ts[i].role, path)
          || ((ts[i].role.BleWorker? || ts[i].role.BtcWorker?)
              && exists j :: 0 <= j < |ts| && ts[j].role.Application? && path == [Join(j)]))
  }

  ghost function Take(ts: Threads, s: Step): Threads
    requires Possible(ts, s)
  {
    match s
    case Begin(i, path) => ts[i := ts[i].(rest := Flatten(path), begun := true)]
    case Advance(i) =>
      var t := ts[i];
      var t' := t.(rest := t.rest[1..]);
      match t.rest[0]
      case Compute => ts[i := t']
      case Await(_) => ts[i := t']
      case Acquire(l) => ts[i := t'.(held := t.held + [l])]
      case Release(l) => ts[i := t'.(held := if t.held == [] then [] else t.held[..|t.held| - 1])]
  }

  ghost predicate Initial(ts: Threads) {
    forall i :: 0 <= i < |ts| ==> ts[i].held == [] && ts[i].rest == [] && !ts[i].begun
  }

  ghost predicate Run(ts: Threads, steps: seq<Step>, ts': Threads)
    decreases |steps|
  {
    if steps == [] then ts == ts'
    else Possible(ts, steps[0]) && Run(Take(ts, steps[0]), steps[1..], ts')
  }

  /** Each thread keeps the order, only workers join, and only application threads are joined. */
  ghost predicate Disciplined(ts: Threads, i: nat)
    requires i < |ts|
  {
    && Ordered(ts[i].held, ts[i].rest)
    && (forall a :: a in ts[i].rest && a.Await? ==>
          !ts[i].role.Application? && a.thread < |ts| && ts[a.thread].role.Application?)
  }

  ghost predicate Exclusive(ts: Threads) {
    forall i, j, l :: 0 <= i < |ts| && 0 <= j < |ts| && l in ts[i].held && l in ts[j].held ==> i == j
  }

  ghost predicate Invariant(ts: Threads) {
    (forall i :: 0 <= i < |ts| ==> Disciplined(ts, i)) && Exclusive(ts)
  }

  lemma AscendsShort(floor: nat, b: Block, c: Block)
    ensures Ascends(floor, [b]) <==> AscendsIn(floor, b)
    ensures Ascends(floor, [b, c]) <==> AscendsIn(floor, b) && AscendsIn(floor, c)
  {
    assert [b][1..] == [];
    assert [b, c][1..] == [c] && [c][1..] == [];
  }

  predicate NoJoin(b: Block) {
    match b
    case Work => true
    case Join(_) => false
    case With(_, body) => forall c :: c in body ==> NoJoin(c)
  }

  predicate Sound(b: Block) {
    AscendsIn(0, b) && NoJoin(b)
  }

  lemma SectionIsSound(l: Lock)
    ensures Sound(Section(l))
  {
    AscendsShort(Rank(l), Work, Work);
  }

  lemma NestedIsSound(outer: Lock, inner: Lock)
    requires Rank(outer) < Rank(inner)
    ensures Sound(Nested(outer, inner))
  {
    AscendsShort(Rank(inner), Work, Work);
    AscendsShort(Rank(outer), Work, With(inner, [Work]));
  }

  lemma SoundPath(path: seq<Block>)
    requires (|path| == 1 || |path| == 2) && Sound(path[0]) && Sound(path[|path| - 1])
    ensures Ascends(0, path) && forall b :: b in path ==> NoJoin(b)
  {
    assert path == [path[0]] || path == [path[0], path[1]];
    AscendsShort(0, path[0], path[|path| - 1]);
  }

  lemma BlocksAreSound()
    ensures Sound(Work) && forall l :: Sound(Section(l))
    ensures forall outer, inner :: Rank(outer) < Rank(inner) ==> Sound(Nested(outer, inner))
  {
    forall l ensures Sound(Section(l)) { SectionIsSound(l); }
    forall outer, inner | Rank(outer) < Rank(inner) ensures Sound(Nested(outer, inner)) { NestedIsSound(outer, inner); }
  }

  /** The launcher's paths, one and all, go up the lock order. */
  lemma PathsAscend(r: Role, path: seq<Block>)
    requires Follows(r, path)
    ensures Ascends(0, path) && forall b :: b in path ==> NoJoin(b)
  {
    hide AscendsIn, Ascends, Sound, NoJoin, Section, Nested;
    BlocksAreSound();
    SoundPath(path);
  }

  // ---------- What every step keeps ----------

  lemma {:induction false} FlattenHasNoAwait(blocks: seq<Block>)
    requires forall b :: b in blocks ==> NoJoin(b)
    ensures forall a :: a in Flatten(blocks) ==> !a.Await?
    decreases blocks, 1
  {
    if blocks == [] {
    } else {
      BlockHasNoAwait(blocks[0]);
      FlattenHasNoAwait(blocks[1..]);
    }
  }

  lemma {:induction false} BlockHasNoAwait(block: Block)
    requires NoJoin(block)
    ensures forall a :: a in FlattenBlock(block) ==> !a.Await?
    decreases block, 0
  {
    if block.With? {
      FlattenHasNoAwait(block.body);
    }
  }

  lemma BeginKeeps(ts: Threads, i: nat, path: seq<Block>)
    requires Invariant(ts) && Possible(ts, Begin(i, path))
    ensures Invariant(Take(ts, Begin(i, path)))
  {
    if Follows(ts[i].role, path) {
      PathsAscend(ts[i].role, path);
      FlattenHasNoAwait(path);
    } else {
      var j :| 0 <= j < |ts| && ts[j].role.Application? && path == [Join(j)];
      assert path[0] == Join(j) && path[1..] == [] && path == [path[0]];
      AscendsShort(0, path[0], path[0]);
      assert Flatten(path) == [Await(j)] + [];
      assert forall a :: a in Flatten(path) ==> a == Await(j);
    }
    assert Disciplined(ts, i);
    FlattenIsOrdered([], 0, path, []);
    assert Flatten(path) + [] == Flatten(path);
    var ts' := Take(ts, Begin(i, path));
    OthersKeep(ts, ts', i);
    assert Disciplined(ts', i);
    assert forall j :: 0 <= j < |ts| ==> ts'[j].held == ts[j].held;
  }

  /** A step of thread i leaves the others as they were. */
  lemma OthersKeep(ts: Threads, ts': Threads, i: nat)
    requires (forall j :: 0 <= j < |ts| ==> Disciplined(ts, j)) && |ts'| == |ts| && i < |ts|
    requires forall j :: 0 <= j < |ts| ==> ts'[j].role == ts[j].role && (j != i ==> ts'[j] == ts[j])
    ensures forall j :: 0 <= j < |ts| && j != i ==> Disciplined(ts', j)
  {
    forall j | 0 <= j < |ts| && j != i ensures Disciplined(ts', j) {
      assert Disciplined(ts, j);
    }
  }

  lemma AdvanceKeeps(ts: Threads, i: nat)
    requires Invariant(ts) && Possible(ts, Advance(i))
    ensures Invariant(Take(ts, Advance(i)))
  {
    var ts' := Take(ts, Advance(i));
    OthersKeep(ts, ts', i);
    assert Disciplined(ts, i);
    assert forall a :: a in ts[i].rest[1..] ==> a in ts[i].rest;
    assert Disciplined(ts', i);
    forall j, k, l | 0 <= j < |ts| && 0 <= k < |ts| && l in ts'[j].held && l in ts'[k].held ensures j == k {
      if ts[i].rest[0] == Acquire(l) {
        assert Free(ts, l);
      } else {
        assert l in ts[j].held && l in ts[k].held;
      }
    }
  }

  lemma {:induction false} RunKeeps(ts: Threads, steps: seq<Step>, ts': Threads)
    requires Invariant(ts) && Run(ts, steps, ts')
    ensures Invariant(ts')
    decreases |steps|
  {
    if steps == [] {
    } else {
      match steps[0] {
        case Begin(i, path) => BeginKeeps(ts, i, path);
        case Advance(i) => AdvanceKeeps(ts, i);
      }
      RunKeeps(Take(ts, steps[0]), steps[1..], ts');
    }
  }

  // ---------- No deadlock ----------

  /** Thread i cannot go on because of thread j. */
  ghost predicate WaitsFor(ts: Threads, i: nat, j: nat) {
    && i < |ts| && j < |ts| && ts[i].rest != []
    && match ts[i].rest[0]
       case Acquire(l) => l in ts[j].held
       case Await(k) => k == j && !Ended(ts[j])
       case _ => false
  }

  ghost predicate WaitsWithin(ts: Threads, waits: map<nat, nat>, i: nat) {
    i in waits ==> waits[i] in waits && WaitsFor(ts, i, waits[i])
  }

  /** A group of threads (the keys) each of which waits for another one of the group. */
  ghost predicate Deadlocked(ts: Threads, waits: map<nat, nat>) {
    waits != map[] && forall i {:trigger WaitsWithin(ts, waits, i)} :: WaitsWithin(ts, waits, i)
  }

  function Level(a: Action): nat {
    if a.Acquire? then Rank(a.lock) else 0
  }

  /** Waiting always climbs the lock order. */
  lemma WaitingClimbs(ts: Threads, i: nat, j: nat, k: nat)
    requires Invariant(ts) && WaitsFor(ts, i, j) && WaitsFor(ts, j, k)
    ensures Level(ts[i].rest[0]) < Level(ts[j].rest[0]) <= 3
  {
    assert Disciplined(ts, i) && Disciplined(ts, j);
    assert ts[i].rest[0] in ts[i].rest && ts[j].rest[0] in ts[j].rest;
  }

  lemma {:induction false} NoDeadlockAbove(ts: Threads, waits: map<nat, nat>, i: nat)
    requires Invariant(ts) && Deadlocked(ts, waits) && i in waits
    ensures false
    decreases 3 - (if i < |ts| && ts[i].rest != [] then Level(ts[i].rest[0]) else 0)
  {
    assert WaitsWithin(ts, waits, i);
    assert WaitsWithin(ts, waits, waits[i]);
    hide Invariant;
    WaitingClimbs(ts, i, waits[i], waits[waits[i]]);
    NoDeadlockAbove(ts, waits, waits[i]);
  }

  /** However the threads interleave, no group of them, large or small, is ever deadlocked. */
  lemma NoDeadlock(ts: Threads, steps: seq<Step>, ts': Threads, waits: map<nat, nat>)
    requires Initial(ts) && Run(ts, steps, ts')
    ensures Exclusive(ts') && !Deadlocked(ts', waits)
  {
    assert Invariant(ts);
    RunKeeps(ts, steps, ts');
    if Deadlocked(ts', waits) {
      var i :| i in waits;
      NoDeadlockAbove(ts', waits, i);
    }
  }

  /** A thread that is in the middle of a path and cannot go on waits for some thread. */
  lemma StuckWaits(ts: Threads, i: nat)
    requires Invariant(ts) && i < |ts| && ts[i].rest != [] && !CanAdvance(ts, i)
    ensures exists j: nat :: WaitsFor(ts, i, j)
  {
    assert Disciplined(ts, i);
    assert ts[i].rest[0] in ts[i].rest;
    match ts[i].rest[0]
    case Acquire(l) =>
      var j :| 0 <= j < |ts| && l in ts[j].held;
      assert WaitsFor(ts, i, j);
    case Await(j) =>
      assert WaitsFor(ts, i, j);
    case _ =>
  }

  /** In every reachable state each thread that is stuck waits, directly or not, for one that can step. */
  lemma {:induction false} SomeoneCanStep(ts: Threads, i: nat) returns (chain: seq<nat>)
    requires Invariant(ts) && i < |ts| && ts[i].rest != []
    ensures chain != [] && chain[0] == i
    ensures forall n :: 0 <= n < |chain| - 1 ==> WaitsFor(ts, chain[n], chain[n + 1])
    ensures var last := chain[|chain| - 1];
            CanAdvance(ts, last) || (last < |ts| && Idle(ts[last]))
    decreases 3 - Level(ts[i].rest[0])
  {
    if CanAdvance(ts, i) {
      return [i];
    }
    StuckWaits(ts, i);
    var j: nat :| WaitsFor(ts, i, j);
    if ts[j].rest == [] {
      assert Disciplined(ts, j) && Disciplined(ts, i);
      return [i, j];
    }
    if CanAdvance(ts, j) {
      return [i, j];
    }
    StuckWaits(ts, j);
    var k: nat :| WaitsFor(ts, j, k);
    WaitingClimbs(ts, i, j, k);
    var rest := SomeoneCanStep(ts, j);
    chain := [i] + rest;
    forall n | 0 <= n < |chain| - 1 ensures WaitsFor(ts, chain[n], chain[n + 1]) {
      if n > 0 {
        assert chain[n] == rest[n - 1] && chain[n + 1] == rest[n];
      }
    }
  }
}
