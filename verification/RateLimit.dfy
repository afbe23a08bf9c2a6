/**
 The two rate limiters: `rate_limit_checks` of the pool server, a queue of timestamps popped from the front and a
 counter of open requests, and `handle_one_request` of the token server, a list filtered by age.
 A call of a limiter is one step; requests of all clients interleave freely.
 */
module RateLimit {
  type Client = string

  /** How many requests fit in a window; a closed window still counts a timestamp that is exactly `window` old. */
  datatype Policy = Policy(limit: nat, window: real, closed: bool)

  const POOL_POLICY := Policy(100, 86400.0, true)
  const TOKEN_POLICY := Policy(10, 60.0, false)
  const MAX_SIMULTANEOUS := 10

  predicate Expired(p: Policy, now: real, t: real) {
    if p.closed then now - t > p.window else now - t >= p.window
  }

  /** Pops expired timestamps off the front. */
  function PopExpired(p: Policy, now: real, ts: seq<real>): seq<real> {
    if ts != [] && Expired(p, now, ts[0]) then PopExpired(p, now, ts[1..]) else ts
  }

  /** Keeps the timestamps that are young enough, wherever they are. */
  function KeepYoung(p: Policy, now: real, ts: seq<real>): seq<real> {
    if ts == [] then []
    else
      var rest := KeepYoung(p, now, ts[..|ts| - 1]);
      if Expired(p, now, ts[|ts| - 1]) then rest else rest + [ts[|ts| - 1]]
  }

  predicate Sorted(ts: seq<real>) {
    forall i, j :: 0 <= i < j < |ts| ==> ts[i] <= ts[j]
  }

  lemma {:induction false} KeepYoungAppend(p: Policy, now: real, xs: seq<real>, ys: seq<real>)
    ensures KeepYoung(p, now, xs + ys) == KeepYoung(p, now, xs) + KeepYoung(p, now, ys)
  {
    if ys == [] {
      assert xs + ys == xs;
    } else {
      assert (xs + ys)[..|xs + ys| - 1] == xs + ys[..|ys| - 1];
      KeepYoungAppend(p, now, xs, ys[..|ys| - 1]);
    }
  }

  lemma {:induction false} AllYoung(p: Policy, now: real, ts: seq<real>)
    requires forall t :: t in ts ==> !Expired(p, now, t)
    ensures KeepYoung(p, now, ts) == ts
  {
    if ts == [] {
    } else {
      AllYoung(p, now, ts[..|ts| - 1]);
    }
  }

  /** Popping leaves a tail, and everything before it has expired. */
  lemma {:induction false} PopLeavesTail(p: Policy, now: real, ts: seq<real>)
    ensures |PopExpired(p, now, ts)| <= |ts|
    ensures PopExpired(p, now, ts) == ts[|ts| - |PopExpired(p, now, ts)|..]
    ensures forall i :: 0 <= i < |ts| - |PopExpired(p, now, ts)| ==> Expired(p, now, ts[i])
  {
    if ts != [] && Expired(p, now, ts[0]) {
      PopLeavesTail(p, now, ts[1..]);
      var n := |ts[1..]| - |PopExpired(p, now, ts[1..])|;
      assert ts[1..][n..] == ts[n + 1..];
      forall i | 0 <= i < n + 1 ensures Expired(p, now, ts[i]) {
        if i > 0 {
          assert ts[i] == ts[1..][i - 1];
        }
      }
    }
  }

  /** On a queue in order of time, popping from the front is the same as filtering by age. */
  lemma {:induction false} PopIsFilter(p: Policy, now: real, ts: seq<real>)
    requires Sorted(ts)
    ensures PopExpired(p, now, ts) == KeepYoung(p, now, ts)
  {
    if ts != [] && Expired(p, now, ts[0]) {
      PopIsFilter(p, now, ts[1..]);
      assert ts == [ts[0]] + ts[1..];
      KeepYoungAppend(p, now, [ts[0]], ts[1..]);
      assert KeepYoung(p, now, [ts[0]]) == [] by { assert [ts[0]][..0] == []; }
    } else {
      AllYoung(p, now, ts);
    }
  }

  // ---------- Counting accepted requests ----------

  /** The window that starts at a. */
  predicate InWindow(p: Policy, a: real, t: real) {
    a <= t && if p.closed then t <= a + p.window else t < a + p.window
  }

  function CountIn(p: Policy, a: real, ts: seq<real>): (n: nat)
    ensures n <= |ts|
  {
    if ts == [] then 0
    else CountIn(p, a, ts[..|ts| - 1]) + if InWindow(p, a, ts[|ts| - 1]) then 1 else 0
  }

  lemma {:induction false} CountAppend(p: Policy, a: real, xs: seq<real>, ys: seq<real>)
    ensures CountIn(p, a, xs + ys) == CountIn(p, a, xs) + CountIn(p, a, ys)
  {
    if ys == [] {
      assert xs + ys == xs;
    } else {
      assert (xs + ys)[..|xs + ys| - 1] == xs + ys[..|ys| - 1];
      CountAppend(p, a, xs, ys[..|ys| - 1]);
    }
  }

  lemma {:induction false} CountNone(p: Policy, a: real, ts: seq<real>)
    requires forall t :: t in ts ==> !InWindow(p, a, t)
    ensures CountIn(p, a, ts) == 0
  {
    if ts == [] {
    } else {
      CountNone(p, a, ts[..|ts| - 1]);
    }
  }

  /** How many of the timestamps pass a test. */
  ghost function HowMany(ts: seq<real>, test: real -> bool): nat {
    |set i: nat | i < |ts| && test(ts[i])|
  }

  lemma HowManySnoc(ts: seq<real>, t: real, test: real -> bool)
    ensures HowMany(ts + [t], test) == HowMany(ts, test) + if test(t) then 1 else 0
  {
    var before := set i: nat | i < |ts| && test(ts[i]);
    var after := set i: nat | i < |ts + [t]| && test((ts + [t])[i]);
    assert after == if test(t) then before + {|ts|} else before;
  }

  lemma {:induction false} CountIsHowMany(p: Policy, a: real, ts: seq<real>, test: real -> bool)
    requires forall t :: test(t) <==> InWindow(p, a, t)
    ensures CountIn(p, a, ts) == HowMany(ts, test)
  {
    if ts == [] {
    } else {
      hide HowMany;
      var earlier := ts[..|ts| - 1];
      CountIsHowMany(p, a, earlier, test);
      HowManySnoc(earlier, ts[|ts| - 1], test);
      assert ts == earlier + [ts[|ts| - 1]];
    }
  }

  lemma {:induction false} YoungIsHowMany(p: Policy, now: real, ts: seq<real>, test: real -> bool)
    requires forall t :: test(t) <==> !Expired(p, now, t)
    ensures |KeepYoung(p, now, ts)| == HowMany(ts, test)
  {
    if ts == [] {
    } else {
      hide HowMany;
      var earlier := ts[..|ts| - 1];
      YoungIsHowMany(p, now, earlier, test);
      HowManySnoc(earlier, ts[|ts| - 1], test);
      assert ts == earlier + [ts[|ts| - 1]];
    }
  }

  ghost predicate WithinLimit(p: Policy, accepted: seq<real>) {
    forall a :: CountIn(p, a, accepted) <= p.limit
  }

  /** The queue is what is left of all accepted requests, and what is gone is too old at `clock`. */
  ghost predicate Remembers(p: Policy, clock: real, accepted: seq<real>, queue: seq<real>) {
    && |queue| <= |accepted| && queue == accepted[|accepted| - |queue|..]
    && forall i :: 0 <= i < |accepted| - |queue| ==> Expired(p, clock, accepted[i])
  }

  /** Everything the queue is good for: order, memory, and the limit over every window so far. */
  ghost predicate Healthy(p: Policy, clock: real, accepted: seq<real>, queue: seq<real>) {
    && Sorted(accepted) && (forall t :: t in accepted ==> t <= clock)
    && Remembers(p, clock, accepted, queue)
    && WithinLimit(p, accepted)
  }

  lemma ExpiryKeeps(p: Policy, clock: real, now: real, accepted: seq<real>, queue: seq<real>)
    requires Healthy(p, clock, accepted, queue) && clock <= now
    ensures Healthy(p, now, accepted, PopExpired(p, now, queue))
    ensures PopExpired(p, now, queue) == KeepYoung(p, now, queue)
  {
    hide WithinLimit, PopExpired, KeepYoung;
    PopLeavesTail(p, now, queue);
    QueueIsSorted(p, clock, accepted, queue);
    PopIsFilter(p, now, queue);
    var young := PopExpired(p, now, queue);
    var n := |accepted| - |queue|;
    assert queue[|queue| - |young|..] == accepted[|accepted| - |young|..];
    forall i | 0 <= i < |accepted| - |young| ensures Expired(p, now, accepted[i]) {
      if i >= n {
        assert accepted[i] == queue[i - n];
      }
    }
  }

  /** What the limiter still knows is exactly what is young among all it ever accepted. */
  lemma QueueIsTheRecentPast(p: Policy, clock: real, now: real, accepted: seq<real>, queue: seq<real>)
    requires Healthy(p, clock, accepted, queue) && clock <= now
    ensures PopExpired(p, now, queue) == KeepYoung(p, now, accepted)
  {
    hide WithinLimit, PopExpired, KeepYoung;
    ExpiryKeeps(p, clock, now, accepted, queue);
    var n := |accepted| - |queue|;
    assert accepted == accepted[..n] + queue;
    KeepYoungAppend(p, now, accepted[..n], queue);
    NoneYoung(p, now, accepted[..n]);
  }

  lemma {:induction false} NoneYoung(p: Policy, now: real, ts: seq<real>)
    requires forall t :: t in ts ==> Expired(p, now, t)
    ensures KeepYoung(p, now, ts) == []
  {
    if ts == [] {
    } else {
      NoneYoung(p, now, ts[..|ts| - 1]);
    }
  }

  lemma AcceptWithinLimit(p: Policy, now: real, accepted: seq<real>, queue: seq<real>)
    requires Remembers(p, now, accepted, queue) && WithinLimit(p, accepted) && |queue| < p.limit
    ensures WithinLimit(p, accepted + [now])
  {
    var gone := accepted[..|accepted| - |queue|];
    assert accepted == gone + queue;
    assert forall t :: t in gone ==> Expired(p, now, t);
    forall a ensures CountIn(p, a, accepted + [now]) <= p.limit {
      CountAppend(p, a, accepted, [now]);
      if InWindow(p, a, now) {
        CountAppend(p, a, gone, queue);
        CountNone(p, a, gone);
      } else {
        CountNone(p, a, [now]);
      }
    }
  }

  lemma AcceptKeeps(p: Policy, now: real, accepted: seq<real>, queue: seq<real>)
    requires Healthy(p, now, accepted, queue) && |queue| < p.limit
    ensures Healthy(p, now, accepted + [now], queue + [now])
  {
    AcceptWithinLimit(p, now, accepted, queue);
    hide WithinLimit;
    assert forall i :: 0 <= i < |accepted| ==> accepted[i] in accepted;
    assert (accepted + [now])[|accepted| - |queue|..] == queue + [now];
  }

  // ---------- The pool server ----------

  datatype Connection = Connection(count: int, timestamps: seq<real>)

  function ConnectionOf(data: map<Client, Connection>, c: Client): Connection {
    if c in data then data[c] else Connection(0, [])
  }

  predicate Accepts(d: Connection, now: real) {
    |PopExpired(POOL_POLICY, now, d.timestamps)| < POOL_POLICY.limit && d.count < MAX_SIMULTANEOUS
  }

  function Checked(d: Connection, now: real): Connection {
    var young := PopExpired(POOL_POLICY, now, d.timestamps);
    if Accepts(d, now) then Connection(d.count + 1, young + [now]) else Connection(d.count, young)
  }

  class PoolLimiter {
    var connectionData: map<Client, Connection>

    constructor ()
      ensures connectionData == map[]
    {
      connectionData := map[];
    }

    /** `rate_limit_checks`. */
    method RateLimitChecks(client: Client, now: real) returns (ok: bool)
      modifies this
      ensures ok <==> Accepts(ConnectionOf(old(connectionData), client), now)
      ensures connectionData == old(connectionData)[client := Checked(ConnectionOf(old(connectionData), client), now)]
    {
      var data := ConnectionOf(connectionData, client);
      var timestamps := data.timestamps;
      while timestamps != [] && now - timestamps[0] > POOL_POLICY.window
        invariant PopExpired(POOL_POLICY, now, timestamps) == PopExpired(POOL_POLICY, now, data.timestamps)
      {
        timestamps := timestamps[1..];
      }
      connectionData := connectionData[client := Connection(data.count, timestamps)];
      if |timestamps| >= POOL_POLICY.limit {
        return false;
      }
      if data.count >= MAX_SIMULTANEOUS {
        return false;
      }
      connectionData := connectionData[client := Connection(data.count + 1, timestamps + [now])];
      ok := true;
    }

    /** The end of `do_POST` for a command that was recognised. */
    method Finish(client: Client)
      modifies this
      ensures var d := ConnectionOf(old(connectionData), client);
              connectionData == old(connectionData)[client := d.(count := d.count - 1)]
    {
      var d := ConnectionOf(connectionData, client);
      connectionData := connectionData[client := d.(count := d.count - 1)];
    }
  }

  // ---------- Whole runs of the pool server ----------

  /** A request arrives; an open one ends; an open one ends in the branch that returns without giving its place back. */
  datatype Event = Arrive(client: Client, now: real) | Finish(client: Client) | Unmatched(client: Client)

  /** What really happened to the requests of a client. */
  datatype Ledger = Ledger(accepted: seq<real>, open: nat, unmatched: nat)

  datatype Server = Server(data: map<Client, Connection>, ledgers: map<Client, Ledger>, clock: real)

  function LedgerOf(s: Server, c: Client): Ledger {
    if c in s.ledgers then s.ledgers[c] else Ledger([], 0, 0)
  }

  predicate Possible(s: Server, e: Event) {
    match e
    case Arrive(_, now) => s.clock <= now
    case Finish(c) => LedgerOf(s, c).open > 0
    case Unmatched(c) => LedgerOf(s, c).open > 0
  }

  function Next(s: Server, e: Event): Server
    requires Possible(s, e)
  {
    var d, l := ConnectionOf(s.data, e.client), LedgerOf(s, e.client);
    match e
    case Arrive(c, now) =>
      Server(s.data[c := Checked(d, now)],
             s.ledgers[c := if Accepts(d, now) then l.(accepted := l.accepted + [now], open := l.open + 1) else l],
             now)
    case Finish(c) => Server(s.data[c := d.(count := d.count - 1)], s.ledgers[c := l.(open := l.open - 1)], s.clock)
    case Unmatched(c) => Server(s.data, s.ledgers[c := l.(open := l.open - 1, unmatched := l.unmatched + 1)], s.clock)
  }

  ghost predicate Run(s: Server, events: seq<Event>, s': Server)
    decreases |events|
  {
    if events == [] then s == s' else Possible(s, events[0]) && Run(Next(s, events[0]), events[1..], s')
  }

  function Empty(clock: real): Server {
    Server(map[], map[], clock)
  }

  /** The counter is the open requests plus those whose place was never given back. */
  ghost predicate Balanced(s: Server, c: Client) {
    var d, l := ConnectionOf(s.data, c), LedgerOf(s, c);
    d.count == l.open + l.unmatched <= MAX_SIMULTANEOUS
    && Healthy(POOL_POLICY, s.clock, l.accepted, d.timestamps)
  }

  ghost predicate Invariant(s: Server) {
    forall c :: Balanced(s, c)
  }

  lemma LaterIsHealthy(p: Policy, clock: real, now: real, accepted: seq<real>, queue: seq<real>)
    requires Healthy(p, clock, accepted, queue) && clock <= now
    ensures Healthy(p, now, accepted, queue)
  {
  }

  lemma NextKeeps(s: Server, e: Event)
    requires Invariant(s) && Possible(s, e)
    ensures Invariant(Next(s, e))
  {
    var s' := Next(s, e);
    forall c ensures Balanced(s', c) {
      assert Balanced(s, c);
      var d, l := ConnectionOf(s.data, c), LedgerOf(s, c);
      LaterIsHealthy(POOL_POLICY, s.clock, s'.clock, l.accepted, d.timestamps);
      if e.Arrive? && e.client == c {
        ExpiryKeeps(POOL_POLICY, s.clock, e.now, l.accepted, d.timestamps);
        if Accepts(d, e.now) {
          AcceptKeeps(POOL_POLICY, e.now, l.accepted, PopExpired(POOL_POLICY, e.now, d.timestamps));
        }
      }
    }
  }

  lemma {:induction false} RunKeeps(s: Server, events: seq<Event>, s': Server)
    requires Invariant(s) && Run(s, events, s')
    ensures Invariant(s')
    ensures forall c :: LedgerOf(s, c).unmatched <= LedgerOf(s', c).unmatched
    decreases |events|
  {
    if events == [] {
    } else {
      NextKeeps(s, events[0]);
      RunKeeps(Next(s, events[0]), events[1..], s');
    }
  }

  lemma NothingIsHealthy(p: Policy, clock: real)
    ensures Healthy(p, clock, [], [])
  {
  }

  lemma EmptyIsBalanced(clock: real)
    ensures Invariant(Empty(clock))
  {
    forall c ensures Balanced(Empty(clock), c) {
      NothingIsHealthy(POOL_POLICY, clock);
    }
  }

  /** No client gets more than 100 requests into 24 hours, nor 10 open at once; the counter loses unmatched ones. */
  lemma PoolLimits(clock: real, events: seq<Event>, s: Server, c: Client, a: real)
    requires Run(Empty(clock), events, s)
    ensures HowMany(LedgerOf(s, c).accepted, t => a <= t <= a + 86400.0) <= 100
    ensures ConnectionOf(s.data, c).count == LedgerOf(s, c).open + LedgerOf(s, c).unmatched
    ensures LedgerOf(s, c).open <= 10
  {
    EmptyIsBalanced(clock);
    RunKeeps(Empty(clock), events, s);
    assert Balanced(s, c);
    CountIsHowMany(POOL_POLICY, a, LedgerOf(s, c).accepted, t => a <= t <= a + 86400.0);
    assert CountIn(POOL_POLICY, a, LedgerOf(s, c).accepted) <= 100;
  }

  /** A request is refused exactly when the day is full or too many places are taken, judged on all of the past. */
  lemma PoolDecidesExactly(clock: real, events: seq<Event>, s: Server, c: Client, now: real)
    requires Run(Empty(clock), events, s) && s.clock <= now
    ensures Accepts(ConnectionOf(s.data, c), now) <==>
            HowMany(LedgerOf(s, c).accepted, t => now - t <= 86400.0) < 100
            && LedgerOf(s, c).open + LedgerOf(s, c).unmatched < 10
  {
    EmptyIsBalanced(clock);
    RunKeeps(Empty(clock), events, s);
    assert Balanced(s, c);
    QueueIsTheRecentPast(POOL_POLICY, s.clock, now, LedgerOf(s, c).accepted, ConnectionOf(s.data, c).timestamps);
    YoungIsHowMany(POOL_POLICY, now, LedgerOf(s, c).accepted, t => now - t <= 86400.0);
  }

  /** Ten unmatched commands shut a client out for good: nothing gives those places back. */
  lemma UnmatchedLocksOut(clock: real, before: seq<Event>, s: Server, after: seq<Event>, s': Server, c: Client,
        now: real)
    requires Run(Empty(clock), before, s) && LedgerOf(s, c).unmatched == 10
    requires Run(s, after, s')
    ensures !Accepts(ConnectionOf(s'.data, c), now) && LedgerOf(s', c).open == 0
  {
    EmptyIsBalanced(clock);
    RunKeeps(Empty(clock), before, s);
    RunKeeps(s, after, s');
    assert Balanced(s', c);
  }

  lemma PairOfEvents(s: Server, c: Client)
    requires LedgerOf(s, c).open == 0 && Accepts(ConnectionOf(s.data, c), s.clock)
    ensures Possible(s, Arrive(c, s.clock)) && Possible(Next(s, Arrive(c, s.clock)), Unmatched(c))
    ensures var t := Next(Next(s, Arrive(c, s.clock)), Unmatched(c));
            && t.clock == s.clock && ConnectionOf(t.data, c) == Checked(ConnectionOf(s.data, c), s.clock)
            && LedgerOf(t, c).open == 0 && LedgerOf(t, c).unmatched == LedgerOf(s, c).unmatched + 1
  {
  }

  /** A client whose requests all end unmatched runs through its places. */
  lemma {:induction false} UnmatchedAddUp(s: Server, c: Client, n: nat) returns (events: seq<Event>, s': Server)
    requires LedgerOf(s, c).open == 0 && ConnectionOf(s.data, c).count + n <= MAX_SIMULTANEOUS
    requires |ConnectionOf(s.data, c).timestamps| <= ConnectionOf(s.data, c).count
    ensures Run(s, events, s') && LedgerOf(s', c).unmatched == LedgerOf(s, c).unmatched + n
    decreases n
  {
    if n == 0 {
      events, s' := [], s;
    } else {
      PopLeavesNoMore(POOL_POLICY, s.clock, ConnectionOf(s.data, c).timestamps);
      PairOfEvents(s, c);
      var t := Next(Next(s, Arrive(c, s.clock)), Unmatched(c));
      var more;
      more, s' := UnmatchedAddUp(t, c, n - 1);
      events := [Arrive(c, s.clock), Unmatched(c)] + more;
      assert events[1..] == [Unmatched(c)] + more && events[1..][1..] == more;
    }
  }

  lemma {:induction false} PopLeavesNoMore(p: Policy, now: real, ts: seq<real>)
    ensures |PopExpired(p, now, ts)| <= |ts|
  {
    if ts != [] && Expired(p, now, ts[0]) {
      PopLeavesNoMore(p, now, ts[1..]);
    }
  }

  /** The lock-out is reached: there is a run after which the client is refused whatever happens next. */
  lemma LockOutIsReached(clock: real, c: Client) returns (events: seq<Event>, s: Server)
    ensures Run(Empty(clock), events, s) && LedgerOf(s, c).unmatched == 10
    ensures forall after, s', now :: Run(s, after, s') ==> !Accepts(ConnectionOf(s'.data, c), now)
  {
    events, s := UnmatchedAddUp(Empty(clock), c, 10);
    forall after, s', now | Run(s, after, s') ensures !Accepts(ConnectionOf(s'.data, c), now) {
      UnmatchedLocksOut(clock, events, s, after, s', c, now);
    }
  }

  /** What happens to one client never touches another. */
  lemma OtherClientsUntouched(s: Server, e: Event, c: Client)
    requires Possible(s, e) && e.client != c
    ensures ConnectionOf(Next(s, e).data, c) == ConnectionOf(s.data, c) && LedgerOf(Next(s, e), c) == LedgerOf(s, c)
  {
  }

  // ---------- The token server ----------

  class TokenLimiter {
    var connections: map<Client, seq<real>>

    constructor ()
      ensures connections == map[]
    {
      connections := map[];
    }

    /** `handle_one_request`: true when the request goes on to the next handler. */
    method HandleOneRequest(client: Client, now: real) returns (ok: bool)
      modifies this
      ensures ok <==> HowMany(QueueOf(old(connections), client), t => now - t < 60.0) < 10
      ensures connections == old(connections)[client := TokenQueue(QueueOf(old(connections), client), now)]
    {
      var all, young := QueueOf(connections, client), [];
      for i := 0 to |all|
        invariant young == KeepYoung(TOKEN_POLICY, now, all[..i])
      {
        assert all[..i + 1][..i] == all[..i];
        if now - all[i] < TOKEN_POLICY.window {
          young := young + [all[i]];
        }
      }
      assert all[..|all|] == all;
      YoungIsHowMany(TOKEN_POLICY, now, all, t => now - t < 60.0);
      connections := connections[client := young];
      if |young| >= TOKEN_POLICY.limit {
        return false;
      }
      connections := connections[client := young + [now]];
      ok := true;
    }
  }

  function QueueOf(connections: map<Client, seq<real>>, c: Client): seq<real> {
    if c in connections then connections[c] else []
  }

  function TokenQueue(queue: seq<real>, now: real): seq<real> {
    var young := KeepYoung(TOKEN_POLICY, now, queue);
    if |young| < TOKEN_POLICY.limit then young + [now] else young
  }

  /** The queue of one client after its requests at the given times, and which of them were accepted. */
  function TokenRun(times: seq<real>): (seq<real>, seq<real>) {
    if times == [] then ([], [])
    else
      var (queue, accepted) := TokenRun(times[..|times| - 1]);
      var now := times[|times| - 1];
      (TokenQueue(queue, now),
       if |KeepYoung(TOKEN_POLICY, now, queue)| < TOKEN_POLICY.limit then accepted + [now] else accepted)
  }

  lemma TokenStep(now: real, accepted: seq<real>, queue: seq<real>)
    requires Healthy(TOKEN_POLICY, now, accepted, queue)
    ensures var young := KeepYoung(TOKEN_POLICY, now, queue);
            Healthy(TOKEN_POLICY, now,
                    if |young| < TOKEN_POLICY.limit then accepted + [now] else accepted, TokenQueue(queue, now))
  {
    ExpiryKeeps(TOKEN_POLICY, now, now, accepted, queue);
    var young := KeepYoung(TOKEN_POLICY, now, queue);
    if |young| < TOKEN_POLICY.limit {
      AcceptKeeps(TOKEN_POLICY, now, accepted, young);
    }
  }

  lemma {:induction false} TokenRunIsHealthy(times: seq<real>, now: real)
    requires Sorted(times) && (times != [] ==> times[|times| - 1] <= now)
    ensures Healthy(TOKEN_POLICY, now, TokenRun(times).1, TokenRun(times).0)
  {
    if times == [] {
      NothingIsHealthy(TOKEN_POLICY, now);
    } else {
      hide Healthy, KeepYoung, TokenQueue;
      var earlier, last := times[..|times| - 1], times[|times| - 1];
      TokenRunIsHealthy(earlier, last);
      var (queue, accepted) := TokenRun(earlier);
      TokenStep(last, accepted, queue);
      LaterIsHealthy(TOKEN_POLICY, last, now, TokenRun(times).1, TokenRun(times).0);
    }
  }

  /** Whether the next request passes is decided by the accepted requests of the last minute, all of them. */
  lemma YoungAccepted(times: seq<real>, now: real)
    requires Sorted(times + [now])
    ensures KeepYoung(TOKEN_POLICY, now, TokenRun(times).0) == KeepYoung(TOKEN_POLICY, now, TokenRun(times).1)
  {
    assert forall i :: 0 <= i < |times| ==> times[i] == (times + [now])[i];
    assert times != [] ==> times[|times| - 1] <= (times + [now])[|times|];
    TokenRunIsHealthy(times, now);
    var (queue, accepted) := TokenRun(times);
    QueueIsTheRecentPast(TOKEN_POLICY, now, now, accepted, queue);
    QueueIsSorted(TOKEN_POLICY, now, accepted, queue);
    PopIsFilter(TOKEN_POLICY, now, queue);
  }

  // ---------- Whole runs of the token server ----------

  datatype Arrival = Arrival(client: Client, time: real)

  /** The connections after the arrivals, in turn. */
  function Served(arrivals: seq<Arrival>): map<Client, seq<real>> {
    if arrivals == [] then map[]
    else
      var before, a := Served(arrivals[..|arrivals| - 1]), arrivals[|arrivals| - 1];
      before[a.client := TokenQueue(QueueOf(before, a.client), a.time)]
  }

  /** The times at which a client was let in. */
  function LetIn(arrivals: seq<Arrival>, c: Client): seq<real> {
    if arrivals == [] then []
    else
      var earlier, a := arrivals[..|arrivals| - 1], arrivals[|arrivals| - 1];
      var queue := QueueOf(Served(earlier), c);
      if a.client == c && |KeepYoung(TOKEN_POLICY, a.time, queue)| < TOKEN_POLICY.limit then
        LetIn(earlier, c) + [a.time]
      else LetIn(earlier, c)
  }

  function TimesOf(arrivals: seq<Arrival>, c: Client): seq<real> {
    if arrivals == [] then []
    else
      var times, a := TimesOf(arrivals[..|arrivals| - 1], c), arrivals[|arrivals| - 1];
      if a.client == c then times + [a.time] else times
  }

  predicate InOrder(arrivals: seq<Arrival>) {
    forall i, j :: 0 <= i < j < |arrivals| ==> arrivals[i].time <= arrivals[j].time
  }

  /** Each client is served as if it were alone. */
  lemma {:induction false} ClientsAreApart(arrivals: seq<Arrival>, c: Client)
    ensures TokenRun(TimesOf(arrivals, c)) == (QueueOf(Served(arrivals), c), LetIn(arrivals, c))
  {
    if arrivals == [] {
    } else {
      var earlier, a := arrivals[..|arrivals| - 1], arrivals[|arrivals| - 1];
      ClientsAreApart(earlier, c);
      var times := TimesOf(earlier, c);
      assert (times + [a.time])[..|times|] == times;
    }
  }

  lemma {:induction false} TimesAreSorted(arrivals: seq<Arrival>, c: Client)
    requires InOrder(arrivals)
    ensures Sorted(TimesOf(arrivals, c))
    ensures forall t :: t in TimesOf(arrivals, c) ==> t <= arrivals[|arrivals| - 1].time
  {
    if arrivals == [] {
    } else {
      var earlier := arrivals[..|arrivals| - 1];
      TimesAreSorted(earlier, c);
      var times := TimesOf(earlier, c);
      assert forall i :: 0 <= i < |times| ==> times[i] in times;
    }
  }

  /** With any clients in any order, no half-open minute holds more than 10 requests let in for one of them. */
  lemma TokenServerLimits(arrivals: seq<Arrival>, c: Client, a: real)
    requires InOrder(arrivals)
    ensures HowMany(LetIn(arrivals, c), t => a <= t < a + 60.0) <= 10
  {
    ClientsAreApart(arrivals, c);
    TimesAreSorted(arrivals, c);
    var times := TimesOf(arrivals, c);
    TokenRunIsHealthy(times, if times == [] then 0.0 else times[|times| - 1]);
    CountIsHowMany(TOKEN_POLICY, a, LetIn(arrivals, c), t => a <= t < a + 60.0);
    assert CountIn(TOKEN_POLICY, a, LetIn(arrivals, c)) <= 10;
  }

  /** The next request of a client is let in exactly if fewer than 10 were let in less than a minute before. */
  lemma TokenDecidesExactly(arrivals: seq<Arrival>, c: Client, now: real)
    requires InOrder(arrivals + [Arrival(c, now)])
    ensures LetIn(arrivals + [Arrival(c, now)], c) ==
            if HowMany(LetIn(arrivals, c), t => now - t < 60.0) < 10 then LetIn(arrivals, c) + [now]
            else LetIn(arrivals, c)
  {
    var all := arrivals + [Arrival(c, now)];
    assert all[..|arrivals|] == arrivals;
    assert TimesOf(all, c) == TimesOf(arrivals, c) + [now];
    TimesAreSorted(all, c);
    ClientsAreApart(arrivals, c);
    YoungAccepted(TimesOf(arrivals, c), now);
    YoungIsHowMany(TOKEN_POLICY, now, LetIn(arrivals, c), t => now - t < 60.0);
  }

  /** The arrivals handled by the limiter object, one after the other. */
  method Serve(arrivals: seq<Arrival>) returns (limiter: TokenLimiter)
    ensures fresh(limiter) && limiter.connections == Served(arrivals)
  {
    limiter := new TokenLimiter();
    for i := 0 to |arrivals|
      invariant fresh(limiter) && limiter.connections == Served(arrivals[..i])
    {
      assert arrivals[..i + 1][..i] == arrivals[..i];
      var ok := limiter.HandleOneRequest(arrivals[i].client, arrivals[i].time);
    }
    assert arrivals[..|arrivals|] == arrivals;
  }

  lemma QueueIsSorted(p: Policy, clock: real, accepted: seq<real>, queue: seq<real>)
    requires Healthy(p, clock, accepted, queue)
    ensures Sorted(queue)
  {
    assert forall i :: 0 <= i < |queue| ==> queue[i] == accepted[|accepted| - |queue| + i];
  }
}
