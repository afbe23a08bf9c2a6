/**
 Which L2CAP channels carry SDP?  The exporter keeps a set of channel identifiers per connection
 (`g_CIDs_used_for_SDP`), updates it from connection and disconnection packets, and takes a frame for SDP when the
 identifier it is addressed to is in the set.

 Bluetooth Core Specification, Vol 3 Part A, sections 4.2, 4.3 and 4.6: channel identifiers are local to each device.
 A connection request names the sender's, its response adds the responder's or refuses, and a disconnection request
 names both, as seen from the side that sends it.  The set does not know about sides.
 */
module SdpTracker {
  import opened Wrappers

  const PSM_SDP := 1

  /** The four address fields that identify a connection. */
  datatype Connection = Connection(central: string, centralRand: int, peripheral: string, peripheralRand: int)

  datatype Side = Central | Peripheral

  function Other(s: Side): Side {
    if s == Central then Peripheral else Central
  }

  type Id = (Connection, nat)

  datatype Packet =
    | ConnectionReq(conn: Connection, sender: Side, psm: nat, scid: nat)
    | ConnectionRsp(conn: Connection, sender: Side, dcid: nat, scid: nat, result: nat)
    | DisconnectionReq(conn: Connection, sender: Side, dcid: nat, scid: nat)

  /** Results 0 (success) and 1 (pending) give the channel its other end; all others refuse it. */
  predicate Refused(p: Packet) {
    p.ConnectionRsp? && p.result > 1
  }

  // ---------- The tracker ----------

  function Track(ids: set<Id>, p: Packet): set<Id> {
    match p
    case ConnectionReq(c, _, psm, scid) => if psm == PSM_SDP then ids + {(c, scid)} else ids
    case ConnectionRsp(c, _, dcid, scid, _) => if (c, scid) in ids then ids + {(c, dcid)} else ids
    case DisconnectionReq(c, _, dcid, scid) => ids - {(c, dcid)} - {(c, scid)}
  }

  class Tracker {
    var cidsUsedForSdp: set<Id>

    constructor ()
      ensures cidsUsedForSdp == {}
    {
      cidsUsedForSdp := {};
    }

    method InsertCid(conn: Connection, cid: nat)
      modifies this
      ensures cidsUsedForSdp == old(cidsUsedForSdp) + {(conn, cid)}
    {
      cidsUsedForSdp := cidsUsedForSdp + {(conn, cid)};
    }

    method DeleteCid(conn: Connection, cid: nat)
      modifies this
      ensures cidsUsedForSdp == old(cidsUsedForSdp) - {(conn, cid)}
    {
      if (conn, cid) in cidsUsedForSdp {
        cidsUsedForSdp := cidsUsedForSdp - {(conn, cid)};
      }
    }

    method Export(p: Packet)
      modifies this
      ensures cidsUsedForSdp == Track(old(cidsUsedForSdp), p)
    {
      match p {
        case ConnectionReq(conn, _, psm, scid) =>
          if psm == PSM_SDP {
            InsertCid(conn, scid);
          }
        case ConnectionRsp(conn, _, dcid, scid, _) =>
          if (conn, scid) in cidsUsedForSdp {
            InsertCid(conn, dcid);
          }
        case DisconnectionReq(conn, _, dcid, scid) =>
          DeleteCid(conn, dcid);
          DeleteCid(conn, scid);
      }
    }
  }

  /** Packets of one connection never change what is known about another. */
  lemma OtherConnectionsUntouched(ids: set<Id>, p: Packet, c: Connection, cid: nat)
    requires c != p.conn
    ensures (c, cid) in Track(ids, p) <==> (c, cid) in ids
  {
  }

  // ---------- The channels that are really there ----------

  /** One device's end of a channel. */
  datatype End = End(conn: Connection, side: Side, cid: nat)

  /** A channel, kept under the end that asked for it, from its request on. */
  datatype Channel = Channel(dcid: Option<nat>, sdp: bool)

  type Channels = map<End, Channel>

  predicate IsEndOf(cs: Channels, k: End, e: End) {
    k in cs && (e == k || (cs[k].dcid.Some? && e == End(k.conn, Other(k.side), cs[k].dcid.value)))
  }

  /** One of the channel's two ends has this identifier. */
  predicate HasNumber(cs: Channels, k: End, c: Connection, cid: nat) {
    k in cs && k.conn == c && (k.cid == cid || cs[k].dcid == Some(cid))
  }

  /** The identifier belongs to a channel that was asked for as SDP, on whichever side. */
  ghost predicate SdpNumber(cs: Channels, c: Connection, cid: nat) {
    exists k :: HasNumber(cs, k, c, cid) && cs[k].sdp
  }

  /** The channel a packet is about: the one it asks for, answers or ends. */
  function Named(cs: Channels, p: Packet): End {
    match p
    case ConnectionReq(c, sender, _, scid) => End(c, sender, scid)
    case ConnectionRsp(c, sender, _, scid, _) => End(c, Other(sender), scid)
    case DisconnectionReq(c, sender, dcid, scid) =>
      var own := End(c, sender, scid);
      if own in cs && cs[own].dcid == Some(dcid) then own else End(c, Other(sender), dcid)
  }

  function Advance(cs: Channels, p: Packet): Channels {
    var k := Named(cs, p);
    match p
    case ConnectionReq(_, _, psm, _) => cs[k := Channel(None, psm == 1)]
    case ConnectionRsp(_, _, dcid, _, _) =>
      if k !in cs then cs else if Refused(p) then cs - {k} else cs[k := cs[k].(dcid := Some(dcid))]
    case DisconnectionReq(_, _, _, _) => cs - {k}
  }

  /** Ends not in use, responses to open requests, disconnections of open channels. */
  ghost predicate Legal(cs: Channels, p: Packet) {
    var k := Named(cs, p);
    match p
    case ConnectionReq(_, _, _, _) => forall o :: !IsEndOf(cs, o, k)
    case ConnectionRsp(c, sender, dcid, _, _) =>
      k in cs &&
      (!Refused(p) ==>
         && (cs[k].dcid.Some? ==> cs[k].dcid == Some(dcid))
         && forall o :: IsEndOf(cs, o, End(c, sender, dcid)) ==> o == k)
    case DisconnectionReq(_, sender, dcid, scid) =>
      k in cs && cs[k].dcid == Some(if k.side == sender then dcid else scid)
  }

  /** No end belongs to two channels. */
  ghost predicate Separate(cs: Channels) {
    forall k, l, e :: IsEndOf(cs, k, e) && IsEndOf(cs, l, e) ==> k == l
  }

  lemma AdvanceKeepsSeparate(cs: Channels, p: Packet)
    requires Separate(cs) && Legal(cs, p)
    ensures Separate(Advance(cs, p))
  {
    var cs', named := Advance(cs, p), Named(cs, p);
    forall k, l, e | IsEndOf(cs', k, e) && IsEndOf(cs', l, e) ensures k == l {
      match p
      case ConnectionReq(_, _, _, _) =>
        assert k != named ==> IsEndOf(cs, k, e);
        assert l != named ==> IsEndOf(cs, l, e);
      case ConnectionRsp(c, sender, dcid, _, _) =>
        assert IsEndOf(cs, k, e) || (!Refused(p) && k == named && e == End(c, sender, dcid));
        assert IsEndOf(cs, l, e) || (!Refused(p) && l == named && e == End(c, sender, dcid));
      case DisconnectionReq(_, _, _, _) =>
        assert IsEndOf(cs, k, e) && IsEndOf(cs, l, e);
    }
  }

  // ---------- What the tracker knows ----------

  /** The set holds exactly the identifiers of the SDP channels: the most a set without sides can know. */
  ghost predicate Agrees(ids: set<Id>, cs: Channels) {
    forall c, cid: nat :: (c, cid) in ids <==> SdpNumber(cs, c, cid)
  }

  /**
   The packets after which the set still agrees: none that gives a channel the kind of another with the same
   identifier, and none that ends an SDP channel in the set but not in fact, or in fact but not in the set.
   */
  ghost predicate Keeps(cs: Channels, p: Packet) {
    var k, cs' := Named(cs, p), Advance(cs, p);
    match p
    case ConnectionReq(_, _, _, _) => true
    case ConnectionRsp(c, _, dcid, scid, _) =>
      k in cs ==>
        if !Refused(p) then SdpNumber(cs, c, scid) && !cs[k].sdp ==> SdpNumber(cs, c, dcid)
        else
          && (SdpNumber(cs, c, scid) ==> SdpNumber(cs', c, dcid))
          && (cs[k].sdp ==> SdpNumber(cs', c, scid) && (cs[k].dcid.Some? ==> SdpNumber(cs', c, cs[k].dcid.value)))
    case DisconnectionReq(c, _, dcid, scid) => !SdpNumber(cs', c, dcid) && !SdpNumber(cs', c, scid)
  }

  lemma AddedNumbers(cs: Channels, k: End, ch: Channel, c: Connection, cid: nat)
    requires k in cs ==> cs[k].sdp == ch.sdp && (cs[k].dcid.Some? ==> cs[k].dcid == ch.dcid)
    ensures SdpNumber(cs[k := ch], c, cid) <==>
            SdpNumber(cs, c, cid) || (ch.sdp && k.conn == c && (k.cid == cid || ch.dcid == Some(cid)))
  {
    var cs' := cs[k := ch];
    if SdpNumber(cs, c, cid) {
      var l :| HasNumber(cs, l, c, cid) && cs[l].sdp;
      assert HasNumber(cs', l, c, cid) && cs'[l].sdp;
    }
    if SdpNumber(cs', c, cid) {
      var l :| HasNumber(cs', l, c, cid) && cs'[l].sdp;
      assert l != k ==> HasNumber(cs, l, c, cid);
    }
    assert ch.sdp && k.conn == c && (k.cid == cid || ch.dcid == Some(cid)) ==> HasNumber(cs', k, c, cid);
  }

  lemma RemovedNumbers(cs: Channels, k: End, c: Connection, cid: nat)
    requires k in cs
    ensures SdpNumber(cs, c, cid) <==> SdpNumber(cs - {k}, c, cid) || (cs[k].sdp && HasNumber(cs, k, c, cid))
  {
    var cs' := cs - {k};
    if SdpNumber(cs, c, cid) {
      var l :| HasNumber(cs, l, c, cid) && cs[l].sdp;
      assert l != k ==> HasNumber(cs', l, c, cid);
    }
    if SdpNumber(cs', c, cid) {
      var l :| HasNumber(cs', l, c, cid) && cs'[l].sdp;
      assert HasNumber(cs, l, c, cid);
    }
  }

  lemma AddingAgreesExactly(ids: set<Id>, cs: Channels, p: Packet)
    requires Agrees(ids, cs) && Legal(cs, p) && !Refused(p) && !p.DisconnectionReq?
    ensures Agrees(Track(ids, p), Advance(cs, p)) <==> Keeps(cs, p)
  {
    var k, cs' := Named(cs, p), Advance(cs, p);
    hide SdpNumber;
    assert p.ConnectionReq? ==> k !in cs by { assert IsEndOf(cs, k, k) <==> k in cs; }
    forall c, cid: nat ensures SdpNumber(cs', c, cid) <==>
                               SdpNumber(cs, c, cid) ||
                                     (cs'[k].sdp && k.conn == c && (k.cid == cid || cs'[k].dcid == Some(cid))) {
      AddedNumbers(cs, k, cs'[k], c, cid);
    }
    if p.ConnectionRsp? {
      if cs[k].sdp {
        OwnNumbers(cs, k);
      }
      assert (p.conn, p.dcid) in Track(ids, p) <==> SdpNumber(cs, p.conn, p.dcid) || SdpNumber(cs, p.conn, p.scid);
      assert SdpNumber(cs', p.conn, p.dcid) <==> SdpNumber(cs, p.conn, p.dcid) || cs'[k].sdp;
    }
  }

  lemma OwnNumbers(cs: Channels, k: End)
    requires k in cs && cs[k].sdp
    ensures SdpNumber(cs, k.conn, k.cid) && (cs[k].dcid.Some? ==> SdpNumber(cs, k.conn, cs[k].dcid.value))
  {
    assert HasNumber(cs, k, k.conn, k.cid);
    assert cs[k].dcid.Some? ==> HasNumber(cs, k, k.conn, cs[k].dcid.value);
  }

  lemma RemovingAgreesExactly(ids: set<Id>, cs: Channels, p: Packet)
    requires Agrees(ids, cs) && Legal(cs, p) && (Refused(p) || p.DisconnectionReq?)
    ensures Agrees(Track(ids, p), Advance(cs, p)) <==> Keeps(cs, p)
  {
    var k, cs' := Named(cs, p), Advance(cs, p);
    hide SdpNumber;
    forall c, cid: nat ensures SdpNumber(cs, c, cid) <==>
          SdpNumber(cs', c, cid) || (cs[k].sdp && HasNumber(cs, k, c, cid)) {
      RemovedNumbers(cs, k, c, cid);
    }
    if p.DisconnectionReq? {
      assert (p.conn, p.scid) !in Track(ids, p) && (p.conn, p.dcid) !in Track(ids, p);
    } else {
      if cs[k].sdp {
        OwnNumbers(cs, k);
        assert (p.conn, p.scid) in Track(ids, p);
        assert cs[k].dcid.Some? ==> (p.conn, cs[k].dcid.value) in Track(ids, p);
      }
      assert SdpNumber(cs, p.conn, p.scid) ==> (p.conn, p.dcid) in Track(ids, p);
    }
  }

  /** One packet keeps the set in agreement exactly when it is one that Keeps. */
  lemma StepAgreesExactly(ids: set<Id>, cs: Channels, p: Packet)
    requires Agrees(ids, cs) && Legal(cs, p)
    ensures Agrees(Track(ids, p), Advance(cs, p)) <==> Keeps(cs, p)
  {
    if Refused(p) || p.DisconnectionReq? {
      RemovingAgreesExactly(ids, cs, p);
    } else {
      AddingAgreesExactly(ids, cs, p);
    }
  }

  // ---------- Whole traces ----------

  function TrackAll(ps: seq<Packet>): set<Id> {
    if ps == [] then {} else Track(TrackAll(ps[..|ps| - 1]), ps[|ps| - 1])
  }

  function AdvanceAll(ps: seq<Packet>): Channels {
    if ps == [] then map[] else Advance(AdvanceAll(ps[..|ps| - 1]), ps[|ps| - 1])
  }

  ghost predicate LegalTrace(ps: seq<Packet>) {
    ps == [] || (LegalTrace(ps[..|ps| - 1]) && Legal(AdvanceAll(ps[..|ps| - 1]), ps[|ps| - 1]))
  }

  /** The set agrees with the channels after every packet of the trace. */
  ghost predicate AgreesThroughout(ps: seq<Packet>) {
    (ps != [] ==> AgreesThroughout(ps[..|ps| - 1])) && Agrees(TrackAll(ps), AdvanceAll(ps))
  }

  ghost predicate KeepsThroughout(ps: seq<Packet>) {
    ps != [] ==> KeepsThroughout(ps[..|ps| - 1]) && Keeps(AdvanceAll(ps[..|ps| - 1]), ps[|ps| - 1])
  }

  lemma {:induction false} TraceIsSeparate(ps: seq<Packet>)
    requires LegalTrace(ps)
    ensures Separate(AdvanceAll(ps))
  {
    if ps == [] {
    } else {
      TraceIsSeparate(ps[..|ps| - 1]);
      AdvanceKeepsSeparate(AdvanceAll(ps[..|ps| - 1]), ps[|ps| - 1]);
    }
  }

  /** Along a legal trace the set agrees with the channels throughout exactly when every packet Keeps. */
  lemma {:induction false} TrackerIsRightExactly(ps: seq<Packet>)
    requires LegalTrace(ps)
    ensures AgreesThroughout(ps) <==> KeepsThroughout(ps)
  {
    if ps == [] {
      assert forall c, cid: nat :: !SdpNumber(map[], c, cid);
    } else {
      hide Agrees, Keeps, Legal, Track, Advance;
      var rest, p := ps[..|ps| - 1], ps[|ps| - 1];
      TrackerIsRightExactly(rest);
      if AgreesThroughout(rest) {
        AgreesAtEnd(rest);
        StepAgreesExactly(TrackAll(rest), AdvanceAll(rest), p);
      }
    }
  }

  lemma AgreesAtEnd(ps: seq<Packet>)
    requires AgreesThroughout(ps)
    ensures Agrees(TrackAll(ps), AdvanceAll(ps))
  {
  }

  // ---------- What a frame is taken for ----------

  /** Every frame to an end in use is taken for SDP exactly when its channel is one. */
  ghost predicate ClassifiesRight(ids: set<Id>, cs: Channels) {
    forall k, e :: IsEndOf(cs, k, e) ==> ((e.conn, e.cid) in ids <==> cs[k].sdp)
  }

  /** An SDP channel and another one of a connection share an identifier, on opposite sides. */
  ghost predicate Mixed(cs: Channels) {
    exists k: End, l: End, cid: nat :: HasNumber(cs, k, k.conn, cid) && HasNumber(cs, l, k.conn, cid) && cs[k].sdp &&
          !cs[l].sdp
  }

  lemma EndsAreNumbers(cs: Channels, k: End, c: Connection, cid: nat)
    ensures HasNumber(cs, k, c, cid) <==> exists side :: IsEndOf(cs, k, End(c, side, cid))
  {
    if HasNumber(cs, k, c, cid) {
      assert IsEndOf(cs, k, End(c, if k.cid == cid then k.side else Other(k.side), cid));
    }
  }

  /** A set that agrees classifies frames rightly exactly when no identifier is shared by two kinds of channels. */
  lemma ClassificationExactly(ids: set<Id>, cs: Channels)
    requires Agrees(ids, cs)
    ensures ClassifiesRight(ids, cs) <==> !Mixed(cs)
  {
    forall k, c, cid: nat ensures HasNumber(cs, k, c, cid) <==> exists side :: IsEndOf(cs, k, End(c, side, cid)) {
      EndsAreNumbers(cs, k, c, cid);
    }
    if Mixed(cs) {
      var k: End, l: End, cid: nat :| HasNumber(cs, k, k.conn, cid) && HasNumber(cs, l, k.conn, cid) && cs[k].sdp &&
            !cs[l].sdp;
      var side :| IsEndOf(cs, l, End(k.conn, side, cid));
      assert SdpNumber(cs, k.conn, cid);
    } else {
      forall l, e | IsEndOf(cs, l, e) ensures (e.conn, e.cid) in ids <==> cs[l].sdp {
        assert HasNumber(cs, l, e.conn, e.cid);
        if SdpNumber(cs, e.conn, e.cid) {
          var k :| HasNumber(cs, k, e.conn, e.cid) && cs[k].sdp;
          assert HasNumber(cs, k, k.conn, e.cid);
        }
      }
    }
  }

  ghost predicate RightThroughout(ps: seq<Packet>) {
    (ps != [] ==> RightThroughout(ps[..|ps| - 1])) && ClassifiesRight(TrackAll(ps), AdvanceAll(ps))
  }

  ghost predicate NeverMixed(ps: seq<Packet>) {
    (ps != [] ==> NeverMixed(ps[..|ps| - 1])) && !Mixed(AdvanceAll(ps))
  }

  lemma {:induction false} FramesAreRightExactly(ps: seq<Packet>)
    requires LegalTrace(ps) && KeepsThroughout(ps)
    ensures RightThroughout(ps) <==> NeverMixed(ps)
  {
    hide Agrees, ClassifiesRight, Mixed, Keeps, Legal, Track, Advance;
    TrackerIsRightExactly(ps);
    AgreesAtEnd(ps);
    ClassificationExactly(TrackAll(ps), AdvanceAll(ps));
    if ps == [] {
    } else {
      FramesAreRightExactly(ps[..|ps| - 1]);
    }
  }

  // ---------- Identifiers that are not shared ----------

  /** No identifier of a connection is used by two channels, not even on opposite sides. */
  ghost predicate Apart(cs: Channels) {
    forall k: End, l: End, cid: nat :: HasNumber(cs, k, k.conn, cid) && HasNumber(cs, l, k.conn, cid) ==> k == l
  }

  ghost predicate ApartThroughout(ps: seq<Packet>) {
    (ps != [] ==> ApartThroughout(ps[..|ps| - 1])) && Apart(AdvanceAll(ps))
  }

  predicate RefusesSdp(cs: Channels, p: Packet) {
    Refused(p) && Named(cs, p) in cs && cs[Named(cs, p)].sdp
  }

  predicate NoSdpRefused(ps: seq<Packet>) {
    ps != [] ==>
      NoSdpRefused(ps[..|ps| - 1]) && !RefusesSdp(AdvanceAll(ps[..|ps| - 1]), ps[|ps| - 1])
  }

  /** While the channel is there, its identifiers are SDP identifiers exactly if it is one; after it, never. */
  lemma ApartNumbers(cs: Channels, k: End, cid: nat)
    requires Apart(cs) && HasNumber(cs, k, k.conn, cid)
    ensures SdpNumber(cs, k.conn, cid) <==> cs[k].sdp
    ensures !SdpNumber(cs - {k}, k.conn, cid)
  {
    if SdpNumber(cs, k.conn, cid) {
      var l :| HasNumber(cs, l, k.conn, cid) && cs[l].sdp;
      assert l == k;
    }
    if SdpNumber(cs - {k}, k.conn, cid) {
      var l :| HasNumber(cs - {k}, l, k.conn, cid) && (cs - {k})[l].sdp;
      assert HasNumber(cs, l, k.conn, cid);
    }
  }

  lemma ApartKeepsExactly(cs: Channels, p: Packet)
    requires Apart(cs) && Legal(cs, p)
    ensures Keeps(cs, p) <==> !RefusesSdp(cs, p)
  {
    hide SdpNumber, Apart;
    var k := Named(cs, p);
    match p {
      case ConnectionReq(_, _, _, _) =>
      case ConnectionRsp(c, _, _, scid, _) =>
        assert HasNumber(cs, k, k.conn, scid);
        ApartNumbers(cs, k, scid);
      case DisconnectionReq(c, _, dcid, scid) =>
        assert HasNumber(cs, k, k.conn, scid) && HasNumber(cs, k, k.conn, dcid);
        ApartNumbers(cs, k, scid);
        ApartNumbers(cs, k, dcid);
    }
  }

  /** Where identifiers are not shared, a refused SDP request is the one thing that can go wrong. */
  lemma {:induction false} ApartTracesExactly(ps: seq<Packet>)
    requires LegalTrace(ps) && ApartThroughout(ps)
    ensures AgreesThroughout(ps) <==> NoSdpRefused(ps)
    ensures NoSdpRefused(ps) ==> RightThroughout(ps)
  {
    KeepsWhenApart(ps);
    TrackerIsRightExactly(ps);
    if NoSdpRefused(ps) {
      FramesAreRightExactly(ps);
      ApartIsNeverMixed(ps);
    }
  }

  lemma {:induction false} KeepsWhenApart(ps: seq<Packet>)
    requires LegalTrace(ps) && ApartThroughout(ps)
    ensures KeepsThroughout(ps) <==> NoSdpRefused(ps)
  {
    if ps == [] {
    } else {
      var rest := ps[..|ps| - 1];
      hide Keeps, Legal, Apart;
      KeepsWhenApart(rest);
      ApartAtEnd(rest);
      ApartKeepsExactly(AdvanceAll(rest), ps[|ps| - 1]);
    }
  }

  lemma ApartAtEnd(ps: seq<Packet>)
    requires ApartThroughout(ps)
    ensures Apart(AdvanceAll(ps))
  {
  }

  lemma {:induction false} ApartIsNeverMixed(ps: seq<Packet>)
    requires ApartThroughout(ps)
    ensures NeverMixed(ps)
  {
    ApartAtEnd(ps);
    if ps == [] {
    } else {
      ApartIsNeverMixed(ps[..|ps| - 1]);
    }
  }

  // ---------- Identifiers left behind ----------

  /** What refused SDP requests leave in the set: their numbers, and what later answers to those numbers add. */
  function Stale(ps: seq<Packet>): set<Id> {
    if ps == [] then {}
    else
      var before, p := ps[..|ps| - 1], ps[|ps| - 1];
      StaleStep(Stale(before), AdvanceAll(before), p)
  }

  function StaleStep(stale: set<Id>, cs: Channels, p: Packet): set<Id> {
    match p
    case ConnectionReq(_, _, _, _) => stale
    case ConnectionRsp(c, _, dcid, scid, _) =>
      var k := Named(cs, p);
      if k in cs && cs[k].sdp then
        if !Refused(p) then stale
        else stale + {(c, scid), (c, dcid)} + if cs[k].dcid.Some? then {(c, cs[k].dcid.value)} else {}
      else if (c, scid) in stale then stale + {(c, dcid)}
      else stale
    case DisconnectionReq(c, _, dcid, scid) => stale - {(c, dcid), (c, scid)}
  }

  /** The set is the identifiers of the SDP channels and those left behind. */
  ghost predicate Known(ids: set<Id>, cs: Channels, stale: set<Id>) {
    forall c, cid: nat :: (c, cid) in ids <==> SdpNumber(cs, c, cid) || (c, cid) in stale
  }

  lemma StepKnown(ids: set<Id>, cs: Channels, stale: set<Id>, p: Packet)
    requires Apart(cs) && Legal(cs, p) && Known(ids, cs, stale)
    ensures Known(Track(ids, p), Advance(cs, p), StaleStep(stale, cs, p))
  {
    var k, cs' := Named(cs, p), Advance(cs, p);
    hide SdpNumber, Apart;
    if Refused(p) || p.DisconnectionReq? {
      assert HasNumber(cs, k, k.conn, p.scid);
      ApartNumbers(cs, k, p.scid);
      if p.DisconnectionReq? {
        assert HasNumber(cs, k, k.conn, p.dcid);
        ApartNumbers(cs, k, p.dcid);
      }
      forall c, cid: nat ensures SdpNumber(cs, c, cid) <==>
                                 SdpNumber(cs', c, cid) || (cs[k].sdp && HasNumber(cs, k, c, cid)) {
        RemovedNumbers(cs, k, c, cid);
      }
    } else {
      assert p.ConnectionReq? ==> k !in cs by { assert IsEndOf(cs, k, k) <==> k in cs; }
      forall c, cid: nat ensures SdpNumber(cs', c, cid) <==>
                                 SdpNumber(cs, c, cid) ||
                                 (cs'[k].sdp && k.conn == c && (k.cid == cid || cs'[k].dcid == Some(cid))) {
        AddedNumbers(cs, k, cs'[k], c, cid);
      }
      if p.ConnectionRsp? {
        assert HasNumber(cs, k, k.conn, p.scid);
        ApartNumbers(cs, k, p.scid);
      }
    }
  }

  lemma {:induction false} TraceKnown(ps: seq<Packet>)
    requires LegalTrace(ps) && ApartThroughout(ps)
    ensures Known(TrackAll(ps), AdvanceAll(ps), Stale(ps))
  {
    if ps == [] {
      assert forall c, cid: nat :: !SdpNumber(map[], c, cid);
    } else {
      hide Known, Legal, Apart, Track, Advance, StaleStep;
      var before, p := ps[..|ps| - 1], ps[|ps| - 1];
      TraceKnown(before);
      ApartAtEnd(before);
      StepKnown(TrackAll(before), AdvanceAll(before), Stale(before), p);
    }
  }

  /** A channel of another kind uses a number that a refused SDP request left behind. */
  ghost predicate Reuses(cs: Channels, stale: set<Id>) {
    exists k, e :: IsEndOf(cs, k, e) && !cs[k].sdp && (e.conn, e.cid) in stale
  }

  ghost predicate NeverReused(ps: seq<Packet>) {
    (ps != [] ==> NeverReused(ps[..|ps| - 1])) && !Reuses(AdvanceAll(ps), Stale(ps))
  }

  lemma KnownClassifies(ids: set<Id>, cs: Channels, stale: set<Id>)
    requires Apart(cs) && Known(ids, cs, stale)
    ensures ClassifiesRight(ids, cs) <==> !Reuses(cs, stale)
  {
    forall k, e | IsEndOf(cs, k, e)
      ensures (e.conn, e.cid) in ids <==> cs[k].sdp || (e.conn, e.cid) in stale
    {
      assert HasNumber(cs, k, k.conn, e.cid);
      ApartNumbers(cs, k, e.cid);
    }
  }

  /** Where identifiers are not shared, frames go wrong exactly when a number left behind is used again. */
  lemma {:induction false} ApartFramesExactly(ps: seq<Packet>)
    requires LegalTrace(ps) && ApartThroughout(ps)
    ensures RightThroughout(ps) <==> NeverReused(ps)
  {
    hide Known, Legal, Apart, Track, Advance, StaleStep, ClassifiesRight, Reuses;
    TraceKnown(ps);
    ApartAtEnd(ps);
    KnownClassifies(TrackAll(ps), AdvanceAll(ps), Stale(ps));
    if ps == [] {
    } else {
      ApartFramesExactly(ps[..|ps| - 1]);
    }
  }

  // ---------- Two traces where it goes wrong ----------

  lemma TraceSnoc(ps: seq<Packet>, p: Packet)
    ensures TrackAll(ps + [p]) == Track(TrackAll(ps), p) && AdvanceAll(ps + [p]) == Advance(AdvanceAll(ps), p)
    ensures LegalTrace(ps + [p]) <==> LegalTrace(ps) && Legal(AdvanceAll(ps), p)
  {
    assert (ps + [p])[..|ps|] == ps;
  }

  /** A refused SDP request leaves its identifier behind, with no channel at all. */
  lemma RefusedRequestStays(c: Connection, s: nat, d: nat)
    ensures var ps := [ConnectionReq(c, Central, 1, s), ConnectionRsp(c, Peripheral, d, s, 2)];
            LegalTrace(ps) && (c, s) in TrackAll(ps) && AdvanceAll(ps) == map[]
  {
    var req, rsp := ConnectionReq(c, Central, 1, s), ConnectionRsp(c, Peripheral, d, s, 2);
    TraceSnoc([], req);
    TraceSnoc([req], rsp);
    assert [] + [req] == [req] && [req] + [rsp] == [req, rsp];
  }

  /** Each side may use the other's number: the central's second channel is taken for SDP. */
  lemma SharedNumberIsMisclassified(c: Connection, s: nat, t: nat, psm: nat)
    requires s != t && psm != 1
    ensures var ps := [ConnectionReq(c, Central, 1, s), ConnectionRsp(c, Peripheral, t, s, 0),
                       ConnectionReq(c, Central, psm, t)];
            LegalTrace(ps) && !ClassifiesRight(TrackAll(ps), AdvanceAll(ps))
  {
    var a, b, d := ConnectionReq(c, Central, 1, s), ConnectionRsp(c, Peripheral, t, s, 0),
                   ConnectionReq(c, Central, psm, t);
    TraceSnoc([], a);
    TraceSnoc([a], b);
    TraceSnoc([a, b], d);
    assert [] + [a] == [a] && [a] + [b] == [a, b] && [a, b] + [d] == [a, b, d];
    var cs := AdvanceAll([a, b, d]);
    assert IsEndOf(cs, End(c, Central, t), End(c, Central, t)) && !cs[End(c, Central, t)].sdp;
  }
}
