/**
 The capture module `LMP2thprint`: on every packet from the remote device it may send one request
 (`rx_pre_dissection`) and then looks at the packet (`rx_post_dissection`).  The name of the device is asked for
 fragment by fragment; the other requests go out in between.

 Bluetooth Core Specification, Vol 2 Part C, section 4.3.5: LMP_NAME_REQ carries an offset, LMP_NAME_RES answers
 with the same offset, the length of the whole name and 14 bytes of it.
 The experimental requests are never enabled, so they are not part of this model.
 */
module LmpWire {
  import opened Bytes
  import opened LmpName

  const BUFFER_SIZE := 512
  const NAME_DATA_SIZE_MAX := 14

  datatype Packet =
    | FeaturesRes
    | FeaturesResExt(page: Byte, maxPage: Byte)
    | NameRes(offset: Byte, length: Byte, data: seq<Byte>)
    | VersionRes
    | OtherPacket

  datatype Request = NoRequest | FeaturesReq | FeaturesReqExt(page: Byte) | NameReq(offset: Byte) | VersionReq

  /** The response mask `gAllRequiredResponses`. */
  datatype Mask = Mask(features: bool, featuresExt: bool, version: bool, name: bool)

  datatype State = State(
    sentFeatures: Byte, recvFeatures: Byte,
    sentExt: Byte, recvExt: Byte, extPage: Byte, maxExtPages: Byte,
    sentName: Byte, moreNameNeeded: bool, maxOffsetSoFar: nat, name: seq<Byte>,
    sentVersion: Byte, recvVersion: Byte,
    mask: Mask, nameLog: seq<seq<Byte>>, exited: bool)

  function Increment(counter: Byte): Byte {
    (counter + 1) % 256
  }

  function Initial(): State {
    State(0, 0, 0, 0, 1, 0, 0, false, 0, Zeros(BUFFER_SIZE), 0, 0, Mask(false, false, false, false), [], false)
  }

  /** Offsets and lengths below 128 read the same whether `char` is signed or not, and fit the buffer. */
  predicate Readable(p: Packet) {
    p.NameRes? ==>
      p.offset < 128 && p.length < 128 && |p.data| <= 28 && (p.length <= NAME_DATA_SIZE_MAX ==> p.length <= |p.data|)
  }

  function PreState(s: State): State {
    if s.sentFeatures == 0 then s.(sentFeatures := Increment(s.sentFeatures))
    else if s.sentExt == 0 then s.(sentExt := Increment(s.sentExt))
    else if s.recvExt != 0 && s.sentExt < s.maxExtPages then
      s.(extPage := Increment(s.extPage), sentExt := Increment(s.sentExt))
    else if s.sentName == 0 || s.moreNameNeeded then s.(sentName := Increment(s.sentName), moreNameNeeded := false)
    else if s.sentVersion == 0 then s.(sentVersion := Increment(s.sentVersion))
    else s
  }

  function PreRequest(s: State): Request {
    if s.sentFeatures == 0 then FeaturesReq
    else if s.sentExt == 0 then FeaturesReqExt(s.extPage)
    else if s.recvExt != 0 && s.sentExt < s.maxExtPages then FeaturesReqExt(Increment(s.extPage))
    else if s.sentName == 0 || s.moreNameNeeded then NameReq(s.maxOffsetSoFar % 256)
    else if s.sentVersion == 0 then VersionReq
    else NoRequest
  }

  function Overwrite(buffer: seq<Byte>, offset: nat, data: seq<Byte>): seq<Byte>
    requires offset + |data| <= |buffer|
  {
    buffer[..offset] + data + buffer[offset + |data|..]
  }

  function NameDone(s: State, name: seq<Byte>): State {
    s.(nameLog := s.nameLog + [name], maxOffsetSoFar := 0, name := Zeros(BUFFER_SIZE), mask := s.mask.(name := true))
  }

  function Post(s: State, p: Packet): State
    requires Readable(p) && |s.name| == BUFFER_SIZE
  {
    match p
    case FeaturesRes => s.(mask := s.mask.(features := true), recvFeatures := Increment(s.recvFeatures))
    case FeaturesResExt(page, maxPage) =>
      var s1 := s.(mask := s.mask.(featuresExt := true));
      if page > maxPage then s1 else s1.(recvExt := Increment(s.recvExt), maxExtPages := maxPage)
    case NameRes(offset, length, data) =>
      if length <= NAME_DATA_SIZE_MAX then NameDone(s, data[..length])
      else
        var s1 := s.(name := Overwrite(s.name, offset, data));
        if offset + |data| >= length then NameDone(s1, s1.name[..length])
        else s1.(maxOffsetSoFar := offset + |data|, moreNameNeeded := true)
    case VersionRes =>
      var s1 := s.(mask := s.mask.(version := true), recvVersion := Increment(s.recvVersion));
      if s1.mask == Mask(true, true, true, true) then s1.(exited := true) else s1.(sentVersion := 0)
    case OtherPacket => s
  }

  /** The module's global variables. */
  class Module {
    var gSent_LMP_features_req: Byte
    var gRecv_LMP_features_req: Byte
    var gSent_LMP_features_req_ext: Byte
    var gRecv_LMP_features_req_ext: Byte
    var featuresReqExtPage: Byte
    var gMaxExtendedFeaturePages: Byte
    var gSent_LMP_name_req: Byte
    var gMoreNameNeeded: bool
    var gMaxOffsetSoFar: nat
    const gName: array<Byte>
    var gSent_LMP_version_req: Byte
    var gRecv_LMP_version_res: Byte
    var gAllRequiredResponses: Mask
    var logfile: seq<seq<Byte>>
    var exited: bool

    ghost predicate Valid() {
      gName.Length == BUFFER_SIZE
    }

    ghost function View(): State
      reads this, gName
    {
      State(gSent_LMP_features_req, gRecv_LMP_features_req, gSent_LMP_features_req_ext, gRecv_LMP_features_req_ext,
            featuresReqExtPage, gMaxExtendedFeaturePages, gSent_LMP_name_req, gMoreNameNeeded, gMaxOffsetSoFar,
            gName[..], gSent_LMP_version_req, gRecv_LMP_version_res, gAllRequiredResponses, logfile, exited)
    }

    constructor ()
      ensures Valid() && View() == Initial()
    {
      gSent_LMP_features_req, gRecv_LMP_features_req := 0, 0;
      gSent_LMP_features_req_ext, gRecv_LMP_features_req_ext := 0, 0;
      featuresReqExtPage, gMaxExtendedFeaturePages := 1, 0;
      gSent_LMP_name_req, gMoreNameNeeded, gMaxOffsetSoFar := 0, false, 0;
      gName := new Byte[BUFFER_SIZE](_ => 0);
      gSent_LMP_version_req, gRecv_LMP_version_res := 0, 0;
      gAllRequiredResponses, logfile, exited := Mask(false, false, false, false), [], false;
      new;
      assert gName[..] == Zeros(BUFFER_SIZE);
    }

    /** `rx_pre_dissection`: at most one request for each packet that comes in. */
    method RxPreDissection() returns (request: Request)
      requires Valid()
      modifies this
      ensures Valid() && View() == PreState(old(View())) && request == PreRequest(old(View()))
    {
      if gSent_LMP_features_req == 0 {
        request := FeaturesReq;
        gSent_LMP_features_req := Increment(gSent_LMP_features_req);
        return;
      }
      if gSent_LMP_features_req_ext == 0 {
        request := FeaturesReqExt(featuresReqExtPage);
        gSent_LMP_features_req_ext := Increment(gSent_LMP_features_req_ext);
        return;
      }
      if gRecv_LMP_features_req_ext != 0 && gSent_LMP_features_req_ext < gMaxExtendedFeaturePages {
        featuresReqExtPage := Increment(featuresReqExtPage);
        request := FeaturesReqExt(featuresReqExtPage);
        gSent_LMP_features_req_ext := Increment(gSent_LMP_features_req_ext);
        return;
      }
      if gSent_LMP_name_req == 0 || gMoreNameNeeded {
        request := NameReq(gMaxOffsetSoFar % 256);
        gSent_LMP_name_req := Increment(gSent_LMP_name_req);
        gMoreNameNeeded := false;
        return;
      }
      if gSent_LMP_version_req == 0 {
        request := VersionReq;
        gSent_LMP_version_req := Increment(gSent_LMP_version_req);
        return;
      }
      request := NoRequest;
    }

    method ClearName()
      requires Valid()
      modifies gName
      ensures gName[..] == Zeros(BUFFER_SIZE)
    {
      for i := 0 to BUFFER_SIZE
        invariant forall j :: 0 <= j < i ==> gName[j] == 0
      {
        gName[i] := 0;
      }
    }

    method CopyFragment(offset: nat, data: seq<Byte>)
      requires Valid() && offset + |data| <= BUFFER_SIZE
      modifies gName
      ensures gName[..] == Overwrite(old(gName[..]), offset, data)
    {
      var i, j := offset, 0;
      while i < offset + |data|
        invariant offset <= i <= offset + |data| && j == i - offset
        invariant forall k :: 0 <= k < BUFFER_SIZE ==>
                                gName[k] == if offset <= k < i then data[k - offset] else old(gName[k])
      {
        gName[i] := data[j];
        i, j := i + 1, j + 1;
      }
    }

    /** A piece of the name: all of it, or one fragment. */
    method NameArrives(offset: Byte, length: Byte, data: seq<Byte>)
      requires Valid() && Readable(NameRes(offset, length, data))
      modifies this, gName
      ensures Valid() && View() == Post(old(View()), NameRes(offset, length, data))
    {
      if length <= NAME_DATA_SIZE_MAX {
        logfile := logfile + [data[..length]];
        gMaxOffsetSoFar := 0;
        ClearName();
        gAllRequiredResponses := gAllRequiredResponses.(name := true);
      } else {
        CopyFragment(offset, data);
        var end := offset + |data|;
        if end >= length {
          logfile := logfile + [gName[..length]];
          assert gName[..length] == gName[..][..length];
          gMaxOffsetSoFar := 0;
          ClearName();
          gAllRequiredResponses := gAllRequiredResponses.(name := true);
        } else {
          gMaxOffsetSoFar := end;
          gMoreNameNeeded := true;
        }
      }
    }

    /** `rx_post_dissection`. */
    method RxPostDissection(p: Packet)
      requires Valid() && Readable(p)
      modifies this, gName
      ensures Valid() && View() == Post(old(View()), p)
    {
      match p {
        case FeaturesRes =>
          gAllRequiredResponses := gAllRequiredResponses.(features := true);
          gRecv_LMP_features_req := Increment(gRecv_LMP_features_req);
        case FeaturesResExt(page, maxPage) =>
          gAllRequiredResponses := gAllRequiredResponses.(featuresExt := true);
          if page > maxPage {
            return;
          }
          gRecv_LMP_features_req_ext := Increment(gRecv_LMP_features_req_ext);
          gMaxExtendedFeaturePages := maxPage;
        case NameRes(offset, length, data) =>
          NameArrives(offset, length, data);
        case VersionRes =>
          gAllRequiredResponses := gAllRequiredResponses.(version := true);
          gRecv_LMP_version_res := Increment(gRecv_LMP_version_res);
          if gAllRequiredResponses == Mask(true, true, true, true) {
            exited := true;
          } else {
            gSent_LMP_version_req := 0;
          }
        case OtherPacket =>
      }
    }
  }

  // ---------- The module against a device ----------

  /** The module, the offsets it asked for and has no answer to, and how many answers it got. */
  datatype World = World(state: State, asked: seq<nat>, answered: nat)

  /** Arrival: the answer to the oldest name request, or any packet that is not about the name. */
  datatype Event = NameAnswer | Arrival(p: Packet)

  const START := World(Initial(), [], 0)

  predicate HasName(name: seq<Byte>) {
    0 < |name| < 128
  }

  predicate Enabled(name: seq<Byte>, w: World, e: Event) {
    && !w.state.exited
    && |w.state.name| == BUFFER_SIZE
    && match e
       case NameAnswer => w.asked != [] && w.asked[0] <= |name|
       case Arrival(p) => !p.NameRes?
  }

  /** A device answers with the 14 bytes at the offset it was asked for. */
  function Received(name: seq<Byte>, w: World, e: Event): Packet
    requires HasName(name) && Enabled(name, w, e)
  {
    match e
    case NameAnswer => NameRes(w.asked[0], |name|, Padded(name, w.asked[0]))
    case Arrival(p) => p
  }

  function Step(name: seq<Byte>, w: World, e: Event): World
    requires HasName(name) && Enabled(name, w, e)
  {
    var left := if e.NameAnswer? then w.asked[1..] else w.asked;
    var request := PreRequest(w.state);
    World(Post(PreState(w.state), Received(name, w, e)),
          left + (if request.NameReq? then [request.offset] else []),
          if e.NameAnswer? then w.answered + 1 else w.answered)
  }

  /** While the name is incomplete: a correct prefix, and exactly one request out or one request due. */
  ghost predicate Collecting(name: seq<Byte>, w: World)
    requires HasName(name)
  {
    var s := w.state;
    && |s.name| == BUFFER_SIZE
    && OffsetOf(w.answered) < |name|
    && s.maxOffsetSoFar == OffsetOf(w.answered)
    && s.name[..OffsetOf(w.answered)] == name[..OffsetOf(w.answered)]
    && s.nameLog == [] && !s.mask.name && !s.exited
    && s.sentName == w.answered + |w.asked|
    && (w.asked == [] ==> s.moreNameNeeded == (s.sentName != 0))
    && (w.asked != [] ==> w.asked == [OffsetOf(w.answered)] && !s.moreNameNeeded)
  }

  /** Once it is complete: logged exactly once, and nothing more is asked. */
  ghost predicate Complete(name: seq<Byte>, w: World) {
    var s := w.state;
    && s.name == Zeros(BUFFER_SIZE)
    && s.nameLog == [name] && s.mask.name
    && w.answered == PieceCount(|name|) == s.sentName
    && w.asked == [] && !s.moreNameNeeded
  }

  ghost predicate Invariant(name: seq<Byte>, w: World)
    requires HasName(name)
  {
    Collecting(name, w) || Complete(name, w)
  }

  lemma StartIsInvariant(name: seq<Byte>)
    requires HasName(name)
    ensures Invariant(name, START)
  {
  }

  /** Of the name's variables, sending a request only touches those of the name request. */
  lemma RequestFrame(s: State)
    ensures var t, request := PreState(s), PreRequest(s);
            && t == s.(sentFeatures := t.sentFeatures, sentExt := t.sentExt, extPage := t.extPage,
                       sentVersion := t.sentVersion, sentName := t.sentName, moreNameNeeded := t.moreNameNeeded)
            && if request.NameReq? then
                 && (s.sentName == 0 || s.moreNameNeeded) && request.offset == s.maxOffsetSoFar % 256
                 && t.sentName == Increment(s.sentName) && !t.moreNameNeeded
               else
                 t.sentName == s.sentName && t.moreNameNeeded == s.moreNameNeeded
  {
  }

  lemma OtherPacketFrame(s: State, p: Packet)
    requires !p.NameRes? && |s.name| == BUFFER_SIZE
    ensures var t := Post(s, p);
            && t.name == s.name && t.maxOffsetSoFar == s.maxOffsetSoFar && t.nameLog == s.nameLog
            && t.mask.name == s.mask.name && t.sentName == s.sentName && t.moreNameNeeded == s.moreNameNeeded
            && (t.exited ==> s.exited || s.mask.name)
  {
  }

  lemma OtherArrivalKeeps(name: seq<Byte>, w: World, p: Packet)
    requires HasName(name) && Invariant(name, w) && Enabled(name, w, Arrival(p))
    ensures Invariant(name, Step(name, w, Arrival(p)))
    ensures Step(name, w, Arrival(p)).state.nameLog == w.state.nameLog
  {
    hide Zeros, Padded, PreState, PreRequest, Post;
    RequestFrame(w.state);
    OtherPacketFrame(PreState(w.state), p);
  }

  lemma NameAnswerAdvances(name: seq<Byte>, w: World)
    requires HasName(name) && Invariant(name, w) && Enabled(name, w, NameAnswer)
    ensures Invariant(name, Step(name, w, NameAnswer))
    ensures Step(name, w, NameAnswer).answered == w.answered + 1
    ensures Complete(name, Step(name, w, NameAnswer)) <==> w.answered + 1 == PieceCount(|name|)
  {
    var o := OffsetOf(w.answered);
    assert w.asked == [o];
    var s := PreState(w.state);
    var data := Padded(name, o);
    var buffer := Overwrite(s.name, o, data);
    if |name| <= NAME_DATA_SIZE_MAX {
      assert data[..|name|] == name;
    } else if o + 14 >= |name| {
      assert buffer[..|name|] == name;
    } else {
      assert buffer[..o + 14] == name[..o + 14];
    }
  }

  // ---------- Whole runs ----------

  /** The events can happen one after the other from w, and lead to w'. */
  ghost predicate Run(name: seq<Byte>, w: World, events: seq<Event>, w': World)
    requires HasName(name)
    decreases |events|
  {
    if events == [] then w == w'
    else Enabled(name, w, events[0]) && Run(name, Step(name, w, events[0]), events[1..], w')
  }

  function Answers(events: seq<Event>): nat {
    if events == [] then 0 else (if events[0].NameAnswer? then 1 else 0) + Answers(events[1..])
  }

  lemma {:induction false} RunKeeps(name: seq<Byte>, w: World, events: seq<Event>, w': World)
    requires HasName(name) && Invariant(name, w) && Run(name, w, events, w')
    ensures Invariant(name, w') && w'.answered == w.answered + Answers(events)
    decreases |events|
  {
    if events == [] {
    } else {
      match events[0]
      case NameAnswer =>
        NameAnswerAdvances(name, w);
        RunKeeps(name, Step(name, w, NameAnswer), events[1..], w');
      case Arrival(p) =>
        OtherArrivalKeeps(name, w, p);
        RunKeeps(name, Step(name, w, Arrival(p)), events[1..], w');
    }
  }

  /** In every run the name is logged exactly once, whole, with the last of its fragments, and not before. */
  lemma NameIsReassembled(name: seq<Byte>, events: seq<Event>, w: World)
    requires HasName(name) && Run(name, START, events, w)
    ensures Answers(events) <= PieceCount(|name|) && |w.asked| <= 1
    ensures Answers(events) == PieceCount(|name|) ==> w.state.nameLog == [name] && w.asked == []
    ensures Answers(events) < PieceCount(|name|) ==>
              w.state.nameLog == [] && w.state.maxOffsetSoFar == OffsetOf(Answers(events)) <= |name| < |w.state.name|
              && w.state.name[..OffsetOf(Answers(events))] == name[..OffsetOf(Answers(events))]
    ensures w.state.exited ==> w.state.nameLog == [name]
  {
    StartIsInvariant(name);
    RunKeeps(name, START, events, w);
    CollectingIsEarly(name, w);
  }

  lemma CollectingIsEarly(name: seq<Byte>, w: World)
    requires HasName(name) && Invariant(name, w)
    ensures Collecting(name, w) <==> w.answered < PieceCount(|name|)
  {
  }

  /** The name is incomplete and no answer to a request for it is on its way. */
  ghost predicate Due(name: seq<Byte>, w: World)
    requires HasName(name)
  {
    Collecting(name, w) && w.asked == []
  }

  /** Requests that may still go out before the name is asked for again. */
  function Rank(s: State): nat {
    (if s.sentFeatures == 0 then 1 else 0) + (255 - s.sentExt)
  }

  lemma DueMakesProgress(name: seq<Byte>, w: World, p: Packet)
    requires HasName(name) && Due(name, w) && Enabled(name, w, Arrival(p))
    ensures var w' := Step(name, w, Arrival(p));
            if Due(name, w') then Rank(w'.state) < Rank(w.state) else w'.asked == [OffsetOf(w.answered)]
  {
    OtherArrivalKeeps(name, w, p);
  }

  /** No run starves the name: after at most Rank + 1 packets the next fragment has been asked for. */
  lemma {:induction false} NextFragmentIsAsked(name: seq<Byte>, w: World, events: seq<Event>, w': World)
    requires HasName(name) && Due(name, w) && Run(name, w, events, w')
    requires |events| > Rank(w.state)
    ensures exists n, v :: 0 < n <= Rank(w.state) + 1 && Run(name, w, events[..n], v) &&
                v.asked == [OffsetOf(w.answered)]
    decreases |events|
  {
    var e := events[0];
    var p := e.p;
    var v := Step(name, w, e);
    OtherArrivalKeeps(name, w, p);
    DueMakesProgress(name, w, p);
    if Due(name, v) {
      NextFragmentIsAsked(name, v, events[1..], w');
      var n, u :| 0 < n <= Rank(v.state) + 1 && Run(name, v, events[1..][..n], u) && u.asked == [OffsetOf(v.answered)];
      assert events[..n + 1][0] == e && events[..n + 1][1..] == events[1..][..n];
      assert Run(name, w, events[..n + 1], u);
    } else {
      assert events[..1][0] == e && events[..1][1..] == [];
      assert Run(name, v, [], v);
      assert Run(name, w, events[..1], v);
    }
  }

  /** From every reachable state the name can still be completed, by answers and idle packets alone. */
  lemma {:induction false} CanComplete(name: seq<Byte>, w: World) returns (events: seq<Event>, w': World)
    requires HasName(name) && Collecting(name, w)
    ensures Run(name, w, events, w') && Complete(name, w')
    decreases |name| - OffsetOf(w.answered), if w.asked == [] then 1 else 0, Rank(w.state)
  {
    var e := if w.asked == [] then Arrival(OtherPacket) else NameAnswer;
    if w.asked == [] {
      DueMakesProgress(name, w, OtherPacket);
      OtherArrivalKeeps(name, w, OtherPacket);
    } else {
      NameAnswerAdvances(name, w);
    }
    var v := Step(name, w, e);
    if Complete(name, v) {
      events, w' := [e], v;
      assert events[1..] == [] && Run(name, v, [], v);
    } else {
      var rest, end := CanComplete(name, v);
      events, w' := [e] + rest, end;
      assert events[1..] == rest;
    }
  }
}
