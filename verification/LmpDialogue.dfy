/**
 The whole conversation of the capture module with a device that answers what it is asked: the pages of extended
 features, the name, and the version, which is asked for again until everything else has come in.
 Answers come in any order between the kinds, and other packets at any time.
 */
module LmpDialogue {
  import opened Bytes
  import opened LmpName
  import opened LmpWire

  /** A device has extended feature pages up to maxPage, none if that is 0. */
  datatype Device = Device(name: seq<Byte>, maxPage: Byte)

  /** What the module hears: the answer to the oldest open request of a kind, or a packet that answers none of them. */
  datatype Heard = GotName | GotPage | GotVersion | GotFeatures | GotOther

  /** Next to the name's world: how often the features were asked for, the pages asked for, and the versions. */
  datatype Talk = Talk(world: World, features: nat, pages: seq<Byte>, pageAnswers: nat, versions: nat,
    versionAnswers: nat)

  const SILENCE := Talk(START, 0, [], 0, 0, 0)

  /** A page is answered with its number and the device's highest one. */
  function EventOf(d: Device, t: Talk, h: Heard): Event
    requires h.GotPage? ==> t.pageAnswers < |t.pages|
  {
    match h
    case GotName => NameAnswer
    case GotPage => Arrival(FeaturesResExt(t.pages[t.pageAnswers], d.maxPage))
    case GotVersion => Arrival(VersionRes)
    case GotFeatures => Arrival(FeaturesRes)
    case GotOther => Arrival(OtherPacket)
  }

  predicate Possible(d: Device, t: Talk, h: Heard) {
    && HasName(d.name)
    && (h.GotPage? ==> t.pageAnswers < |t.pages|)
    && (h.GotVersion? ==> t.versionAnswers < t.versions)
    && Enabled(d.name, t.world, EventOf(d, t, h))
  }

  function Next(d: Device, t: Talk, h: Heard): Talk
    requires Possible(d, t, h)
  {
    var request := PreRequest(t.world.state);
    Talk(Step(d.name, t.world, EventOf(d, t, h)),
         if request.FeaturesReq? then t.features + 1 else t.features,
         if request.FeaturesReqExt? then t.pages + [request.page] else t.pages,
         if h.GotPage? then t.pageAnswers + 1 else t.pageAnswers,
         if request.VersionReq? then t.versions + 1 else t.versions,
         if h.GotVersion? then t.versionAnswers + 1 else t.versionAnswers)
  }

  ghost predicate Hears(d: Device, t: Talk, hs: seq<Heard>, t': Talk)
    decreases |hs|
  {
    if hs == [] then t == t' else Possible(d, t, hs[0]) && Hears(d, Next(d, t, hs[0]), hs[1..], t')
  }

  // ---------- What every step keeps ----------

  function Top(d: Device): nat {
    if d.maxPage == 0 then 1 else d.maxPage
  }

  /** The counters of the features and their pages count what was asked and answered. */
  ghost predicate PagesInOrder(d: Device, s: State, features: nat, pages: seq<Byte>, answers: nat) {
    && s.sentFeatures == features <= 1
    && |pages| == s.sentExt <= Top(d) && answers <= |pages|
    && (forall i :: 0 <= i < |pages| ==> pages[i] == i + 1)
    && s.extPage == (if pages == [] then 1 else |pages|)
    && s.recvExt == (if d.maxPage == 0 then 0 else answers)
    && s.maxExtPages == (if answers == 0 then 0 else d.maxPage)
    && (s.mask.featuresExt <==> answers > 0)
    && (pages != [] ==> features == 1)
  }

  /** At most one version request is open, and none once the module is done. */
  ghost predicate VersionsCounted(s: State, versions: nat, answers: nat) {
    && (!s.exited ==> s.sentVersion <= 1 && versions == answers + s.sentVersion)
    && (s.exited ==> versions == answers)
    && (s.mask.version <==> answers > 0)
    && (versions > 0 ==> s.sentFeatures == 1)
  }

  ghost predicate InStep(d: Device, t: Talk)
    requires HasName(d.name)
  {
    && Invariant(d.name, t.world)
    && PagesInOrder(d, t.world.state, t.features, t.pages, t.pageAnswers)
    && VersionsCounted(t.world.state, t.versions, t.versionAnswers)
  }

  lemma SilenceIsInStep(d: Device)
    requires HasName(d.name)
    ensures InStep(d, SILENCE)
  {
    StartIsInvariant(d.name);
  }

  lemma RequestKeepsPages(d: Device, s: State, features: nat, pages: seq<Byte>, answers: nat)
    requires PagesInOrder(d, s, features, pages, answers)
    ensures var request := PreRequest(s);
            PagesInOrder(d, PreState(s), if request.FeaturesReq? then features + 1 else features,
                         if request.FeaturesReqExt? then pages + [request.page] else pages, answers)
  {
  }

  lemma RequestKeepsVersions(s: State, versions: nat, answers: nat)
    requires VersionsCounted(s, versions, answers) && !s.exited && s.sentFeatures <= 1
    ensures VersionsCounted(PreState(s), if PreRequest(s).VersionReq? then versions + 1 else versions, answers)
  {
  }

  lemma PacketKeepsPages(d: Device, s: State, features: nat, pages: seq<Byte>, answers: nat, p: Packet)
    requires PagesInOrder(d, s, features, pages, answers) && Readable(p) && |s.name| == BUFFER_SIZE
    requires p.FeaturesResExt? ==> answers < |pages| && p == FeaturesResExt(pages[answers], d.maxPage)
    ensures PagesInOrder(d, Post(s, p), features, pages, if p.FeaturesResExt? then answers + 1 else answers)
  {
    hide Overwrite, Zeros;
  }

  lemma PacketKeepsVersions(s: State, versions: nat, answers: nat, p: Packet)
    requires VersionsCounted(s, versions, answers) && !s.exited && Readable(p) && |s.name| == BUFFER_SIZE
    requires p.VersionRes? ==> answers < versions
    ensures VersionsCounted(Post(s, p), versions, if p.VersionRes? then answers + 1 else answers)
  {
    hide Overwrite, Zeros;
  }

  lemma FeaturesFrame(s: State, p: Packet)
    requires Readable(p) && |s.name| == BUFFER_SIZE
    ensures PreState(s).name == s.name && PreState(s).exited == s.exited
    ensures Post(PreState(s), p).mask.features <==> s.mask.features || p.FeaturesRes?
  {
    hide Overwrite, Zeros;
  }

  lemma NextKeeps(d: Device, t: Talk, h: Heard)
    requires Possible(d, t, h) && InStep(d, t)
    ensures InStep(d, Next(d, t, h))
    ensures Next(d, t, h).world.answered == t.world.answered + if h.GotName? then 1 else 0
    ensures Next(d, t, h).world.state.mask.features <==> t.world.state.mask.features || h.GotFeatures?
  {
    hide Invariant, VersionsCounted, PreState, PreRequest, Post;
    var e := EventOf(d, t, h);
    var s, p, next := t.world.state, Received(d.name, t.world, e), Next(d, t, h);
    if h.GotName? {
      NameAnswerAdvances(d.name, t.world);
    } else {
      OtherArrivalKeeps(d.name, t.world, e.p);
    }
    FeaturesFrame(s, p);
    RequestKeepsPages(d, s, t.features, t.pages, t.pageAnswers);
    RequestKeepsVersions(s, t.versions, t.versionAnswers);
    PacketKeepsPages(d, PreState(s), next.features, next.pages, t.pageAnswers, p);
    PacketKeepsVersions(PreState(s), next.versions, t.versionAnswers, p);
  }

  // ---------- Whole conversations ----------

  /** A conversation is one up to its last packet, and then that packet. */
  lemma {:induction false} HearsSnoc(d: Device, t: Talk, hs: seq<Heard>, t': Talk) returns (u: Talk)
    requires hs != [] && Hears(d, t, hs, t')
    ensures Hears(d, t, hs[..|hs| - 1], u) && Possible(d, u, hs[|hs| - 1]) && t' == Next(d, u, hs[|hs| - 1])
    decreases |hs|
  {
    hide Possible, Next;
    if |hs| == 1 {
      assert hs[1..] == [];
      u := t;
    } else {
      u := HearsSnoc(d, Next(d, t, hs[0]), hs[1..], t');
      assert hs[..|hs| - 1][1..] == hs[1..][..|hs| - 2];
    }
  }

  /** What the module has when it has heard these packets. */
  lemma {:induction false} HearsKeeps(d: Device, hs: seq<Heard>, t: Talk)
    requires HasName(d.name) && Hears(d, SILENCE, hs, t)
    ensures InStep(d, t)
    ensures t.pageAnswers == multiset(hs)[GotPage] && t.versionAnswers == multiset(hs)[GotVersion]
    ensures t.world.answered == multiset(hs)[GotName] && (t.world.state.mask.features <==> GotFeatures in hs)
    decreases |hs|
  {
    SilenceIsInStep(d);
    if hs == [] {
    } else {
      hide Possible, InStep;
      var u := HearsSnoc(d, SILENCE, hs, t);
      HearsKeeps(d, hs[..|hs| - 1], u);
      NextKeeps(d, u, hs[|hs| - 1]);
      assert hs == hs[..|hs| - 1] + [hs[|hs| - 1]];
    }
  }

  lemma PageStep(d: Device, t: Talk, h: Heard)
    requires Possible(d, t, h) && InStep(d, t)
    ensures |Next(d, t, h).pages| ==
            if t.features == 0 then 0
            else if t.pages == [] then 1
            else if t.pageAnswers > 0 && |t.pages| < d.maxPage then |t.pages| + 1
            else |t.pages|
    ensures Next(d, t, h).features == 1
  {
    hide Invariant, Step, EventOf;
  }

  lemma PageIsOpen(d: Device, t: Talk)
    requires Possible(d, t, GotPage)
    ensures t.pageAnswers < |t.pages|
  {
  }

  /** The first request is for the features; with the second packet the first page is asked for. */
  lemma {:induction false} FirstPage(d: Device, hs: seq<Heard>, t: Talk)
    requires HasName(d.name) && Hears(d, SILENCE, hs, t)
    ensures t.features == if hs == [] then 0 else 1
    ensures GotPage !in hs ==> |t.pages| == if |hs| < 2 then 0 else 1
    decreases |hs|
  {
    if hs == [] {
    } else {
      hide Possible, Next, InStep, Hears;
      var rest, h := hs[..|hs| - 1], hs[|hs| - 1];
      var u := HearsSnoc(d, SILENCE, hs, t);
      FirstPage(d, rest, u);
      NoneAnswered(d, rest, u);
      PageStep(d, u, h);
    }
  }

  lemma NoneAnswered(d: Device, hs: seq<Heard>, t: Talk)
    requires HasName(d.name) && Hears(d, SILENCE, hs, t)
    ensures InStep(d, t) && (t.pageAnswers == 0 <==> GotPage !in hs)
  {
    hide Hears, InStep;
    HearsKeeps(d, hs, t);
    assert GotPage in hs <==> GotPage in multiset(hs);
  }

  /** From the first answer on the pages are asked for one by one, up to the last. */
  lemma {:induction false} FurtherPages(d: Device, hs: seq<Heard>, f: nat, t: Talk)
    requires HasName(d.name) && Hears(d, SILENCE, hs, t)
    requires f < |hs| && hs[f] == GotPage && GotPage !in hs[..f]
    ensures |t.pages| == if |hs| - f < Top(d) then |hs| - f else Top(d)
    decreases |hs|
  {
    hide Possible, Next, InStep, Hears;
    var rest, h := hs[..|hs| - 1], hs[|hs| - 1];
    var u := HearsSnoc(d, SILENCE, hs, t);
    FirstPage(d, rest, u);
    NoneAnswered(d, rest, u);
    PageStep(d, u, h);
    if f < |rest| {
      assert hs[..f] == rest[..f] && rest[f] == GotPage;
      FurtherPages(d, rest, f, u);
    } else {
      assert hs[..f] == rest;
      PageIsOpen(d, u);
    }
  }

  /** The pages asked for are 1, 2, 3, ... up to the device's last one, each once, and page 1 if it has none. */
  lemma PagesAskedExactly(d: Device, hs: seq<Heard>, t: Talk)
    requires HasName(d.name) && Hears(d, SILENCE, hs, t)
    ensures forall i :: 0 <= i < |t.pages| ==> t.pages[i] == i + 1
    ensures GotPage !in hs ==> |t.pages| == if |hs| < 2 then 0 else 1
    ensures forall f :: 0 <= f < |hs| && hs[f] == GotPage && GotPage !in hs[..f] ==>
              |t.pages| == if d.maxPage <= 1 then 1 else if |hs| - f < d.maxPage then |hs| - f else d.maxPage
    ensures t.features == if hs == [] then 0 else 1
  {
    hide Hears, Invariant;
    HearsKeeps(d, hs, t);
    FirstPage(d, hs, t);
    forall f | 0 <= f < |hs| && hs[f] == GotPage && GotPage !in hs[..f]
      ensures |t.pages| == if |hs| - f < Top(d) then |hs| - f else Top(d)
    {
      FurtherPages(d, hs, f, t);
    }
  }

  /** The module ends at a packet exactly if that is a version and everything else has come in. */
  lemma ExitStep(d: Device, t: Talk, h: Heard)
    requires Possible(d, t, h) && InStep(d, t)
    ensures Next(d, t, h).world.state.exited <==>
            && h.GotVersion? && (t.world.state.mask.features || h.GotFeatures?)
            && Next(d, t, h).pageAnswers > 0 && Next(d, t, h).world.answered == PieceCount(|d.name|)
  {
    NextKeeps(d, t, h);
    var s := t.world.state;
    OnlyVersionsExit(s, Received(d.name, t.world, EventOf(d, t, h)));
    NameMask(d.name, Next(d, t, h).world);
    hide Invariant, PreState, PreRequest, Post;
  }

  lemma NameMask(name: seq<Byte>, w: World)
    requires HasName(name) && Invariant(name, w)
    ensures w.state.mask.name <==> w.answered == PieceCount(|name|)
  {
    CollectingIsEarly(name, w);
  }

  lemma OnlyVersionsExit(s: State, p: Packet)
    requires Readable(p) && |s.name| == BUFFER_SIZE && !s.exited
    ensures |PreState(s).name| == BUFFER_SIZE
    ensures Post(PreState(s), p).exited <==> p.VersionRes? && Post(PreState(s), p).mask == Mask(true, true, true, true)
  {
    hide Overwrite, Zeros;
  }

  /** It ends exactly at the version that finds the features, a page and the whole name received, name logged. */
  lemma ExitsExactly(d: Device, hs: seq<Heard>, t: Talk)
    requires HasName(d.name) && Hears(d, SILENCE, hs, t) && hs != []
    ensures t.world.state.exited <==>
            && hs[|hs| - 1] == GotVersion && GotFeatures in hs && GotPage in hs
            && multiset(hs)[GotName] == (|d.name| + 13) / 14
    ensures t.world.state.exited ==> t.world.state.nameLog == [d.name]
  {
    hide Hears, Possible, Next, Invariant;
    var rest, h := hs[..|hs| - 1], hs[|hs| - 1];
    var u := HearsSnoc(d, SILENCE, hs, t);
    HearsKeeps(d, rest, u);
    HearsKeeps(d, hs, t);
    ExitStep(d, u, h);
    assert hs == rest + [h];
    NameMask(d.name, t.world);
    if t.world.state.exited {
      NameIsLogged(d.name, t.world);
    }
  }

  lemma NameIsLogged(name: seq<Byte>, w: World)
    requires HasName(name) && Invariant(name, w) && w.state.mask.name
    ensures w.state.nameLog == [name]
  {
  }

  // ---------- The version ----------

  /** Requests that still go out before the version: the features, the pages and the rest of the name. */
  function Work(d: Device, t: Talk): int {
    (if t.features == 0 then 1 else 0) + (Top(d) - |t.pages|) + (PieceCount(|d.name|) - t.world.state.sentName)
  }

  lemma WorkIsLeft(d: Device, t: Talk)
    requires HasName(d.name) && InStep(d, t)
    ensures 0 <= Work(d, t) <= 1 + Top(d) + PieceCount(|d.name|)
    ensures t.world.state.sentName <= PieceCount(|d.name|) < 11
  {
    hide Overwrite, Zeros;
    CollectingIsEarly(d.name, t.world);
  }

  /** While no version is on its way, each packet sends another request, and in the end that for the version. */
  lemma WorkShrinks(d: Device, t: Talk, h: Heard)
    requires Possible(d, t, h) && InStep(d, t) && t.versions == t.versionAnswers
    ensures var u := Next(d, t, h);
            u.versions == t.versions + 1
            || (u.versions == u.versionAnswers == t.versions && Work(d, u) < Work(d, t))
  {
    hide Invariant, Overwrite, Zeros, Padded;
    WorkIsLeft(d, t);
  }

  lemma {:induction false} VersionsGrow(d: Device, t: Talk, hs: seq<Heard>, t': Talk)
    requires Hears(d, t, hs, t')
    ensures t'.versions >= t.versions
    decreases |hs|
  {
    if hs == [] {
    } else {
      VersionsGrow(d, Next(d, t, hs[0]), hs[1..], t');
    }
  }

  lemma {:induction false} WorkIsDone(d: Device, t: Talk, hs: seq<Heard>, t': Talk)
    requires HasName(d.name) && InStep(d, t) && t.versions == t.versionAnswers
    requires Hears(d, t, hs, t') && |hs| > Work(d, t)
    ensures t'.versions > t.versions
    decreases |hs|
  {
    hide InStep, Possible, Next, Work;
    WorkIsLeft(d, t);
    var u := Next(d, t, hs[0]);
    NextKeeps(d, t, hs[0]);
    WorkShrinks(d, t, hs[0]);
    if u.versions > t.versions {
      VersionsGrow(d, u, hs[1..], t');
    } else {
      WorkIsDone(d, u, hs[1..], t');
    }
  }

  /** At most one version request is open, and while the module goes on another one always follows. */
  lemma VersionIsAskedAgain(d: Device, before: seq<Heard>, t: Talk, after: seq<Heard>, t': Talk)
    requires HasName(d.name) && Hears(d, SILENCE, before, t) && Hears(d, t, after, t')
    ensures t.versionAnswers == multiset(before)[GotVersion] <= t.versions <= t.versionAnswers + 1
    ensures t.versions == t.versionAnswers
            && |after| > 1 + (if d.maxPage == 0 then 1 else d.maxPage) + (|d.name| + 13) / 14 ==>
              t'.versions > t.versions
  {
    hide Hears, Invariant;
    HearsKeeps(d, before, t);
    if t.versions == t.versionAnswers {
      WorkIsLeft(d, t);
      if |after| > Work(d, t) {
        WorkIsDone(d, t, after, t');
      }
    }
  }
}
