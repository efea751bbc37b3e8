/** An image can spread: from any mixture of older versions there is a run after which every node has the newest
    image, provided the image has no more pages than a signed byte can number. */
module DelugeProgress {
  import opened MachineWords
  import opened Deluge
  import opened DelugeRuns
  import opened DelugeUpgrade
  import opened DelugeOverlap

  /** The largest number of pages that can all be sent. */
  const SENDABLE: nat := 128

  /** The node has the image in version `version`, and nothing to send. */
  predicate Holds(n: Node, version: nat, image: Image) {
    Whole(n, version, |image|) && n.file == image && n.txSet == {} && AllComplete(n)
  }

  predicate AllComplete(n: Node) { forall p :: 0 <= p < |n.pages| ==> n.pages[p].complete }

  /** The node has received the pages of the image below `p`, and wants the others. */
  predicate Receiving(n: Node, p: nat, version: nat, image: Image) {
    && NodeInvariant(n, |image|) && n.rx == p <= |image| && n.updateVersion == version
    && (p == |image| ==> n.version == version) && n.txSet == {}
    && (forall q :: 0 <= q < p ==> n.pages[q] == Page(ALL_PACKETS, true, version) && n.file[q] == image[q])
    && (forall q :: p <= q < |image| ==> n.pages[q] == Page({}, false, version))
  }

  lemma HighestIs(n: Node, p: nat)
    requires p <= |n.pages| && (forall q :: 0 <= q < p ==> n.pages[q].complete) && (p < |n.pages| ==> !n.pages[p].complete)
    ensures Highest(n) == p
  {
  }

  // ----------------------------------------------------- one page, step by step

  /** The receiver hears that the source has more pages. */
  lemma WantsMore(w: Network, to: nat, p: nat, version: nat, image: Image) returns (r: Network)
    requires WellFormed(w, |image|) && to < |w.nodes| && Receiving(w.nodes[to], p, version, image) && p < |image|
    requires Summary(version, |image|) in w.air
    ensures r == Take(w, Deliver(to, Summary(version, |image|), false), |image|) && Only(w, r, to)
    ensures Receiving(r.nodes[to], p, version, image) && r.nodes[to].timers.rx
  {
    var m := Summary(version, |image|);
    r := Take(w, Deliver(to, m, false), |image|);
    DeliverStep(w, to, m, |image|);
    assert |w.nodes[to].pages| == |image|;
    HighestIs(w.nodes[to], p);
    SummaryKeepsInvariant(w.nodes[to], m, false, |image|);
    SummaryFrame(w.nodes[to], m, false);
    hide NodeInvariant, WellFormed, Take, Highest, NoteSummary;
    assert HandleSummary(w.nodes[to], m, false) == BeginReceive(NoteSummary(w.nodes[to], m));
  }

  lemma Asks(w: Network, to: nat, p: nat, version: nat, image: Image) returns (r: Network)
    requires WellFormed(w, |image|) && to < |w.nodes| && Receiving(w.nodes[to], p, version, image) && p < |image|
    requires w.nodes[to].timers.rx
    ensures r == Take(w, RequestTimer(to), |image|) && Only(w, r, to)
    ensures Receiving(r.nodes[to], p, version, image) && Request(version, p, REQUEST_BITS) in r.air
  {
    r := Take(w, RequestTimer(to), |image|);
    RequestStep(w, to, |image|);
    RequestTimerKeeps(w.nodes[to], |image|);
    RequestTimerFrame(w.nodes[to]);
    hide NodeInvariant, WellFormed, Take, SendRequest;
    assert REQUEST_BITS - {} == REQUEST_BITS;
  }

  lemma IsServed(n: Node, p: nat, version: nat, image: Image)
    requires Holds(n, version, image) && p < |image| && p < SENDABLE
    ensures var r := HandleRequest(n, Request(version, p, REQUEST_BITS));
            && Whole(r, version, |image|) && r.file == image && AllComplete(r)
            && r.tx == Some(p) && r.txSet == REQUEST_BITS && r.timers.tx
  {
    HighestIs(n, |image|);
    RequestKeepsInvariant(n, Request(version, p, REQUEST_BITS), |image|);
    RequestFrame(n, Request(version, p, REQUEST_BITS));
    assert {} + REQUEST_BITS == REQUEST_BITS;
    hide NodeInvariant, Highest;
  }

  lemma IsSent(n: Node, p: nat, version: nat, image: Image)
    requires Whole(n, version, |image|) && n.file == image && AllComplete(n)
    requires p < |image| && n.tx == Some(p) && n.txSet == REQUEST_BITS
    ensures Holds(TxCallback(n), version, image) && |image[p]| == N_PKT
    ensures forall k :: 0 <= k < N_PKT ==> Packet(version, p, k, image[p][k], true) in PacketsOf(n)
  {
    TransmitTimerKeeps(n, |image|);
    TimerFrame(n);
    assert |n.pages| == |n.file| == |image| && |n.file[p]| == N_PKT;
    forall k | 0 <= k < N_PKT
      ensures Packet(version, p, k, image[p][k], true) in PacketsOf(n)
    {
      assert k in ALL_PACKETS;
    }
    hide NodeInvariant, Transition, PacketsOf;
  }

  /** The source answers with the packets of the page. */
  lemma Answers(w: Network, from: nat, p: nat, version: nat, image: Image) returns (steps: seq<Step>, r: Network)
    requires WellFormed(w, |image|) && from < |w.nodes| && Holds(w.nodes[from], version, image)
    requires p < |image| && p < SENDABLE && Request(version, p, REQUEST_BITS) in w.air
    ensures Leads(w, steps, r, |image|) && Only(w, r, from) && Holds(r.nodes[from], version, image)
    ensures |image[p]| == N_PKT && forall k :: 0 <= k < N_PKT ==> Packet(version, p, k, image[p][k], true) in r.air
  {
    var m := Request(version, p, REQUEST_BITS);
    var ask := Deliver(from, m, false);
    IsServed(w.nodes[from], p, version, image);
    hide WellFormed, NodeInvariant, Take, Run, Leads, HandleRequest, Holds, Whole, PacketsOf, TxCallback, AllComplete;
    LeadsNowhere(w, |image|);
    LeadsByOne(w, [], w, ask, |image|);
    DeliverStep(w, from, m, |image|);
    var w1 := Take(w, ask, |image|);
    LeadsFormed(w, [] + [ask], w1, |image|);
    LeadsByOne(w, [] + [ask], w1, TransmitTimer(from), |image|);
    TransmitStep(w1, from, |image|);
    IsSent(w1.nodes[from], p, version, image);
    r := Take(w1, TransmitTimer(from), |image|);
    steps := [] + [ask] + [TransmitTimer(from)];
  }

  lemma StartsNext(n: Node, p: nat, version: nat, image: Image)
    requires Receiving(n, p, version, image) && p < |image| && |image[p]| == N_PKT
    ensures PartlyReceived(n, p, version, image[p], 0, |image|)
  {
    assert n.buffer[..0] == image[p][..0];
  }

  lemma NextPage(n: Node, r: Node, p: nat, version: nat, image: Image)
    requires Receiving(n, p, version, image) && p < |image| && PageTaken(n, r, p, version, image[p], |image|)
    ensures Receiving(r, p + 1, version, image)
  {
    hide NodeInvariant;
  }

  /** The receiver hears of a page more and asks for it. */
  lemma AsksForPage(w: Network, from: nat, to: nat, p: nat, version: nat, image: Image)
      returns (steps: seq<Step>, r: Network)
    requires WellFormed(w, |image|) && from < |w.nodes| && to < |w.nodes| && from != to
    requires Holds(w.nodes[from], version, image) && Receiving(w.nodes[to], p, version, image) && p < |image|
    ensures Leads(w, steps, r, |image|) && OnlyTwo(w, r, from, to)
    ensures Holds(r.nodes[from], version, image) && Receiving(r.nodes[to], p, version, image)
    ensures Request(version, p, REQUEST_BITS) in r.air
  {
    SourceAdvertises(w.nodes[from], version, image);
    hide WellFormed, NodeInvariant, Take, Run, Leads, Holds, Receiving, Highest, SameSending;
    var steps1, w1 := Advertises(w, from, |image|);
    LeadsFormed(w, steps1, w1, |image|);
    HoldsFrame(w.nodes[from], w1.nodes[from], version, image);
    var hear := Deliver(to, Summary(version, |image|), false);
    LeadsByOne(w, steps1, w1, hear, |image|);
    var w2 := WantsMore(w1, to, p, version, image);
    LeadsFormed(w, steps1 + [hear], w2, |image|);
    LeadsByOne(w, steps1 + [hear], w2, RequestTimer(to), |image|);
    r := Asks(w2, to, p, version, image);
    steps := steps1 + [hear] + [RequestTimer(to)];
  }

  /** One page more: the receiver asks for it, and is sent it. */
  lemma OnePage(w: Network, from: nat, to: nat, p: nat, version: nat, image: Image)
      returns (steps: seq<Step>, r: Network)
    requires WellFormed(w, |image|) && from < |w.nodes| && to < |w.nodes| && from != to
    requires Holds(w.nodes[from], version, image) && Receiving(w.nodes[to], p, version, image)
    requires p < |image| && p < SENDABLE
    ensures Leads(w, steps, r, |image|) && OnlyTwo(w, r, from, to)
    ensures Holds(r.nodes[from], version, image) && Receiving(r.nodes[to], p + 1, version, image)
  {
    hide WellFormed, NodeInvariant, Take, Run, Leads, Holds, Receiving, PartlyReceived, PageTaken;
    var steps1, w1 := AsksForPage(w, from, to, p, version, image);
    LeadsFormed(w, steps1, w1, |image|);
    var steps2, w2 := Answers(w1, from, p, version, image);
    LeadsFormed(w1, steps2, w2, |image|);
    LeadsTogether(w, steps1, w1, steps2, w2, |image|);
    StartsNext(w2.nodes[to], p, version, image);
    var steps3, w3 := TakesPackets(w2, to, p, version, image[p], 0, |image|);
    LeadsTogether(w, steps1 + steps2, w2, steps3, w3, |image|);
    steps, r := steps1 + steps2 + steps3, w3;
    NextPage(w2.nodes[to], r.nodes[to], p, version, image);
  }

  predicate OnlyTwo(w: Network, r: Network, from: nat, to: nat) {
    |r.nodes| == |w.nodes| && forall j :: 0 <= j < |w.nodes| && j != from && j != to ==> r.nodes[j] == w.nodes[j]
  }

  lemma SourceAdvertises(n: Node, version: nat, image: Image)
    requires Holds(n, version, image)
    ensures n.updateVersion == version && Highest(n) == |image|
  {
    HighestIs(n, |image|);
  }

  lemma HoldsFrame(n: Node, r: Node, version: nat, image: Image)
    requires Holds(n, version, image) && SameSending(n, r)
    ensures Holds(r, version, image)
  {
    WholeFrame(n, r, version, |image|);
    hide Whole;
  }

  // ---------------------------------------------------------------- all pages

  lemma {:induction false} PagesFrom(w: Network, from: nat, to: nat, p: nat, version: nat, image: Image)
      returns (steps: seq<Step>, r: Network)
    requires WellFormed(w, |image|) && from < |w.nodes| && to < |w.nodes| && from != to
    requires Holds(w.nodes[from], version, image) && Receiving(w.nodes[to], p, version, image)
    requires p <= |image| <= SENDABLE
    ensures Leads(w, steps, r, |image|) && OnlyTwo(w, r, from, to)
    ensures Holds(r.nodes[from], version, image) && Holds(r.nodes[to], version, image)
    decreases |image| - p
  {
    if p == |image| {
      LeadsNowhere(w, |image|);
      steps, r := [], w;
      assert w.nodes[to].file == image;
    } else {
      hide WellFormed, Leads, Holds, Receiving;
      var steps1, w1 := OnePage(w, from, to, p, version, image);
      LeadsFormed(w, steps1, w1, |image|);
      var steps2, w2 := PagesFrom(w1, from, to, p + 1, version, image);
      LeadsTogether(w, steps1, w1, steps2, w2, |image|);
      steps, r := steps1 + steps2, w2;
    }
  }

  /** A node of any older version gets the image from a node that has it. */
  lemma Upgrades(w: Network, from: nat, to: nat, version: nat, image: Image) returns (steps: seq<Step>, r: Network)
    requires WellFormed(w, |image|) && IsImage(image) && |image| <= SENDABLE
    requires from < |w.nodes| && to < |w.nodes| && from != to && Holds(w.nodes[from], version, image)
    requires w.nodes[to].version < version && CompleteAt(w.nodes[to], w.nodes[to].version, |image|)
    ensures Leads(w, steps, r, |image|) && OnlyTwo(w, r, from, to)
    ensures Holds(r.nodes[from], version, image) && Holds(r.nodes[to], version, image)
  {
    var v := w.nodes[to].version;
    PagesAt(w.nodes[to], v, |image|);
    HoldsIs(w.nodes[from], version, image);
    hide WellFormed, NodeInvariant, Take, Run, Leads, Holds, Whole, Highest, UniformProfile, CompleteAt, IsImage, SameSending;
    var steps1, w1 := Advertises(w, to, |image|);
    LeadsFormed(w, steps1, w1, |image|);
    SamePages(w.nodes[to], w1.nodes[to]);
    var steps2, w2 := SendsProfile(w1, from, version, v, Highest(w.nodes[to]), |image|);
    LeadsFormed(w1, steps2, w2, |image|);
    LeadsTogether(w, steps1, w1, steps2, w2, |image|);
    HoldsFrame(w1.nodes[from], w2.nodes[from], version, image);
    var hear := Deliver(to, UniformProfile(version, |image|), false);
    var w3 := TakesProfile(w2, to, version, |image|);
    LeadsByOne(w, steps1 + steps2, w2, hear, |image|);
    LeadsFormed(w, steps1 + steps2 + [hear], w3, |image|);
    BeginsAtFirst(w3.nodes[to], version, image);
    var steps4, w4 := PagesFrom(w3, from, to, 0, version, image);
    LeadsTogether(w, steps1 + steps2 + [hear], w3, steps4, w4, |image|);
    steps, r := steps1 + steps2 + [hear] + steps4, w4;
  }

  lemma HoldsIs(n: Node, version: nat, image: Image)
    requires Holds(n, version, image)
    ensures Whole(n, version, |image|)
  {
  }

  lemma SamePages(n: Node, r: Node)
    requires SameSending(n, r)
    ensures r.pages == n.pages && r.version == n.version && r.updateVersion == n.updateVersion
  {
  }

  lemma BeginsAtFirst(n: Node, version: nat, image: Image)
    requires Outdated(n, version, |image|) && n.txSet == {} && |image| > 0
    ensures Receiving(n, 0, version, image)
  {
  }

  // ---------------------------------------------------------------- all nodes

  lemma {:induction false} UpgradesFrom(w: Network, i: nat, from: nat, newest: nat, image: Image)
      returns (steps: seq<Step>, r: Network)
    requires WellFormed(w, |image|) && IsImage(image) && |image| <= SENDABLE && i <= |w.nodes|
    requires from < |w.nodes| && Holds(w.nodes[from], newest, image)
    requires forall j :: 0 <= j < |w.nodes| ==>
      || Holds(w.nodes[j], newest, image)
      || (i <= j && w.nodes[j].version < newest && CompleteAt(w.nodes[j], w.nodes[j].version, |image|))
    ensures Leads(w, steps, r, |image|)
    ensures forall j :: 0 <= j < |w.nodes| ==> Holds(r.nodes[j], newest, image)
    decreases |w.nodes| - i
  {
    hide WellFormed, Leads, Holds, IsImage, CompleteAt, NodeInvariant, Whole;
    if i == |w.nodes| {
      LeadsNowhere(w, |image|);
      steps, r := [], w;
      LeadsFormed(w, [], w, |image|);
    } else if Holds(w.nodes[i], newest, image) {
      steps, r := UpgradesFrom(w, i + 1, from, newest, image);
    } else {
      var steps1, w1 := Upgrades(w, from, i, newest, image);
      LeadsFormed(w, steps1, w1, |image|);
      var steps2, w2 := UpgradesFrom(w1, i + 1, from, newest, image);
      LeadsTogether(w, steps1, w1, steps2, w2, |image|);
      steps, r := steps1 + steps2, w2;
    }
  }

  lemma StartHolds(n: Node, newest: nat, image: Image)
    requires CompleteAt(n, newest, |image|) && n.file == image
    ensures Holds(n, newest, image)
  {
  }

  /** From any mixture of older versions, with a source of the newest image that has at most 128 pages, some run
      gives every node the whole newest image. */
  lemma ImageCanSpread(w: Network, newest: nat, image: Image, source: nat) returns (steps: seq<Step>)
    requires MixedStart(w, newest, image) && source < |w.nodes| && w.nodes[source].version == newest
    requires |image| <= SENDABLE
    ensures WellFormed(w, |image|)
    ensures forall j :: 0 <= j < |w.nodes| ==>
      var n := Run(w, steps, |image|).nodes[j]; n.version == newest && n.file == image && AllComplete(n)
  {
    MixedWellFormed(w, newest, image);
    forall j | 0 <= j < |w.nodes| && w.nodes[j].version == newest
      ensures Holds(w.nodes[j], newest, image)
    {
      StartHolds(w.nodes[j], newest, image);
    }
    var r;
    steps, r := UpgradesFrom(w, 0, source, newest, image);
    hide WellFormed, NodeInvariant, Run;
    LeadsTo(w, steps, r, |image|);
    LeadsFormed(w, steps, r, |image|);
    forall j | 0 <= j < |w.nodes|
      ensures var n := r.nodes[j]; n.version == newest && n.file == image && AllComplete(n)
    {
      assert Holds(r.nodes[j], newest, image);
    }
  }

  // ------------------------------------------------------------- larger images

  /** A node that cannot get past page 128, as it is never sent. */
  predicate Stuck(n: Node, newest: nat)
    requires |n.pages| > SENDABLE
  {
    var page := n.pages[SENDABLE];
    && n.version < newest && n.updateVersion <= newest && page.version <= newest
    && (page.version == newest ==> !page.complete)
    && (n.updateVersion == newest ==> page.version == newest)
  }

  predicate Limited(n: Node, newest: nat, count: nat)
    requires count > SENDABLE
  {
    && NodeInvariant(n, count) && (n.tx.Some? ==> n.tx.value < SENDABLE)
    && n.pages[SENDABLE].version <= newest
    && if n.version == newest then n.updateVersion == newest && n.pages[SENDABLE].version == newest else Stuck(n, newest)
  }

  predicate Unsendable(m: Message, newest: nat, count: nat)
    requires count > SENDABLE
  {
    && Plausible(m, count)
    && (m.Packet? ==> m.page < SENDABLE)
    && (m.Profile? ==> m.version <= newest && m.versions[SENDABLE] <= newest
                       && (m.version == newest ==> m.versions[SENDABLE] == newest))
  }

  lemma PacketLimited(n: Node, m: Message, newest: nat, count: nat)
    requires count > SENDABLE && Limited(n, newest, count) && Unsendable(m, newest, count) && m.Packet?
    ensures Limited(HandlePacket(n, m), newest, count) && HandlePacket(n, m).version == n.version
  {
    PacketKeepsInvariant(n, m, count);
    if m.page == n.rx {
      var n1 := if m.version != n.version then n.(inconsistent := true) else n;
      FinishFrame(n1.(buffer := n.buffer[m.number := m.payload]), m.version);
      hide Transition, FinishPage;
    }
  }

  lemma ProfileLimited(n: Node, m: Message, newest: nat, count: nat)
    requires count > SENDABLE && Limited(n, newest, count) && Unsendable(m, newest, count) && m.Profile?
    ensures Limited(HandleProfile(n, m), newest, count) && HandleProfile(n, m).version == n.version
  {
    ProfileKeepsInvariant(n, m, count);
    hide Transition;
  }

  lemma FrameLimited(n: Node, r: Node, newest: nat, count: nat)
    requires count > SENDABLE && Limited(n, newest, count) && SameObject(n, r) && NodeInvariant(r, count)
    requires r.tx.Some? ==> r.tx.value < SENDABLE
    ensures Limited(r, newest, count) && r.version == n.version
  {
  }

  lemma ReceiveLimited(n: Node, m: Message, suppressed: bool, newest: nat, count: nat)
    requires count > SENDABLE && Limited(n, newest, count) && Unsendable(m, newest, count)
    ensures var r := Receive1(n, m, suppressed, count); Limited(r, newest, count) && r.version == n.version
  {
    ReceiveKeepsInvariant(n, m, suppressed, count);
    if m.Packet? {
      PacketLimited(n, m, newest, count);
    } else if m.Profile? {
      ProfileLimited(n, m, newest, count);
    } else if m.Summary? {
      SummaryFrame(n, m, suppressed);
      hide HandleSummary;
      FrameLimited(n, Receive1(n, m, suppressed, count), newest, count);
    } else {
      RequestFrame(n, m);
      RequestSends(n, m);
      hide HandleRequest;
      FrameLimited(n, Receive1(n, m, suppressed, count), newest, count);
    }
  }

  lemma RequestSends(n: Node, m: Message)
    requires m.Request? && (n.tx.Some? ==> n.tx.value < SENDABLE)
    ensures var r := HandleRequest(n, m); r.tx.Some? ==> r.tx.value < SENDABLE
  {
    hide Highest;
  }

  lemma TimersLimited(n: Node, newest: nat, count: nat)
    requires count > SENDABLE && Limited(n, newest, count)
    ensures n.rx < count ==> n.rx < |n.pages| && Limited(SendRequest(n), newest, count) && Unsendable(RequestOf(n), newest, count)
    ensures Limited(TxCallback(n), newest, count) && Limited(SummaryCallback(n), newest, count)
    ensures Limited(ProfileCallback(n), newest, count) && Limited(NewRound(n), newest, count)
  {
    assert |n.pages| == count;
    TimersKeepInvariant(n, count);
    TimerFrame(n);
    hide TxCallback, SummaryCallback, ProfileCallback, NewRound;
    if n.rx < count {
      RequestTimerFrame(n);
      hide SendRequest;
      FrameLimited(n, SendRequest(n), newest, count);
    }
    FrameLimited(n, TxCallback(n), newest, count);
    FrameLimited(n, SummaryCallback(n), newest, count);
    FrameLimited(n, ProfileCallback(n), newest, count);
    FrameLimited(n, NewRound(n), newest, count);
  }

  lemma SendsUnsendable(n: Node, newest: nat, count: nat)
    requires count > SENDABLE && Limited(n, newest, count)
    ensures forall m :: m in PacketsOf(n) ==> Unsendable(m, newest, count)
    ensures Unsendable(ProfileOf(n), newest, count)
  {
  }

  predicate AllLimited(w: Network, newest: nat, count: nat)
    requires count > SENDABLE
  {
    && (forall j :: 0 <= j < |w.nodes| ==> Limited(w.nodes[j], newest, count))
    && (forall m :: m in w.air ==> Unsendable(m, newest, count))
  }

  lemma TakeLimited(w: Network, s: Step, newest: nat, count: nat)
    requires count > SENDABLE && AllLimited(w, newest, count)
    ensures WellFormed(w, count) && AllLimited(Take(w, s, count), newest, count)
    ensures |Take(w, s, count).nodes| == |w.nodes|
    ensures forall j :: 0 <= j < |w.nodes| ==> Take(w, s, count).nodes[j].version == w.nodes[j].version
  {
    LimitedFormed(w, newest, count);
    if Enabled(w, s) {
      if s.Deliver? {
        hide AllLimited, Limited, Unsendable;
        DeliveryLimited(w, s, newest, count);
      } else {
        hide AllLimited, Limited, Unsendable;
        TimerLimited(w, s, newest, count);
      }
    }
  }

  lemma TimerLimited(w: Network, s: Step, newest: nat, count: nat)
    requires count > SENDABLE && AllLimited(w, newest, count) && WellFormed(w, count) && Enabled(w, s) && !s.Deliver?
    ensures AllLimited(Take(w, s, count), newest, count) && |Take(w, s, count).nodes| == |w.nodes|
    ensures forall j :: 0 <= j < |w.nodes| ==> Take(w, s, count).nodes[j].version == w.nodes[j].version
  {
    var n := w.nodes[s.node];
    hide Limited, Unsendable, PacketsOf, RequestOf, ProfileOf, NodeInvariant;
    VersionsKept(n);
    TimersLimited(n, newest, count);
    SendsUnsendable(n, newest, count);
    hide SendRequest, TxCallback, SummaryCallback, ProfileCallback, NewRound;
  }

  lemma DeliveryLimited(w: Network, s: Step, newest: nat, count: nat)
    requires count > SENDABLE && AllLimited(w, newest, count) && WellFormed(w, count) && Enabled(w, s) && s.Deliver?
    ensures AllLimited(Take(w, s, count), newest, count) && |Take(w, s, count).nodes| == |w.nodes|
    ensures forall j :: 0 <= j < |w.nodes| ==> Take(w, s, count).nodes[j].version == w.nodes[j].version
  {
    hide Limited, Unsendable, Receive1, NodeInvariant;
    ReceiveLimited(w.nodes[s.node], s.message, s.suppressed, newest, count);
  }

  lemma VersionsKept(n: Node)
    ensures n.rx < |n.pages| ==> SendRequest(n).version == n.version
    ensures TxCallback(n).version == SummaryCallback(n).version == ProfileCallback(n).version == NewRound(n).version == n.version
  {
  }

  lemma LimitedFormed(w: Network, newest: nat, count: nat)
    requires count > SENDABLE && AllLimited(w, newest, count)
    ensures WellFormed(w, count)
  {
  }

  lemma {:induction false} RunLimited(w: Network, steps: seq<Step>, newest: nat, count: nat)
    requires count > SENDABLE && AllLimited(w, newest, count)
    ensures WellFormed(w, count)
    ensures forall j :: 0 <= j < |w.nodes| ==> Run(w, steps, count).nodes[j].version == w.nodes[j].version
    decreases |steps|
  {
    LimitedFormed(w, newest, count);
    if steps != [] {
      TakeLimited(w, steps[0], newest, count);
      hide AllLimited, Take, WellFormed;
      RunLimited(Take(w, steps[0], count), steps[1..], newest, count);
    }
  }

  lemma StartLimited(w: Network, newest: nat, image: Image)
    requires MixedStart(w, newest, image) && |image| > SENDABLE
    requires forall j :: 0 <= j < |w.nodes| && w.nodes[j].tx.Some? ==> w.nodes[j].tx.value < SENDABLE
    ensures AllLimited(w, newest, |image|)
  {
    forall j | 0 <= j < |w.nodes|
      ensures Limited(w.nodes[j], newest, |image|)
    {
      var n := w.nodes[j];
      PagesAt(n, n.version, |image|);
      assert NodeInvariant(n, |image|);
      hide NodeInvariant;
    }
  }

  /** Every node has the newest image. */
  ghost predicate AllHave(w: Network, newest: nat, image: Image) {
    forall j :: 0 <= j < |w.nodes| ==> w.nodes[j].version == newest && w.nodes[j].file == image && AllComplete(w.nodes[j])
  }

  /** From any mixture of older versions and a source: some run gives every node the whole newest image exactly when the
      image has at most 128 pages, or there is no older node. */
  lemma SpreadsUpTo128Pages(w: Network, newest: nat, image: Image, source: nat)
    requires MixedStart(w, newest, image) && source < |w.nodes| && w.nodes[source].version == newest
    requires forall j :: 0 <= j < |w.nodes| && w.nodes[j].tx.Some? ==> w.nodes[j].tx.value < SENDABLE
    ensures WellFormed(w, |image|)
    ensures (exists steps: seq<Step> :: AllHave(Run(w, steps, |image|), newest, image))
            <==> |image| <= 128 || forall j :: 0 <= j < |w.nodes| ==> w.nodes[j].version == newest
  {
    MixedWellFormed(w, newest, image);
    if |image| <= 128 {
      var steps := ImageCanSpread(w, newest, image, source);
      assert AllHave(Run(w, steps, |image|), newest, image);
    } else if forall j :: 0 <= j < |w.nodes| ==> w.nodes[j].version == newest {
      AlreadyHave(w, newest, image);
      assert Run(w, [], |image|) == w;
      assert AllHave(Run(w, [], |image|), newest, image);
    } else {
      StartLimited(w, newest, image);
      forall steps: seq<Step>
        ensures !AllHave(Run(w, steps, |image|), newest, image)
      {
        RunLimited(w, steps, newest, |image|);
      }
    }
  }

  lemma AlreadyHave(w: Network, newest: nat, image: Image)
    requires MixedStart(w, newest, image) && forall j :: 0 <= j < |w.nodes| ==> w.nodes[j].version == newest
    ensures AllHave(w, newest, image)
  {
    forall j | 0 <= j < |w.nodes|
      ensures AllComplete(w.nodes[j])
    {
      StartHolds(w.nodes[j], newest, image);
      hide CompleteAt;
    }
  }

  /** Objects as they are initialised, of an image in the newest version and of others in older ones, are such a mixture. */
  lemma ObjectsAreMixed(newest: nat, image: Image, others: seq<(nat, Image)>, buffer: seq<Payload>)
    requires IsImage(image) && newest > 0 && |buffer| == N_PKT
    requires forall i :: 0 <= i < |others| ==>
      others[i].0 < newest && |others[i].1| == |image| && IsImage(others[i].1) && others[i].1[0] != image[0]
    ensures var nodes := [InitObject(newest, image, buffer)]
              + seq(|others|, i requires 0 <= i < |others| => InitObject(others[i].0, others[i].1, buffer));
            && MixedStart(Network(nodes, {}), newest, image) && nodes[0].version == newest
            && forall j :: 0 <= j < |nodes| && nodes[j].tx.Some? ==> nodes[j].tx.value < SENDABLE
  {
    ObjectIsComplete(newest, image, buffer);
    forall i | 0 <= i < |others|
      ensures CompleteAt(InitObject(others[i].0, others[i].1, buffer), others[i].0, |image|)
    {
      ObjectIsComplete(others[i].0, others[i].1, buffer);
    }
    hide CompleteAt;
  }

  lemma ObjectIsComplete(version: nat, image: Image, buffer: seq<Payload>)
    requires IsImage(image) && |buffer| == N_PKT
    ensures CompleteAt(InitObject(version, image, buffer), version, |image|)
  {
    ObjectStartsInvariant(version, image, buffer);
    hide NodeInvariant;
  }
}
