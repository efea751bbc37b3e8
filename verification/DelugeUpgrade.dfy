/** What a network of Deluge nodes guarantees about the image that an upgrade delivers. */
module DelugeUpgrade {
  import opened MachineWords
  import opened Deluge

  type Image = seq<seq<Payload>>

  predicate IsImage(image: Image) {
    |image| > 0 && forall p :: 0 <= p < |image| ==> |image[p]| == N_PKT
  }

  /** The node is complete and idle at a version. */
  predicate CompleteAt(n: Node, version: nat, count: nat) {
    && NodeInvariant(n, count)
    && n.version == n.updateVersion == version
    && (forall p :: 0 <= p < count ==> n.pages[p].version == version)
    && n.rx == 0 && n.txSet == {}
    && !n.broadcastProfile && n.receivedSummaries == 0
  }

  /** The start of one upgrade from `v0` to `v1`: no message is in the air, every node is
      complete at one of the two versions, and those at `v1` hold `image`. */
  predicate UpgradeStart(w: Network, v0: nat, v1: nat, image: Image) {
    && IsImage(image) && v0 < v1 && w.air == {}
    && forall i :: 0 <= i < |w.nodes| ==> StartsUpgrade(w.nodes[i], v0, v1, image)
  }

  predicate StartsUpgrade(n: Node, v0: nat, v1: nat, image: Image) {
    CompleteAt(n, v0, |image|) || (CompleteAt(n, v1, |image|) && n.file == image)
  }

  /** A page that a node has completed in version `v1` holds the page of the image. */
  predicate PagesSafe(n: Node, v1: nat, image: Image) {
    |n.pages| == |n.file| == |image|
    && forall p :: 0 <= p < |image| && n.pages[p].complete && n.pages[p].version == v1 ==> n.file[p] == image[p]
  }

  // ---------------------------------------------------------- the invariant

  /** A node during the upgrade. Before its profile arrives it is complete at `v0`; after that
      all its pages are in version `v1`, and what it has received of them is the image's. */
  predicate UpgradingNode(n: Node, v0: nat, v1: nat, image: Image)
    requires IsImage(image)
  {
    && NodeInvariant(n, |image|)
    && (n.updateVersion == v0 || n.updateVersion == v1)
    && (n.version == v0 || n.version == v1)
    && (forall p :: 0 <= p < |image| ==> n.pages[p].version == n.updateVersion)
    && (forall p :: 0 <= p < |image| && n.updateVersion == v1 && n.pages[p].complete ==> n.file[p] == image[p])
    && (forall p :: n.rx < p < |image| && !n.pages[p].complete ==> n.pages[p].packets == {})
    && (n.rx < |image| && !n.pages[n.rx].complete ==>
          forall k :: k in n.pages[n.rx].packets ==> k < N_PKT && n.buffer[k] == image[n.rx][k])
    && (n.version == v0 ==> n.txSet !! ALL_PACKETS)
  }

  /** What can be in the air: packets carry the image, profiles of the new version list it for
      every page, and requests for the old version ask for nothing. */
  predicate UpgradeMessage(m: Message, v0: nat, v1: nat, image: Image)
    requires IsImage(image)
  {
    match m
    case Summary(_, _) => true
    case Request(version, _, bits) => version == v0 ==> bits !! ALL_PACKETS
    case Packet(version, page, number, payload, intact) =>
      intact && version == v1 && page < |image| && number < N_PKT && payload == image[page][number]
    case Profile(version, versions) =>
      |versions| == |image| && (version == v0 || version == v1)
      && (version == v1 ==> forall p :: 0 <= p < |versions| ==> versions[p] == v1)
  }

  predicate UpgradeInvariant(w: Network, v0: nat, v1: nat, image: Image) {
    && IsImage(image) && v0 < v1
    && (forall i :: 0 <= i < |w.nodes| ==> UpgradingNode(w.nodes[i], v0, v1, image))
    && (forall m :: m in w.air ==> UpgradeMessage(m, v0, v1, image))
  }

  lemma InvariantWellFormed(w: Network, v0: nat, v1: nat, image: Image)
    requires UpgradeInvariant(w, v0, v1, image)
    ensures WellFormed(w, |image|)
  {
    forall m | m in w.air ensures Plausible(m, |image|) {
      assert UpgradeMessage(m, v0, v1, image);
    }
  }

  lemma StartsInvariant(w: Network, v0: nat, v1: nat, image: Image)
    requires UpgradeStart(w, v0, v1, image)
    ensures UpgradeInvariant(w, v0, v1, image)
  {
  }

  lemma MessagePlausible(m: Message, v0: nat, v1: nat, image: Image)
    requires IsImage(image) && UpgradeMessage(m, v0, v1, image)
    ensures Plausible(m, |image|)
  {
  }

  lemma PacketKeepsUpgrading(n: Node, m: Message, v0: nat, v1: nat, image: Image)
    requires IsImage(image) && v0 < v1
    requires UpgradingNode(n, v0, v1, image) && UpgradeMessage(m, v0, v1, image) && m.Packet?
    ensures UpgradingNode(HandlePacket(n, m), v0, v1, image)
  {
    var r := HandlePacket(n, m);
    PacketKeepsInvariant(n, m, |image|);
    hide Transition, FinishPage, NodeInvariant;
    NodeSizes(n, v0, v1, image);
    if m.page == n.rx {
      var n1 := if m.version != n.version then n.(inconsistent := true) else n;
      var stored := n1.(buffer := n.buffer[m.number := m.payload]);
      FinishFrame(stored, m.version);
      if m.version == n.pages[n.rx].version && !n.pages[n.rx].complete {
        if n.pages[n.rx].packets + {m.number} != ALL_PACKETS {
          assert r.pages[n.rx].packets == n.pages[n.rx].packets + {m.number};
        } else {
          PageFilled(n, m, image);
        }
      }
    }
  }

  lemma NodeSizes(n: Node, v0: nat, v1: nat, image: Image)
    requires IsImage(image) && UpgradingNode(n, v0, v1, image)
    ensures |n.pages| == |n.file| == |image| && |n.buffer| == N_PKT
  {
  }

  /** The last missing packet makes the page buffer the page of the image. */
  lemma PageFilled(n: Node, m: Message, image: Image)
    requires |n.pages| == |image| && |n.buffer| == N_PKT && IsImage(image) && n.rx < |image|
    requires m.Packet? && m.number < N_PKT && m.payload == image[n.rx][m.number]
    requires forall k :: k in n.pages[n.rx].packets ==> k < N_PKT && n.buffer[k] == image[n.rx][k]
    requires n.pages[n.rx].packets + {m.number} == ALL_PACKETS
    ensures n.buffer[m.number := m.payload] == image[n.rx]
  {
    var b := n.buffer[m.number := m.payload];
    forall k | 0 <= k < N_PKT
      ensures b[k] == image[n.rx][k]
    {
      assert k in ALL_PACKETS;
    }
  }

  lemma ReceiveKeepsUpgrading(n: Node, m: Message, suppressed: bool, v0: nat, v1: nat, image: Image)
    requires IsImage(image) && v0 < v1
    requires UpgradingNode(n, v0, v1, image) && UpgradeMessage(m, v0, v1, image)
    ensures Plausible(m, |image|)
    ensures UpgradingNode(Receive1(n, m, suppressed, |image|), v0, v1, image)
  {
    hide UpgradingNode, NodeInvariant, HandleSummary, HandleRequest, HandlePacket, HandleProfile;
    MessagePlausible(m, v0, v1, image);
    NodeOf(n, v0, v1, image);
    hide UpgradeMessage;
    match m
    case Summary(_, _) => SummaryKeepsUpgrading(n, m, suppressed, v0, v1, image);
    case Request(_, _, _) => RequestKeepsUpgrading(n, m, v0, v1, image);
    case Packet(_, _, _, _, _) => PacketKeepsUpgrading(n, m, v0, v1, image);
    case Profile(_, _) => ProfileKeepsUpgrading(n, m, v0, v1, image);
  }

  lemma NodeOf(n: Node, v0: nat, v1: nat, image: Image)
    requires IsImage(image) && UpgradingNode(n, v0, v1, image)
    ensures NodeInvariant(n, |image|)
  {
    hide NodeInvariant;
  }

  lemma SummaryKeepsUpgrading(n: Node, m: Message, suppressed: bool, v0: nat, v1: nat, image: Image)
    requires IsImage(image) && UpgradingNode(n, v0, v1, image) && m.Summary?
    ensures UpgradingNode(HandleSummary(n, m, suppressed), v0, v1, image)
  {
    TimerFrames(n, v0, v1, image);
    SummaryFrame(n, m, suppressed);
    hide UpgradingNode, NodeInvariant, HandleSummary, SameObject;
    FrameUpgrading(n, HandleSummary(n, m, suppressed), v0, v1, image);
  }

  /** A node of the old version adds no packets to those it sends for a request of the old version. */
  lemma RequestKeepsUpgrading(n: Node, m: Message, v0: nat, v1: nat, image: Image)
    requires IsImage(image) && UpgradingNode(n, v0, v1, image) && UpgradeMessage(m, v0, v1, image) && m.Request?
    ensures UpgradingNode(HandleRequest(n, m), v0, v1, image)
  {
    TimerFrames(n, v0, v1, image);
    RequestFrame(n, m);
    hide UpgradingNode, NodeInvariant, HandleRequest, SameObject;
    FrameUpgrading(n, HandleRequest(n, m), v0, v1, image);
  }

  lemma ProfileKeepsUpgrading(n: Node, m: Message, v0: nat, v1: nat, image: Image)
    requires IsImage(image) && v0 < v1
    requires UpgradingNode(n, v0, v1, image) && UpgradeMessage(m, v0, v1, image) && m.Profile?
    ensures UpgradingNode(HandleProfile(n, m), v0, v1, image)
  {
    ProfileKeepsInvariant(n, m, |image|);
    if m.version > n.updateVersion {
      TransitionFrame(n.(txSet := {}, pages := HandleProfile(n, m).pages, rx := HighestFrom(HandleProfile(n, m).pages, 0),
                         updateVersion := m.version), Receive);
    }
    hide BeginReceive, Transition;
  }

  /** What an upgrading node sends is what the invariant allows in the air. */
  lemma SendsUpgradeMessages(n: Node, v0: nat, v1: nat, image: Image)
    requires IsImage(image) && v0 < v1 && UpgradingNode(n, v0, v1, image)
    ensures n.rx < |image| ==> UpgradeMessage(RequestOf(n), v0, v1, image)
    ensures forall m :: m in PacketsOf(n) ==> UpgradeMessage(m, v0, v1, image)
    ensures UpgradeMessage(ProfileOf(n), v0, v1, image)
  {
  }

  lemma FrameUpgrading(n: Node, r: Node, v0: nat, v1: nat, image: Image)
    requires IsImage(image) && UpgradingNode(n, v0, v1, image) && SameObject(n, r)
    requires r.tx.Some? ==> r.tx.value < |image| || r.txSet == {}
    requires n.version == v0 ==> r.txSet !! ALL_PACKETS
    ensures UpgradingNode(r, v0, v1, image)
  {
    FrameInvariant(n, r, |image|);
  }

  lemma TimersKeepUpgrading(n: Node, v0: nat, v1: nat, image: Image)
    requires IsImage(image) && UpgradingNode(n, v0, v1, image)
    ensures n.rx < |image| ==> n.rx < |n.pages| && UpgradingNode(SendRequest(n), v0, v1, image)
    ensures UpgradingNode(TxCallback(n), v0, v1, image)
    ensures UpgradingNode(SummaryCallback(n), v0, v1, image)
    ensures UpgradingNode(ProfileCallback(n), v0, v1, image)
    ensures UpgradingNode(NewRound(n), v0, v1, image)
    ensures UpgradeMessage(Summary(n.updateVersion, Highest(n)), v0, v1, image)
  {
    TimerFrames(n, v0, v1, image);
    hide UpgradingNode, SameObject;
    if n.rx < |image| {
      FrameUpgrading(n, SendRequest(n), v0, v1, image);
    }
    FrameUpgrading(n, TxCallback(n), v0, v1, image);
    FrameUpgrading(n, SummaryCallback(n), v0, v1, image);
    FrameUpgrading(n, ProfileCallback(n), v0, v1, image);
    FrameUpgrading(n, NewRound(n), v0, v1, image);
  }

  lemma TimerFrames(n: Node, v0: nat, v1: nat, image: Image)
    requires IsImage(image) && UpgradingNode(n, v0, v1, image)
    ensures |n.pages| == |image| && (n.tx.Some? ==> n.tx.value < |image| || n.txSet == {}) && (n.version == v0 ==> n.txSet !! ALL_PACKETS)
    ensures n.rx < |n.pages| ==> SameObject(n, SendRequest(n))
    ensures SameObject(n, TxCallback(n)) && SameObject(n, SummaryCallback(n)) && SameObject(n, ProfileCallback(n))
    ensures SameObject(n, NewRound(n))
  {
  }

  lemma TakeKeepsUpgrade(w: Network, s: Step, v0: nat, v1: nat, image: Image)
    requires UpgradeInvariant(w, v0, v1, image)
    ensures WellFormed(w, |image|) && UpgradeInvariant(Take(w, s, |image|), v0, v1, image)
  {
    hide UpgradingNode, UpgradeMessage, Receive1, PacketsOf, RequestOf, ProfileOf, NodeInvariant, IsImage;
    InvariantWellFormed(w, v0, v1, image);
    if Enabled(w, s) {
      var n := w.nodes[s.node];
      TimersKeepUpgrading(n, v0, v1, image);
      SendsUpgradeMessages(n, v0, v1, image);
      if s.Deliver? {
        assert UpgradeMessage(s.message, v0, v1, image);
        ReceiveKeepsUpgrading(n, s.message, s.suppressed, v0, v1, image);
      }
    }
  }

  lemma {:induction false} RunKeepsUpgrade(w: Network, steps: seq<Step>, v0: nat, v1: nat, image: Image)
    requires UpgradeInvariant(w, v0, v1, image)
    ensures WellFormed(w, |image|) && UpgradeInvariant(Run(w, steps, |image|), v0, v1, image)
    decreases |steps|
  {
    InvariantWellFormed(w, v0, v1, image);
    if steps != [] {
      TakeKeepsUpgrade(w, steps[0], v0, v1, image);
      RunKeepsUpgrade(Take(w, steps[0], |image|), steps[1..], v0, v1, image);
    }
  }

  /** One upgrade is safe: in every run with loss, duplication and reordering, every page that
      any node marks complete in the new version is the source's page, and a node that reports
      the new version holds the whole image. */
  lemma UpgradeIsSafe(w: Network, steps: seq<Step>, v0: nat, v1: nat, image: Image)
    requires UpgradeStart(w, v0, v1, image)
    ensures WellFormed(w, |image|)
    ensures var r := Run(w, steps, |image|);
            forall i :: 0 <= i < |r.nodes| ==>
              && PagesSafe(r.nodes[i], v1, image)
              && (r.nodes[i].version == v1 ==> r.nodes[i].file == image)
  {
    StartsInvariant(w, v0, v1, image);
    RunKeepsUpgrade(w, steps, v0, v1, image);
    var r := Run(w, steps, |image|);
    forall i | 0 <= i < |r.nodes|
      ensures PagesSafe(r.nodes[i], v1, image)
      ensures r.nodes[i].version == v1 ==> r.nodes[i].file == image
    {
      assert UpgradingNode(r.nodes[i], v0, v1, image);
    }
  }
}
