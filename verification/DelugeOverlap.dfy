/** Why one upgrade at a time: with three versions in the network, a node that is complete in
    the middle one and has begun to receive the newest one still answers requests for the
    middle one, and labels its old data with the newest version. */
module DelugeOverlap {
  import opened MachineWords
  import opened Deluge
  import opened DelugeUpgrade
  import opened DelugeRuns

  /** A node that has begun to receive `version` but reports an older one serves the first page
      to a request for the older version. */
  lemma ServesOldRequest(n: Node, version: nat, count: nat)
    requires Outdated(n, version, count) && count > 0 && n.txSet == {}
    ensures var r := HandleRequest(n, Request(n.version, 0, REQUEST_BITS));
            SameObject(n, r) && r.tx == Some(0) && r.txSet == REQUEST_BITS && r.timers.tx && NodeInvariant(r, count)
  {
    RequestKeepsInvariant(n, Request(n.version, 0, REQUEST_BITS), count);
  }

  /** The packets it sends carry its old data under the new version. */
  lemma SendsOldData(n: Node, version: nat, data: seq<Payload>, count: nat)
    requires NodeInvariant(n, count) && count > 0 && n.tx == Some(0) && n.txSet == REQUEST_BITS
    requires |n.pages| == |n.file| == count && n.pages[0].version == version && n.file[0] == data && |data| == N_PKT
    ensures forall k :: 0 <= k < N_PKT ==> Packet(version, 0, k, data[k], true) in PacketsOf(n)
  {
    forall k | 0 <= k < N_PKT
      ensures Packet(version, 0, k, data[k], true) in PacketsOf(n)
    {
      assert k in ALL_PACKETS;
    }
  }

  /** The oldest node takes up the middle version and asks for its first page. */
  lemma TakesUpMiddle(w: Network, a: nat, b: nat, va: nat, vb: nat, count: nat) returns (steps: seq<Step>, r: Network)
    requires WellFormed(w, count) && a < |w.nodes| && b < |w.nodes| && a != b && va < vb && count > 0
    requires CompleteAt(w.nodes[a], va, count) && CompleteAt(w.nodes[b], vb, count)
    ensures Leads(w, steps, r, count) && SameSending(w.nodes[b], r.nodes[b])
    ensures OutdatedObject(r.nodes[a], vb, count) && Request(vb, 0, REQUEST_BITS) in r.air
    ensures forall j :: 0 <= j < |w.nodes| && j != a && j != b ==> r.nodes[j] == w.nodes[j]
  {
    PagesAt(w.nodes[a], va, count);
    CompleteIsWhole(w.nodes[b], vb, count);
    hide Take, Run, Leads, WellFormed, NodeInvariant, Highest, UniformProfile, CompleteAt, Whole, Outdated, OutdatedObject;
    var steps1, w1 := Advertises(w, a, count);
    LeadsFormed(w, steps1, w1, count);
    var steps2, w2 := SendsProfile(w1, b, vb, va, Highest(w.nodes[a]), count);
    LeadsFormed(w1, steps2, w2, count);
    LeadsTogether(w, steps1, w1, steps2, w2, count);
    var hear := Deliver(a, UniformProfile(vb, count), false);
    var w3 := TakesProfile(w2, a, vb, count);
    LeadsByOne(w, steps1 + steps2, w2, hear, count);
    steps := steps1 + steps2 + [hear];
    LeadsFormed(w, steps, w3, count);
    LeadsByOne(w, steps, w3, RequestTimer(a), count);
    r := SendsRequest(w3, a, vb, count);
    steps := steps + [RequestTimer(a)];
    LeadsFormed(w, steps, r, count);
  }

  /** First half of the unsafe run: the oldest node asks for the middle version; then the profile of the newest
      version is broadcast. */
  lemma RequestsMiddleVersion(w: Network, a: nat, b: nat, c: nat, va: nat, vb: nat, vc: nat, count: nat)
      returns (steps: seq<Step>, r: Network)
    requires WellFormed(w, count) && a < |w.nodes| && b < |w.nodes| && c < |w.nodes| && a != b && b != c && a != c
    requires va < vb < vc && count > 0
    requires CompleteAt(w.nodes[a], va, count) && CompleteAt(w.nodes[b], vb, count) && CompleteAt(w.nodes[c], vc, count)
    ensures Leads(w, steps, r, count)
    ensures OutdatedObject(r.nodes[a], vb, count) && SameSending(w.nodes[b], r.nodes[b])
    ensures Request(vb, 0, REQUEST_BITS) in r.air && UniformProfile(vc, count) in r.air
  {
    PagesAt(w.nodes[b], vb, count);
    CompleteIsWhole(w.nodes[c], vc, count);
    hide Take, Run, Leads, WellFormed, NodeInvariant, Highest, UniformProfile, CompleteAt, Whole, OutdatedObject;
    var steps1, w1 := TakesUpMiddle(w, a, b, va, vb, count);
    LeadsFormed(w, steps1, w1, count);
    var steps2, w2 := Advertises(w1, b, count);
    LeadsFormed(w1, steps2, w2, count);
    LeadsTogether(w, steps1, w1, steps2, w2, count);
    var steps3, w3 := SendsProfile(w2, c, vc, vb, Highest(w1.nodes[b]), count);
    LeadsTogether(w, steps1 + steps2, w2, steps3, w3, count);
    steps, r := steps1 + steps2 + steps3, w3;
  }

  lemma PagesAt(n: Node, version: nat, count: nat)
    requires CompleteAt(n, version, count)
    ensures n.updateVersion == version && |n.pages| == count && forall p :: 0 <= p < count ==> n.pages[p].version == version
  {
  }

  lemma CompleteIsWhole(n: Node, version: nat, count: nat)
    requires CompleteAt(n, version, count)
    ensures Whole(n, version, count)
  {
    hide NodeInvariant;
  }

  lemma WholeIs(n: Node, version: nat, count: nat)
    requires Whole(n, version, count)
    ensures n.version == n.updateVersion == version && |n.pages| == |n.file| == count
    ensures forall p :: 0 <= p < count ==> n.pages[p].version == version
  {
  }

  lemma SendsRequest(w: Network, i: nat, version: nat, count: nat) returns (r: Network)
    requires WellFormed(w, count) && i < |w.nodes| && Outdated(w.nodes[i], version, count) && count > 0
    ensures r == Take(w, RequestTimer(i), count) && Only(w, r, i)
    ensures OutdatedObject(r.nodes[i], version, count) && r.nodes[i].version == w.nodes[i].version
    ensures Request(version, 0, REQUEST_BITS) in r.air
  {
    r := Take(w, RequestTimer(i), count);
    RequestStep(w, i, count);
    RequestTimerKeeps(w.nodes[i], count);
    RequestTimerFrame(w.nodes[i]);
    hide WellFormed, NodeInvariant, Take, SendRequest;
    assert REQUEST_BITS - {} == REQUEST_BITS;
  }

  /** All pages are wanted in version `version`. */
  predicate OutdatedObject(n: Node, version: nat, count: nat) {
    && NodeInvariant(n, count) && n.rx == 0 && n.updateVersion == version
    && forall p :: 0 <= p < count ==> n.pages[p] == Page({}, false, version)
  }

  /** Overlapping upgrades are unsafe: whenever nodes are complete at three different versions,
      there is a run, without any damaged packet, after which the oldest node marks its first
      page complete in the newest version although it holds the page of the middle version. */
  lemma OverlapIsUnsafe(w: Network, a: nat, b: nat, c: nat, va: nat, vb: nat, vc: nat, count: nat)
      returns (steps: seq<Step>)
    requires WellFormed(w, count) && a < |w.nodes| && b < |w.nodes| && c < |w.nodes| && a != b && b != c && a != c
    requires va < vb < vc && count > 0
    requires CompleteAt(w.nodes[a], va, count) && CompleteAt(w.nodes[b], vb, count) && CompleteAt(w.nodes[c], vc, count)
    ensures var r := Run(w, steps, count).nodes[a];
            r.pages[0] == Page(ALL_PACKETS, true, vc) && r.file[0] == w.nodes[b].file[0]
  {
    CompleteIsWhole(w.nodes[b], vb, count);
    WholeIs(w.nodes[b], vb, count);
    var data := w.nodes[b].file[0];
    hide Take, Leads, WellFormed, NodeInvariant, Highest, UniformProfile, CompleteAt, Whole, ServeRequest;
    var steps1, w1 := RequestsMiddleVersion(w, a, b, c, va, vb, vc, count);
    LeadsFormed(w, steps1, w1, count);
    var hearB, hearA := Deliver(b, UniformProfile(vc, count), false), Deliver(a, UniformProfile(vc, count), false);
    LeadsByOne(w, steps1, w1, hearB, count);
    var w2 := TakesProfile(w1, b, vc, count);
    LeadsFormed(w, steps1 + [hearB], w2, count);
    LeadsByOne(w, steps1 + [hearB], w2, hearA, count);
    var w3 := TakesProfile(w2, a, vc, count);
    steps := steps1 + [hearB] + [hearA];
    LeadsFormed(w, steps, w3, count);
    StartsPage(w3.nodes[a], vc, data, count);
    var steps4, w4 := ServesOldData(w3, b, vb, vc, data, count);
    LeadsTogether(w, steps, w3, steps4, w4, count);
    LeadsFormed(w3, steps4, w4, count);
    var steps5, w5 := TakesPackets(w4, a, 0, vc, data, 0, count);
    LeadsTogether(w, steps + steps4, w4, steps5, w5, count);
    steps := steps + steps4 + steps5;
    LeadsTo(w, steps, w5, count);
  }

  lemma LeadsTo(w: Network, steps: seq<Step>, r: Network, count: nat)
    requires Leads(w, steps, r, count)
    ensures WellFormed(w, count) && Run(w, steps, count) == r
  {
  }

  lemma StartsPage(n: Node, version: nat, data: seq<Payload>, count: nat)
    requires Outdated(n, version, count) && count > 0 && |data| == N_PKT
    ensures PartlyReceived(n, 0, version, data, 0, count)
  {
    assert n.buffer[..0] == data[..0];
  }

  /** The middle node answers the request and puts its old data into the air. */
  lemma ServesOldData(w: Network, b: nat, vb: nat, vc: nat, data: seq<Payload>, count: nat)
      returns (steps: seq<Step>, r: Network)
    requires WellFormed(w, count) && b < |w.nodes| && count > 0
    requires Outdated(w.nodes[b], vc, count) && w.nodes[b].version == vb && w.nodes[b].txSet == {}
    requires 0 < |w.nodes[b].file| && w.nodes[b].file[0] == data && |data| == N_PKT
    requires Request(vb, 0, REQUEST_BITS) in w.air
    ensures Leads(w, steps, r, count) && Only(w, r, b)
    ensures forall k :: 0 <= k < N_PKT ==> Packet(vc, 0, k, data[k], true) in r.air
  {
    var m := Request(vb, 0, REQUEST_BITS);
    var ask := Deliver(b, m, false);
    ServesOldRequest(w.nodes[b], vc, count);
    OutdatedPages(w.nodes[b], vc, count);
    hide WellFormed, NodeInvariant, Take, Run, Leads, HandleRequest, Outdated, PacketsOf, TxCallback;
    LeadsNowhere(w, count);
    LeadsByOne(w, [], w, ask, count);
    DeliverStep(w, b, m, count);
    var w1 := Take(w, ask, count);
    LeadsFormed(w, [] + [ask], w1, count);
    LeadsByOne(w, [] + [ask], w1, TransmitTimer(b), count);
    TransmitStep(w1, b, count);
    r := Take(w1, TransmitTimer(b), count);
    steps := [] + [ask] + [TransmitTimer(b)];
    SendsOldData(w1.nodes[b], vc, data, count);
  }

  lemma OutdatedPages(n: Node, version: nat, count: nat)
    requires Outdated(n, version, count) && count > 0
    ensures |n.pages| == |n.file| == count && n.pages[0].version == version
  {
  }

  /** Nodes that are all complete and idle, the newest of them holding `image` in version
      `newest`, which no older node has as its first page. */
  predicate MixedStart(w: Network, newest: nat, image: Image) {
    && IsImage(image) && newest > 0 && w.air == {}
    && forall i :: 0 <= i < |w.nodes| ==>
         var n := w.nodes[i];
         && CompleteAt(n, n.version, |image|) && n.version <= newest
         && (if n.version == newest then n.file == image else n.file[0] != image[0])
  }

  predicate OneOlderVersion(w: Network, newest: nat) {
    forall i, j :: 0 <= i < |w.nodes| && 0 <= j < |w.nodes| && w.nodes[i].version < newest && w.nodes[j].version < newest
                   ==> w.nodes[i].version == w.nodes[j].version
  }

  ghost predicate AlwaysSafe(w: Network, newest: nat, image: Image)
    requires WellFormed(w, |image|)
  {
    forall steps: seq<Step>, i :: 0 <= i < |w.nodes| ==> PagesSafe(Run(w, steps, |image|).nodes[i], newest, image)
  }

  lemma MixedWellFormed(w: Network, newest: nat, image: Image)
    requires MixedStart(w, newest, image)
    ensures WellFormed(w, |image|)
  {
  }

  /** The newest image spreads safely in every run exactly when all other nodes start in one
      and the same older version. */
  lemma SafeExactlyForOneUpgrade(w: Network, newest: nat, image: Image, source: nat)
    requires MixedStart(w, newest, image)
    requires source < |w.nodes| && w.nodes[source].version == newest
    ensures WellFormed(w, |image|)
    ensures AlwaysSafe(w, newest, image) <==> OneOlderVersion(w, newest)
  {
    MixedWellFormed(w, newest, image);
    if OneOlderVersion(w, newest) {
      var v0 := OlderVersion(w, newest);
      forall steps: seq<Step>, i | 0 <= i < |w.nodes|
        ensures PagesSafe(Run(w, steps, |image|).nodes[i], newest, image)
      {
        MixedIsUpgrade(w, v0, newest, image);
        UpgradeIsSafe(w, steps, v0, newest, image);
      }
    } else {
      var i, j :| 0 <= i < |w.nodes| && 0 <= j < |w.nodes| && w.nodes[i].version < w.nodes[j].version < newest;
      var steps := OverlapIsUnsafe(w, i, j, source, w.nodes[i].version, w.nodes[j].version, newest, |image|);
      assert !PagesSafe(Run(w, steps, |image|).nodes[i], newest, image);
    }
  }

  /** The version of the older nodes, or any smaller one when there are none. */
  lemma OlderVersion(w: Network, newest: nat) returns (v0: nat)
    requires OneOlderVersion(w, newest) && newest > 0
    ensures v0 < newest
    ensures forall i :: 0 <= i < |w.nodes| && w.nodes[i].version < newest ==> w.nodes[i].version == v0
  {
    if i :| 0 <= i < |w.nodes| && w.nodes[i].version < newest {
      v0 := w.nodes[i].version;
    } else {
      v0 := 0;
    }
  }

  lemma MixedIsUpgrade(w: Network, v0: nat, newest: nat, image: Image)
    requires MixedStart(w, newest, image) && v0 < newest
    requires forall i :: 0 <= i < |w.nodes| && w.nodes[i].version < newest ==> w.nodes[i].version == v0
    ensures UpgradeStart(w, v0, newest, image)
  {
    forall i | 0 <= i < |w.nodes|
      ensures StartsUpgrade(w.nodes[i], v0, newest, image)
    {
      var n := w.nodes[i];
      assert CompleteAt(n, n.version, |image|);
    }
  }
}
