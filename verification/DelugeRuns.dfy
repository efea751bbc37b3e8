/** Runs put together: single steps of the network, and what a node does in a few of them. */
module DelugeRuns {
  import opened MachineWords
  import opened Deluge

  lemma {:induction false} RunConcat(w: Network, a: seq<Step>, b: seq<Step>, count: nat)
    requires WellFormed(w, count)
    ensures Run(w, a + b, count) == Run(Run(w, a, count), b, count)
    decreases |a|
  {
    hide Take, WellFormed;
    if a == [] {
      assert a + b == b;
    } else {
      TakeKeepsWellFormed(w, a[0], count);
      assert (a + b)[1..] == a[1..] + b;
      RunConcat(Take(w, a[0], count), a[1..], b, count);
    }
  }

  lemma RunOne(w: Network, s: Step, count: nat)
    requires WellFormed(w, count)
    ensures Run(w, [s], count) == Take(w, s, count)
  {
    hide Take, WellFormed;
    TakeKeepsWellFormed(w, s, count);
    assert [s][1..] == [];
  }

  /** `steps` leads from `w` to `r`. */
  predicate Leads(w: Network, steps: seq<Step>, r: Network, count: nat) {
    WellFormed(w, count) && Run(w, steps, count) == r && WellFormed(r, count) && |r.nodes| == |w.nodes|
  }

  lemma LeadsNowhere(w: Network, count: nat)
    requires WellFormed(w, count)
    ensures Leads(w, [], w, count)
  {
  }

  lemma LeadsOn(w: Network, steps: seq<Step>, r: Network, more: seq<Step>, count: nat)
    requires Leads(w, steps, r, count)
    ensures Leads(w, steps + more, Run(r, more, count), count)
  {
    hide WellFormed;
    RunConcat(w, steps, more, count);
  }

  lemma LeadsByOne(w: Network, steps: seq<Step>, r: Network, s: Step, count: nat)
    requires Leads(w, steps, r, count)
    ensures Leads(w, steps + [s], Take(r, s, count), count)
  {
    LeadsOn(w, steps, r, [s], count);
    hide WellFormed, Run, Take;
    RunOne(r, s, count);
  }

  /** Two stretches of a run. */
  lemma LeadsTogether(w: Network, a: seq<Step>, r: Network, b: seq<Step>, q: Network, count: nat)
    requires Leads(w, a, r, count) && Leads(r, b, q, count)
    ensures Leads(w, a + b, q, count)
  {
    hide WellFormed;
    LeadsOn(w, a, r, b, count);
  }

  /** No node but one has changed, and nothing has left the air. */
  predicate Only(w: Network, r: Network, i: nat) {
    && |r.nodes| == |w.nodes| && w.air <= r.air
    && forall j :: 0 <= j < |w.nodes| && j != i ==> r.nodes[j] == w.nodes[j]
  }

  /** The object of a node and what it has to send are unchanged. */
  predicate SameSending(n: Node, r: Node) { SameObject(n, r) && r.tx == n.tx && r.txSet == n.txSet }

  // ------------------------------------------------------------ single steps

  lemma DeliverStep(w: Network, i: nat, m: Message, count: nat)
    requires WellFormed(w, count) && i < |w.nodes| && m in w.air
    ensures Plausible(m, count) && NodeInvariant(w.nodes[i], count)
    ensures Take(w, Deliver(i, m, false), count) == w.(nodes := w.nodes[i := Receive1(w.nodes[i], m, false, count)])
  {
  }

  lemma RoundStep(w: Network, i: nat, count: nat)
    requires WellFormed(w, count) && i < |w.nodes|
    ensures Take(w, RoundTimer(i), count) == w.(nodes := w.nodes[i := NewRound(w.nodes[i])])
  {
    hide NodeInvariant;
  }

  lemma SummaryStep(w: Network, i: nat, count: nat)
    requires WellFormed(w, count) && i < |w.nodes| && w.nodes[i].timers.summary && w.nodes[i].receivedSummaries == 0
    ensures var n := w.nodes[i];
            Take(w, SummaryTimer(i), count) ==
            Network(w.nodes[i := SummaryCallback(n)], w.air + {Summary(n.updateVersion, Highest(n))})
  {
    hide NodeInvariant;
  }

  lemma ProfileStep(w: Network, i: nat, count: nat)
    requires WellFormed(w, count) && i < |w.nodes| && w.nodes[i].timers.profile && ProfileDue(w.nodes[i])
    ensures var n := w.nodes[i];
            Take(w, ProfileTimer(i), count) == Network(w.nodes[i := ProfileCallback(n)], w.air + {ProfileOf(n)})
  {
    hide NodeInvariant;
  }

  lemma RequestStep(w: Network, i: nat, count: nat)
    requires WellFormed(w, count) && i < |w.nodes| && w.nodes[i].timers.rx && w.nodes[i].rx < count
    ensures var n := w.nodes[i];
            && n.rx < |n.pages|
            && Take(w, RequestTimer(i), count) == Network(w.nodes[i := SendRequest(n)], w.air + {RequestOf(n)})
  {
  }

  lemma TransmitStep(w: Network, i: nat, count: nat)
    requires WellFormed(w, count) && i < |w.nodes| && w.nodes[i].timers.tx
    ensures var n := w.nodes[i];
            && NodeInvariant(n, count)
            && Take(w, TransmitTimer(i), count) == Network(w.nodes[i := TxCallback(n)], w.air + PacketsOf(n))
  {
  }

  // ----------------------------------------------------------- a few of them

  /** A node advertises its version in a new round. */
  lemma Advertises(w: Network, i: nat, count: nat) returns (steps: seq<Step>, r: Network)
    requires WellFormed(w, count) && i < |w.nodes|
    ensures Leads(w, steps, r, count) && Only(w, r, i) && SameSending(w.nodes[i], r.nodes[i])
    ensures Summary(w.nodes[i].updateVersion, Highest(w.nodes[i])) in r.air
  {
    hide WellFormed, NodeInvariant, Take, Run, Highest, Leads;
    LeadsNowhere(w, count);
    LeadsByOne(w, [], w, RoundTimer(i), count);
    RoundStep(w, i, count);
    var w1 := Take(w, RoundTimer(i), count);
    LeadsFormed(w, [] + [RoundTimer(i)], w1, count);
    LeadsByOne(w, [] + [RoundTimer(i)], w1, SummaryTimer(i), count);
    SummaryStep(w1, i, count);
    r := Take(w1, SummaryTimer(i), count);
    steps := [] + [RoundTimer(i)] + [SummaryTimer(i)];
    HighestOfPages(w.nodes[i], w1.nodes[i]);
  }

  lemma HighestOfPages(n: Node, r: Node)
    requires r.pages == n.pages
    ensures Highest(r) == Highest(n)
  {
  }

  lemma LeadsFormed(w: Network, steps: seq<Step>, r: Network, count: nat)
    requires Leads(w, steps, r, count)
    ensures WellFormed(w, count) && WellFormed(r, count) && |r.nodes| == |w.nodes|
  {
  }

  function UniformProfile(version: nat, count: nat): Message {
    Profile(version, seq(count, _ => version))
  }

  /** The whole object in one version. */
  predicate Whole(n: Node, version: nat, count: nat) {
    && NodeInvariant(n, count) && n.version == n.updateVersion == version
    && forall p :: 0 <= p < count ==> n.pages[p].version == version
  }

  lemma ProfileOfWhole(n: Node, version: nat, count: nat)
    requires Whole(n, version, count)
    ensures ProfileOf(n) == UniformProfile(version, count)
  {
  }

  lemma WholeFrame(n: Node, r: Node, version: nat, count: nat)
    requires Whole(n, version, count) && SameSending(n, r)
    ensures Whole(r, version, count)
  {
    FrameInvariant(n, r, count);
  }

  /** A node that has the whole object and hears a summary of an older version broadcasts its profile. */
  lemma SendsProfile(w: Network, from: nat, version: nat, older: nat, highest: nat, count: nat)
      returns (steps: seq<Step>, r: Network)
    requires WellFormed(w, count) && from < |w.nodes| && Whole(w.nodes[from], version, count)
    requires Summary(older, highest) in w.air && older < version
    ensures Leads(w, steps, r, count) && Only(w, r, from) && SameSending(w.nodes[from], r.nodes[from])
    ensures UniformProfile(version, count) in r.air
  {
    var n, m := w.nodes[from], Summary(older, highest);
    var n1 := NewRound(n);
    HearsOldSummary(n1, m);
    WholeFrame(n, n1, version, count);
    WholeFrame(n, HandleSummary(n1, m, false), version, count);
    ProfileOfWhole(HandleSummary(n1, m, false), version, count);
    hide WellFormed, NodeInvariant, Take, Run, Highest, Leads, Whole, HandleSummary, ProfileOf, UniformProfile;
    LeadsNowhere(w, count);
    LeadsByOne(w, [], w, RoundTimer(from), count);
    RoundStep(w, from, count);
    steps := [] + [RoundTimer(from)];
    var w1 := Take(w, RoundTimer(from), count);
    LeadsFormed(w, steps, w1, count);
    LeadsByOne(w, steps, w1, Deliver(from, m, false), count);
    DeliverStep(w1, from, m, count);
    steps := steps + [Deliver(from, m, false)];
    var w2 := Take(w1, Deliver(from, m, false), count);
    LeadsFormed(w, steps, w2, count);
    LeadsByOne(w, steps, w2, ProfileTimer(from), count);
    ProfileStep(w2, from, count);
    steps := steps + [ProfileTimer(from)];
    r := Take(w2, ProfileTimer(from), count);
  }

  lemma HearsOldSummary(n: Node, m: Message)
    requires m.Summary? && m.version < n.version && n.version == n.updateVersion && n.receivedSummaries == 0
    ensures var r := HandleSummary(n, m, false);
            SameSending(n, r) && r.timers == n.timers && ProfileDue(r)
  {
    hide Highest;
  }

  /** All pages are wanted in version `version`, and the request timer runs. */
  predicate Outdated(n: Node, version: nat, count: nat) {
    && NodeInvariant(n, count) && n.rx == 0 && n.updateVersion == version && n.timers.rx
    && forall p :: 0 <= p < count ==> n.pages[p] == Page({}, false, version)
  }

  /** An older node that hears the profile wants all pages. */
  lemma HearsProfile(n: Node, version: nat, count: nat)
    requires NodeInvariant(n, count) && n.updateVersion < version && count > 0
    requires forall p :: 0 <= p < count ==> n.pages[p].version < version
    ensures var r := HandleProfile(n, UniformProfile(version, count));
            Outdated(r, version, count) && r.version == n.version && r.file == n.file && r.txSet == {}
  {
    ProfileKeepsInvariant(n, UniformProfile(version, count), count);
    var r := HandleProfile(n, UniformProfile(version, count));
    assert !r.pages[0].complete;
  }

  lemma TakesProfile(w: Network, i: nat, version: nat, count: nat) returns (r: Network)
    requires WellFormed(w, count) && i < |w.nodes| && UniformProfile(version, count) in w.air && count > 0
    requires w.nodes[i].updateVersion < version && forall p :: 0 <= p < count ==> p < |w.nodes[i].pages| && w.nodes[i].pages[p].version < version
    ensures r == Take(w, Deliver(i, UniformProfile(version, count), false), count) && Only(w, r, i)
    ensures Outdated(r.nodes[i], version, count) && r.nodes[i].txSet == {}
    ensures r.nodes[i].version == w.nodes[i].version && r.nodes[i].file == w.nodes[i].file
  {
    r := Take(w, Deliver(i, UniformProfile(version, count), false), count);
    DeliverStep(w, i, UniformProfile(version, count), count);
    HearsProfile(w.nodes[i], version, count);
    hide HandleProfile, Take, Outdated, NodeInvariant;
  }

  // ------------------------------------------------------------ packets of a page

  function Below(k: nat): set<nat> {
    if k == 0 then {} else Below(k - 1) + {k - 1}
  }

  lemma BelowIsPartial(k: nat)
    requires k <= N_PKT
    ensures k == N_PKT ==> Below(k) == ALL_PACKETS
    ensures k < N_PKT ==> 3 !in Below(k)
  {
    assert Below(1) == {0} && Below(2) == {0, 1} && Below(3) == {0, 1, 2} && Below(4) == {0, 1, 2, 3};
  }

  /** A node that is receiving page `p`, with the packets of the page below `k` received. */
  predicate PartlyReceived(n: Node, p: nat, version: nat, data: seq<Payload>, k: nat, count: nat)
    requires |data| == N_PKT && k <= N_PKT
  {
    && NodeInvariant(n, count) && n.rx == p < count
    && n.pages[p] == Page(Below(k), false, version)
    && n.buffer[..k] == data[..k]
  }

  /** What a node has once it has received page `p`, compared with what it had. */
  predicate PageTaken(n: Node, r: Node, p: nat, version: nat, data: seq<Payload>, count: nat) {
    && p < |n.pages| == |n.file| == count && NodeInvariant(r, count)
    && r.pages == n.pages[p := Page(ALL_PACKETS, true, version)] && r.file == n.file[p := data]
    && r.rx == p + 1 && r.updateVersion == n.updateVersion && r.tx == n.tx && r.txSet == n.txSet
    && r.version == if p == count - 1 then n.updateVersion else n.version
  }

  lemma TakesPacket(n: Node, p: nat, version: nat, data: seq<Payload>, k: nat, count: nat)
    requires |data| == N_PKT && k < N_PKT && PartlyReceived(n, p, version, data, k, count)
    ensures var r := HandlePacket(n, Packet(version, p, k, data[k], true));
            if k + 1 == N_PKT then PageTaken(n, r, p, version, data, count)
            else
              && PartlyReceived(r, p, version, data, k + 1, count) && r.version == n.version && r.tx == n.tx && r.txSet == n.txSet
              && r.pages == n.pages[p := Page(Below(k + 1), false, version)] && r.file == n.file && r.updateVersion == n.updateVersion
  {
    var m := Packet(version, p, k, data[k], true);
    PacketKeepsInvariant(n, m, count);
    BelowIsPartial(k + 1);
    assert Below(k + 1) == Below(k) + {k};
    assert |n.pages| == |n.file| == count && |n.buffer| == N_PKT;
    PrefixGrows(n.buffer, data, k);
    hide NodeInvariant, Below, Transition, FinishPage;
    var n1 := if m.version != n.version then n.(inconsistent := true) else n;
    FinishFrame(n1.(buffer := n.buffer[k := data[k]]), version);
  }

  lemma PrefixGrows(buffer: seq<Payload>, data: seq<Payload>, k: nat)
    requires |buffer| == |data| == N_PKT && k < N_PKT && buffer[..k] == data[..k]
    ensures buffer[k := data[k]][..k + 1] == data[..k + 1]
    ensures k + 1 == N_PKT ==> buffer[k := data[k]] == data
  {
    if k + 1 == N_PKT {
      assert buffer[k := data[k]] == buffer[..k] + [data[k]];
    }
  }

  lemma {:induction false} TakesPackets(w: Network, i: nat, p: nat, version: nat, data: seq<Payload>, k: nat, count: nat)
      returns (steps: seq<Step>, r: Network)
    requires WellFormed(w, count) && i < |w.nodes| && |data| == N_PKT && k < N_PKT
    requires PartlyReceived(w.nodes[i], p, version, data, k, count)
    requires forall j :: 0 <= j < N_PKT ==> Packet(version, p, j, data[j], true) in w.air
    ensures Leads(w, steps, r, count) && Only(w, r, i) && PageTaken(w.nodes[i], r.nodes[i], p, version, data, count)
    decreases N_PKT - k
  {
    var m := Packet(version, p, k, data[k], true);
    var s := Deliver(i, m, false);
    DeliverStep(w, i, m, count);
    TakesPacket(w.nodes[i], p, version, data, k, count);
    var next := Take(w, s, count);
    SizesOf(w.nodes[i], p, version, data, k, count);
    hide WellFormed, NodeInvariant, Take, Run, Leads, HandlePacket, Below;
    LeadsNowhere(w, count);
    LeadsByOne(w, [], w, s, count);
    LeadsFormed(w, [] + [s], next, count);
    assert next.nodes[i] == HandlePacket(w.nodes[i], m);
    if k + 1 == N_PKT {
      steps, r := [] + [s], next;
    } else {
      var rest, q := TakesPackets(next, i, p, version, data, k + 1, count);
      LeadsTogether(w, [] + [s], next, rest, q, count);
      steps, r := [] + [s] + rest, q;
    }
  }

  lemma SizesOf(n: Node, p: nat, version: nat, data: seq<Payload>, k: nat, count: nat)
    requires |data| == N_PKT && k <= N_PKT && PartlyReceived(n, p, version, data, k, count)
    ensures p < |n.pages| == |n.file| == count && n.pages[p] == Page(Below(k), false, version)
  {
  }
}
