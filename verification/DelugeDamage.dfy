/** Damaged packets: they reach the page buffer, so what a completed page holds depends on the last packet
    stored in each slot, intact or not. */
module DelugeDamage {
  import opened MachineWords
  import opened Deluge
  import opened DelugeRuns

  /** A packet of the page that the node is receiving, in the version it is wanted in. */
  predicate ForPage(n: Node, m: Message)
    requires n.rx < |n.pages|
  {
    m.Packet? && m.page == n.rx && m.version == n.pages[n.rx].version && m.number < N_PKT
  }

  predicate Receiving(n: Node, count: nat) {
    NodeInvariant(n, count) && n.rx < count && !n.pages[n.rx].complete
  }

  /** Packets of a page, of which only the last completes it. */
  predicate Fills(n: Node, ms: seq<Message>, count: nat)
    requires Receiving(n, count)
    decreases |ms|
  {
    && ms != [] && ForPage(n, ms[0])
    && (PacketKeepsInvariant(n, ms[0], count);
        var next := HandlePacket(n, ms[0]);
        if |ms| == 1 then next.pages[n.rx].complete
        else next.rx == n.rx && !next.pages[n.rx].complete && Fills(next, ms[1..], count))
  }

  /** The payload of the last packet with a number, or what was in the buffer before. */
  function LastStored(ms: seq<Message>, k: nat, before: Payload): (p: Payload)
    decreases |ms|
  {
    if ms == [] then before
    else LastStored(ms[1..], k, if ms[0].Packet? && ms[0].number == k then ms[0].payload else before)
  }

  function Deliveries(i: nat, ms: seq<Message>): (steps: seq<Step>)
    ensures |steps| == |ms|
  {
    seq(|ms|, j requires 0 <= j < |ms| => Deliver(i, ms[j], false))
  }

  /** The packets of a page, delivered to a node that lacks some of them, complete it with the last
      payload that was stored in each slot. */
  lemma {:induction false} LastPacketsAreKept(w: Network, i: nat, ms: seq<Message>, count: nat)
    requires WellFormed(w, count) && i < |w.nodes| && Receiving(w.nodes[i], count)
    requires Fills(w.nodes[i], ms, count) && forall m :: m in ms ==> m in w.air
    ensures var n := w.nodes[i];
            var r := Run(w, Deliveries(i, ms), count).nodes[i];
            && r.pages[n.rx] == Page(ALL_PACKETS, true, n.pages[n.rx].version)
            && forall k :: 0 <= k < N_PKT ==> r.file[n.rx][k] == LastStored(ms, k, n.buffer[k])
    decreases |ms|
  {
    var n := w.nodes[i];
    var s := Deliver(i, ms[0], false);
    var next := Take(w, s, count);
    TakeKeepsWellFormed(w, s, count);
    assert Deliveries(i, ms) == [s] + Deliveries(i, ms[1..]);
    StoresPayload(n, ms[0], count);
    hide NodeInvariant, HandlePacket, Run;
    RunConcat(w, [s], Deliveries(i, ms[1..]), count);
    RunOne(w, s, count);
    if |ms| == 1 {
      RunNothing(next, Deliveries(i, ms[1..]), count);
      forall k | 0 <= k < N_PKT
        ensures next.nodes[i].file[n.rx][k] == LastStored(ms, k, n.buffer[k])
      {
        assert ms[1..] == [];
      }
    } else {
      LastPacketsAreKept(next, i, ms[1..], count);
    }
  }

  lemma RunNothing(w: Network, steps: seq<Step>, count: nat)
    requires WellFormed(w, count) && steps == []
    ensures Run(w, steps, count) == w
  {
  }

  /** One packet of the page being received: its payload is in the buffer, and in the file when the packet
      completes the page. */
  lemma StoresPayload(n: Node, m: Message, count: nat)
    requires Receiving(n, count) && ForPage(n, m)
    ensures |n.pages| == |n.file| == count && |n.buffer| == N_PKT
    ensures var r := HandlePacket(n, m);
            && |r.pages| == |r.file| == count
            && (r.pages[n.rx].complete ==>
                  && r.pages[n.rx] == Page(ALL_PACKETS, true, n.pages[n.rx].version)
                  && r.file[n.rx] == n.buffer[m.number := m.payload])
            && (!r.pages[n.rx].complete ==>
                  && r.rx == n.rx && r.buffer == n.buffer[m.number := m.payload]
                  && r.pages[n.rx].version == n.pages[n.rx].version)
  {
  }

  /** What a page that is completed in this way holds is the page of the image exactly when the last packet
      stored in each slot carries the payload of the image. */
  lemma CompletedPageIsRight(w: Network, i: nat, ms: seq<Message>, page: seq<Payload>, count: nat)
    requires WellFormed(w, count) && i < |w.nodes| && Receiving(w.nodes[i], count) && |page| == N_PKT
    requires Fills(w.nodes[i], ms, count) && forall m :: m in ms ==> m in w.air
    ensures var n := w.nodes[i];
            var r := Run(w, Deliveries(i, ms), count).nodes[i];
            && r.pages[n.rx].complete
            && (r.file[n.rx] == page <==> forall k :: 0 <= k < N_PKT ==> LastStored(ms, k, n.buffer[k]) == page[k])
  {
    hide Fills, Run, HandlePacket;
    LastPacketsAreKept(w, i, ms, count);
    var r := Run(w, Deliveries(i, ms), count).nodes[i];
    var p := w.nodes[i].rx;
    assert |r.file[p]| == N_PKT;
    if forall k :: 0 <= k < N_PKT ==> r.file[p][k] == page[k] {
      assert r.file[p] == page;
    }
  }

  /** The four packets of a page, the first of them followed by a damaged copy of itself. */
  function WithDamagedCopy(version: nat, p: nat, page: seq<Payload>, junk: Payload): (ms: seq<Message>)
    requires |page| == N_PKT
  {
    [Packet(version, p, 0, page[0], true), Packet(version, p, 0, junk, false), Packet(version, p, 1, page[1], true),
     Packet(version, p, 2, page[2], true), Packet(version, p, 3, page[3], true)]
  }

  /** Which packets of the page are marked after one more. */
  lemma MarksPacket(n: Node, m: Message, count: nat)
    requires Receiving(n, count) && ForPage(n, m)
    ensures var r := HandlePacket(n, m);
            var got := n.pages[n.rx].packets + if m.intact then {m.number} else {};
            |r.pages| == count &&
            if got == ALL_PACKETS then r.pages[n.rx].complete
            else Receiving(r, count) && r.rx == n.rx && r.pages[n.rx] == Page(got, false, n.pages[n.rx].version)
  {
    PacketKeepsInvariant(n, m, count);
    assert n.pages[n.rx].packets + {} == n.pages[n.rx].packets;
  }

  lemma FillsMore(n: Node, ms: seq<Message>, got: set<nat>, count: nat)
    requires Receiving(n, count) && ms != [] && ForPage(n, ms[0])
    requires got == n.pages[n.rx].packets + if ms[0].intact then {ms[0].number} else {}
    ensures |ms| == 1 && got == ALL_PACKETS ==> Fills(n, ms, count)
    ensures var next := HandlePacket(n, ms[0]);
            got != ALL_PACKETS ==>
              && Receiving(next, count) && next.rx == n.rx && next.pages[n.rx] == Page(got, false, n.pages[n.rx].version)
              && (|ms| > 1 && Fills(next, ms[1..], count) ==> Fills(n, ms, count))
  {
    MarksPacket(n, ms[0], count);
    hide HandlePacket, NodeInvariant;
  }

  lemma CopyFills(n: Node, page: seq<Payload>, junk: Payload, count: nat)
    requires Receiving(n, count) && n.pages[n.rx].packets == {} && |page| == N_PKT
    ensures Fills(n, WithDamagedCopy(n.pages[n.rx].version, n.rx, page, junk), count)
  {
    hide HandlePacket, NodeInvariant, Fills, Receiving;
    PagesOf(n, count);
    var ms := WithDamagedCopy(n.pages[n.rx].version, n.rx, page, junk);
    FillsMore(n, ms, {0}, count);
    var n1 := HandlePacket(n, ms[0]);
    PagesOf(n1, count);
    FillsMore(n1, ms[1..], {0}, count);
    var n2 := HandlePacket(n1, ms[1]);
    PagesOf(n2, count);
    FillsMore(n2, ms[1..][1..], {0, 1}, count);
    var n3 := HandlePacket(n2, ms[2]);
    PagesOf(n3, count);
    FillsMore(n3, ms[1..][1..][1..], {0, 1, 2}, count);
    var n4 := HandlePacket(n3, ms[3]);
    PagesOf(n4, count);
    FillsMore(n4, ms[1..][1..][1..][1..], ALL_PACKETS, count);
  }

  lemma PagesOf(n: Node, count: nat)
    requires Receiving(n, count)
    ensures |n.pages| == |n.file| == count && |n.buffer| == N_PKT && n.rx < count
  {
  }

  lemma {:induction false} NotStored(ms: seq<Message>, k: nat, before: Payload)
    requires forall m :: m in ms ==> m.Packet? && m.number != k
    ensures LastStored(ms, k, before) == before
    decreases |ms|
  {
    if ms != [] {
      assert ms[0] in ms;
      NotStored(ms[1..], k, before);
    }
  }

  /** A damaged copy that arrives behind the intact one is in the completed page. */
  lemma DamagedCopyIsKept(w: Network, i: nat, page: seq<Payload>, junk: Payload, count: nat)
    requires WellFormed(w, count) && i < |w.nodes| && Receiving(w.nodes[i], count) && |page| == N_PKT
    requires w.nodes[i].pages[w.nodes[i].rx].packets == {} && junk != page[0]
    requires var n := w.nodes[i];
             forall m :: m in WithDamagedCopy(n.pages[n.rx].version, n.rx, page, junk) ==> m in w.air
    ensures var n := w.nodes[i];
            var r := Run(w, Deliveries(i, WithDamagedCopy(n.pages[n.rx].version, n.rx, page, junk)), count).nodes[i];
            r.pages[n.rx].complete && r.file[n.rx] != page
  {
    var n := w.nodes[i];
    var ms := WithDamagedCopy(n.pages[n.rx].version, n.rx, page, junk);
    CopyFills(n, page, junk, count);
    hide Fills, Run, NodeInvariant;
    CompletedPageIsRight(w, i, ms, page, count);
    var later := ms[1..][1..];
    assert LastStored(ms, 0, n.buffer[0]) == LastStored(ms[1..], 0, page[0]) == LastStored(later, 0, junk);
    NotStored(later, 0, junk);
  }
}
