/** What was asked for is sent: requests for a page that arrive before the transmit timer expires are
    put together, and the timer sends exactly the packets that some of them asked for. */
module DelugeService {
  import opened MachineWords
  import opened Deluge
  import opened DelugeRuns

  /** A request for page `p` that the node can serve: it is in the node's version, and all pages below are
      complete. */
  predicate Serves(n: Node, m: Message, p: nat) {
    && m.Request? && m.page == p < |n.pages| && m.version == n.version
    && forall k :: 0 <= k < p ==> n.pages[k].complete
  }

  lemma {:induction false} HighestCounts(pages: seq<Page>, i: nat, p: nat)
    requires i <= p <= |pages|
    ensures p <= HighestFrom(pages, i) <==> forall k :: i <= k < p ==> pages[k].complete
    decreases |pages| - i
  {
    if i < p && pages[i].complete {
      HighestCounts(pages, i + 1, p);
    }
  }

  /** The step is the arrival of a message at node `i`. */
  predicate Arrives(w: Network, s: Step, i: nat) {
    i < |w.nodes| && s.Deliver? && s.node == i && s.message in w.air
  }

  predicate Served(w: Network, s: Step, i: nat, p: nat) {
    Arrives(w, s, i) && Serves(w.nodes[i], s.message, p)
  }

  /** A newer profile, a served request for another page and the transmit timer itself forget what was asked
      for. */
  predicate Forgets(w: Network, s: Step, i: nat, p: nat) {
    || (Arrives(w, s, i) && s.message.Profile? && s.message.version > w.nodes[i].updateVersion)
    || (Arrives(w, s, i) && s.message.Request? && s.message.page != p && Serves(w.nodes[i], s.message, s.message.page))
    || s == TransmitTimer(i)
  }

  /** A step after which the node may not be in the state of transmission any longer. */
  predicate Leaves(w: Network, s: Step, i: nat)
    requires i < |w.nodes|
  {
    var n := w.nodes[i];
    || (Arrives(w, s, i) && match s.message
        case Profile(version, _) => version > n.updateVersion
        case Summary(version, highest) =>
          !s.suppressed && version == n.updateVersion && highest <= |n.pages|
          && exists k :: 0 <= k < highest && !n.pages[k].complete
        case Packet(version, page, number, _, intact) =>
          intact && page == n.rx < |n.pages| && version == n.pages[page].version
          && n.pages[page].packets + {number} == ALL_PACKETS
        case Request(_, _, _) => false)
    || s == TransmitTimer(i)
    || (s == RequestTimer(i) && n.requests + 1 == CONST_LAMBDA)
  }

  /** Along the run nothing forgets requests for the page. */
  predicate Remembers(w: Network, steps: seq<Step>, i: nat, p: nat, count: nat)
    requires WellFormed(w, count)
    decreases |steps|
  {
    steps == [] ||
    (!Forgets(w, steps[0], i, p)
     && (TakeKeepsWellFormed(w, steps[0], count); Remembers(Take(w, steps[0], count), steps[1..], i, p, count)))
  }

  /** Along the run the node does not leave the state of transmission. */
  predicate Stays(w: Network, steps: seq<Step>, i: nat, count: nat)
    requires WellFormed(w, count) && i < |w.nodes|
    decreases |steps|
  {
    steps == [] ||
    (!Leaves(w, steps[0], i)
     && (TakeKeepsWellFormed(w, steps[0], count); Stays(Take(w, steps[0], count), steps[1..], i, count)))
  }

  /** The packets that the served requests of the run asked for. */
  function Asked(w: Network, steps: seq<Step>, i: nat, p: nat, count: nat): (bits: set<nat>)
    requires WellFormed(w, count)
    decreases |steps|
  {
    if steps == [] then {} else
    TakeKeepsWellFormed(w, steps[0], count);
    (if Served(w, steps[0], i, p) then steps[0].message.bits else {}) + Asked(Take(w, steps[0], count), steps[1..], i, p, count)
  }

  predicate SomeServed(w: Network, steps: seq<Step>, i: nat, p: nat, count: nat)
    requires WellFormed(w, count)
    decreases |steps|
  {
    steps != [] &&
    (Served(w, steps[0], i, p)
     || (TakeKeepsWellFormed(w, steps[0], count); SomeServed(Take(w, steps[0], count), steps[1..], i, p, count)))
  }

  /** What is pending for page `p`. */
  function Pending(n: Node, p: nat): (bits: set<nat>) { if n.tx == Some(p) then n.txSet else {} }

  predicate Transmitting(n: Node) { n.mode == Transmit && n.timers.tx }

  /** What a served request does. */
  lemma ServedRequest(n: Node, m: Message, p: nat)
    requires Serves(n, m, p) && p < 128
    ensures var r := HandleRequest(n, m);
            r.tx == Some(p) && r.txSet == Pending(n, p) + m.bits && Transmitting(r)
  {
    HighestCounts(n.pages, 0, p);
    assert {} + m.bits == m.bits;
  }

  /** A request that is not served changes nothing that is to be sent. */
  lemma OtherRequest(n: Node, m: Message)
    requires m.Request? && !Serves(n, m, m.page)
    ensures var r := HandleRequest(n, m); r.tx == n.tx && r.txSet == n.txSet && r.mode == n.mode && r.timers == n.timers
  {
    if m.page < |n.pages| {
      HighestCounts(n.pages, 0, m.page);
    }
    hide ServeRequest, HighestFrom;
  }

  /** One message of another kind. */
  lemma OtherMessage(n: Node, m: Message, suppressed: bool, count: nat)
    requires NodeInvariant(n, count) && Plausible(m, count) && !m.Request? && !(m.Profile? && m.version > n.updateVersion)
    ensures var r := Receive1(n, m, suppressed, count); r.tx == n.tx && r.txSet == n.txSet
  {
    assert |n.pages| == |n.file| == count && |n.buffer| == N_PKT;
    hide NodeInvariant, Transition, Highest;
  }

  lemma StaysTransmitting(w: Network, i: nat, m: Message, suppressed: bool, count: nat)
    requires i < |w.nodes| && NodeInvariant(w.nodes[i], count) && Plausible(m, count) && !m.Request? && m in w.air
    requires Transmitting(w.nodes[i]) && !Leaves(w, Deliver(i, m, suppressed), i)
    ensures Transmitting(Receive1(w.nodes[i], m, suppressed, count))
  {
    var n := w.nodes[i];
    assert |n.pages| == |n.file| == count && |n.buffer| == N_PKT;
    assert m.Packet? && m.page == n.rx ==> (n.pages[n.rx].complete <==> n.pages[n.rx].packets == ALL_PACKETS);
    if m.Summary? && m.highest <= |n.pages| {
      HighestCounts(n.pages, 0, m.highest);
    }
    hide NodeInvariant, HighestFrom;
  }

  /** One step of the network, seen from what node `i` has to send of page `p`. */
  lemma StepPending(w: Network, s: Step, i: nat, p: nat, count: nat)
    requires WellFormed(w, count) && i < |w.nodes| && p < 128 && !Forgets(w, s, i, p)
    ensures var n, r := w.nodes[i], Take(w, s, count).nodes[i];
            && |Take(w, s, count).nodes| == |w.nodes|
            && (Served(w, s, i, p) ==> r.tx == Some(p) && r.txSet == Pending(n, p) + s.message.bits && Transmitting(r))
            && (!Served(w, s, i, p) ==> r.tx == n.tx && r.txSet == n.txSet)
            && (Transmitting(n) && !Leaves(w, s, i) ==> Transmitting(r))
  {
    var n := w.nodes[i];
    if Arrives(w, s, i) {
      var m := s.message;
      assert NodeInvariant(n, count) && Plausible(m, count);
      hide NodeInvariant, WellFormed;
      if m.Request? {
        if Serves(n, m, m.page) {
          ServedRequest(n, m, p);
        } else {
          OtherRequest(n, m);
        }
        hide HandleRequest;
      } else {
        OtherMessage(n, m, s.suppressed, count);
        hide Leaves, Receive1, Transmitting;
        if Transmitting(n) && !Leaves(w, s, i) {
          StaysTransmitting(w, i, m, s.suppressed, count);
        }
      }
    } else if Enabled(w, s) && s.node == i {
      assert |n.pages| == count;
      hide NodeInvariant;
    }
  }

  /** As long as nothing forgets them, the packets asked for are pending together with those that were pending
      before; and as long as the node stays in the state of transmission, its timer runs. */
  lemma {:induction false} RequestsArePending(w: Network, steps: seq<Step>, i: nat, p: nat, count: nat)
    requires WellFormed(w, count) && i < |w.nodes| && p < 128 && Remembers(w, steps, i, p, count)
    ensures var n, r := w.nodes[i], Run(w, steps, count).nodes[i];
            && (SomeServed(w, steps, i, p, count) ==>
                  r.tx == Some(p) && r.txSet == Pending(n, p) + Asked(w, steps, i, p, count))
            && (!SomeServed(w, steps, i, p, count) ==> r.tx == n.tx && r.txSet == n.txSet && Asked(w, steps, i, p, count) == {})
            && (Stays(w, steps, i, count) && (SomeServed(w, steps, i, p, count) || Transmitting(n)) ==> Transmitting(r))
    decreases |steps|
  {
    if steps != [] {
      var s := steps[0];
      TakeKeepsWellFormed(w, s, count);
      StepPending(w, s, i, p, count);
      hide Take, WellFormed, Forgets, Leaves, Served, Transmitting;
      RequestsArePending(Take(w, s, count), steps[1..], i, p, count);
    }
  }

  /** The service law: when requests for a page in the node's version have arrived, and nothing has made the
      node forget them or leave the state of transmission, the transmit timer runs, and puts exactly the
      packets that were asked for into the air, each with the version of the page and the contents of
      the file. Afterwards nothing is pending. */
  lemma AskedIsSent(w: Network, steps: seq<Step>, i: nat, p: nat, count: nat)
    requires WellFormed(w, count) && i < |w.nodes| && p < 128
    requires Remembers(w, steps, i, p, count) && Stays(w, steps, i, count) && SomeServed(w, steps, i, p, count)
    ensures var before := Run(w, steps, count);
            var after := Take(before, TransmitTimer(i), count);
            var n := before.nodes[i];
            var asked := Pending(w.nodes[i], p) + Asked(w, steps, i, p, count);
            && n.timers.tx && |n.pages| == |n.file| == count && (p < count ==> |n.file[p]| == N_PKT)
            && (asked != {} ==> p < count)
            && (forall m :: m in after.air <==>
                  m in before.air || exists k :: k in asked && k < 4 && p < count
                                                 && m == Packet(n.pages[p].version, p, k, n.file[p][k], true))
            && after.nodes[i].txSet == {} && !after.nodes[i].timers.tx
  {
    RequestsArePending(w, steps, i, p, count);
    var before := Run(w, steps, count);
    hide Run, Remembers, Stays, SomeServed, Asked;
    TransmitStep(before, i, count);
    var asked := Pending(w.nodes[i], p) + Asked(w, steps, i, p, count);
    SendsAsked(before.nodes[i], asked, p, count);
    hide WellFormed, NodeInvariant, Take, PacketsOf, Transition, Pending;
  }

  lemma SendsAsked(n: Node, asked: set<nat>, p: nat, count: nat)
    requires NodeInvariant(n, count) && n.tx == Some(p) && n.txSet == asked
    ensures |n.pages| == |n.file| == count && (p < count ==> |n.file[p]| == N_PKT) && (asked != {} ==> p < count)
    ensures forall m :: m in PacketsOf(n) <==>
              exists k :: k in asked && k < 4 && p < count && m == Packet(n.pages[p].version, p, k, n.file[p][k], true)
  {
    assert forall k: nat :: k in ALL_PACKETS <==> k < 4;
    hide NodeInvariant;
  }
}
