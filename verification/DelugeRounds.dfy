/** Rounds and timers: what a node remembers of a round, how long the next one is, when it asks again, and which
    timers run in which state. */
module DelugeRounds {
  import opened MachineWords
  import opened Deluge
  import opened DelugeRuns
  import opened DelugeService

  /** The pages below `p` are complete, and page `p` is not. */
  predicate CompleteUpTo(n: Node, p: nat) {
    && p <= |n.pages| && (forall k :: 0 <= k < p ==> n.pages[k].complete) && (p < |n.pages| ==> !n.pages[p].complete)
  }

  /** The message tells that its sender has another version or other pages. */
  predicate Differs(n: Node, m: Message) {
    match m
    case Summary(version, highest) => version != n.version || !CompleteUpTo(n, highest)
    case Request(version, page, _) => version != n.version && page < |n.pages|
    case Packet(version, page, _, _, _) => version != n.version && page == n.rx
    case Profile(_, _) => false
  }

  /** A summary that says what the node would say. */
  predicate Concurs(n: Node, m: Message) { m.Summary? && m.version == n.version && CompleteUpTo(n, m.highest) }

  predicate IsOlder(n: Node, m: Message) { m.Summary? && m.version < n.version }

  lemma HighestIsUpTo(n: Node, p: nat)
    ensures p == Highest(n) <==> CompleteUpTo(n, p)
  {
    if p <= |n.pages| {
      HighestCounts(n.pages, 0, p);
      if p < |n.pages| {
        HighestCounts(n.pages, 0, p + 1);
      }
    }
  }

  /** What a node remembers of the round. */
  datatype Memory = Memory(differing: bool, concurring: nat, older: bool)

  function MemoryOf(n: Node): (r: Memory) { Memory(n.inconsistent, n.receivedSummaries, n.oldSummary) }

  /** What is remembered after one more message. */
  function Heard(n: Node, m: Message, before: Memory): (r: Memory) {
    Memory(before.differing || Differs(n, m), before.concurring + (if Concurs(n, m) then 1 else 0),
           before.older || IsOlder(n, m))
  }

  /** What has been heard over a run. */
  function HeardOver(w: Network, steps: seq<Step>, i: nat, before: Memory, count: nat): (r: Memory)
    requires WellFormed(w, count) && i < |w.nodes|
    decreases |steps|
  {
    if steps == [] then before else
    TakeKeepsWellFormed(w, steps[0], count);
    HeardOver(Take(w, steps[0], count), steps[1..], i,
              if Arrives(w, steps[0], i) then Heard(w.nodes[i], steps[0].message, before) else before, count)
  }

  /** The memory of the round is what it was, and the message. */
  predicate Remembered(n: Node, m: Message, r: Node) {
    && MemoryOf(r) == Heard(n, m, MemoryOf(n)) && r.interval == n.interval
    && r.broadcastProfile == (n.broadcastProfile || IsOlder(n, m))
  }

  lemma SummaryRemembered(n: Node, m: Message, suppressed: bool)
    requires m.Summary?
    ensures Remembered(n, m, HandleSummary(n, m, suppressed))
  {
    HighestIsUpTo(n, m.highest);
    hide Highest, Stop, CompleteUpTo;
  }

  lemma OthersRemembered(n: Node, m: Message)
    ensures m.Request? ==> Remembered(n, m, HandleRequest(n, m))
    ensures m.Profile? && |m.versions| == |n.pages| ==> Remembered(n, m, HandleProfile(n, m))
    ensures m.Packet? && m.number < |n.buffer| && |n.file| == |n.pages| && (m.page == n.rx ==> m.page < |n.pages|) ==>
      Remembered(n, m, HandlePacket(n, m))
  {
    hide Highest, HighestFrom, Stop;
  }

  lemma ReceiveRemembers(n: Node, m: Message, suppressed: bool, count: nat)
    requires NodeInvariant(n, count) && Plausible(m, count)
    ensures Remembered(n, m, Receive1(n, m, suppressed, count))
  {
    assert |n.pages| == |n.file| == count && |n.buffer| == N_PKT;
    hide NodeInvariant, HandleSummary, HandleRequest, HandlePacket, HandleProfile, Remembered;
    if m.Summary? {
      SummaryRemembered(n, m, suppressed);
    } else {
      OthersRemembered(n, m);
    }
  }

  lemma StepRemembers(w: Network, s: Step, i: nat, count: nat)
    requires WellFormed(w, count) && i < |w.nodes| && s != RoundTimer(i)
    ensures |Take(w, s, count).nodes| == |w.nodes|
    ensures var n, r := w.nodes[i], Take(w, s, count).nodes[i];
            && r.interval == n.interval
            && MemoryOf(r) == (if Arrives(w, s, i) then Heard(n, s.message, MemoryOf(n)) else MemoryOf(n))
            && (s != ProfileTimer(i) ==> r.broadcastProfile == (n.broadcastProfile || (Arrives(w, s, i) && IsOlder(n, s.message))))
  {
    var n := w.nodes[i];
    assert NodeInvariant(n, count) && |n.pages| == count;
    if Arrives(w, s, i) {
      assert Plausible(s.message, count);
      ReceiveRemembers(n, s.message, s.suppressed, count);
      hide Receive1, Heard, MemoryOf;
    }
    hide NodeInvariant, WellFormed;
  }

  /** Until the next round begins, a node remembers whether anything it heard differed, how many summaries agreed
      with it, and whether one was older. */
  lemma {:induction false} RoundRemembers(w: Network, steps: seq<Step>, i: nat, count: nat)
    requires WellFormed(w, count) && i < |w.nodes| && RoundTimer(i) !in steps
    ensures var n, r := w.nodes[i], Run(w, steps, count).nodes[i];
            MemoryOf(r) == HeardOver(w, steps, i, MemoryOf(n), count) && r.interval == n.interval
    decreases |steps|
  {
    if steps != [] {
      TakeKeepsWellFormed(w, steps[0], count);
      StepRemembers(w, steps[0], i, count);
      hide Take, WellFormed, Heard, Arrives, MemoryOf;
      RoundRemembers(Take(w, steps[0], count), steps[1..], i, count);
    }
  }

  /** The length of a round: the shortest one follows a round in which something differed, and any other round
      is followed by one twice as long, up to the longest. The new round starts with nothing heard, and with
      the timers of summary and profile running. */
  lemma NextRound(w: Network, steps: seq<Step>, i: nat, count: nat)
    requires WellFormed(w, count) && i < |w.nodes| && RoundTimer(i) !in steps
    ensures var n := w.nodes[i];
            var r := Take(Run(w, steps, count), RoundTimer(i), count).nodes[i];
            && r.interval == (if HeardOver(w, steps, i, MemoryOf(n), count).differing then 2
                              else if n.interval < 32 then 2 * n.interval else 64)
            && MemoryOf(r) == Memory(false, 0, false) && r.timers.summary && r.timers.profile
  {
    RoundRemembers(w, steps, i, count);
    hide Run, WellFormed;
    RoundStep(Run(w, steps, count), i, count);
  }

  /** The summary timer sends a summary unless one that agreed was heard in the round. */
  lemma SummaryUnlessHeard(w: Network, steps: seq<Step>, i: nat, count: nat)
    requires WellFormed(w, count) && i < |w.nodes| && RoundTimer(i) !in steps
    requires Run(w, steps, count).nodes[i].timers.summary
    ensures var before := Run(w, steps, count);
            var after := Take(before, SummaryTimer(i), count);
            && after.air == before.air +
                 (if HeardOver(w, steps, i, MemoryOf(w.nodes[i]), count).concurring > 0 then {}
                  else {Summary(before.nodes[i].updateVersion, Highest(before.nodes[i]))})
            && !after.nodes[i].timers.summary && CompleteUpTo(before.nodes[i], Highest(before.nodes[i]))
  {
    RoundRemembers(w, steps, i, count);
    HighestIsUpTo(Run(w, steps, count).nodes[i], Highest(Run(w, steps, count).nodes[i]));
    hide Run, NodeInvariant, Highest, HeardOver;
  }

  /** Whether an older summary has been heard over a run. */
  predicate OlderHeard(w: Network, steps: seq<Step>, i: nat, count: nat)
    requires WellFormed(w, count) && i < |w.nodes|
    decreases |steps|
  {
    steps != [] &&
    ((Arrives(w, steps[0], i) && IsOlder(w.nodes[i], steps[0].message))
     || (TakeKeepsWellFormed(w, steps[0], count); OlderHeard(Take(w, steps[0], count), steps[1..], i, count)))
  }

  lemma {:induction false} ProfileWanted(w: Network, steps: seq<Step>, i: nat, count: nat)
    requires WellFormed(w, count) && i < |w.nodes| && RoundTimer(i) !in steps && ProfileTimer(i) !in steps
    ensures Run(w, steps, count).nodes[i].broadcastProfile == (w.nodes[i].broadcastProfile || OlderHeard(w, steps, i, count))
    decreases |steps|
  {
    if steps != [] {
      TakeKeepsWellFormed(w, steps[0], count);
      StepRemembers(w, steps[0], i, count);
      hide Take, WellFormed, Heard, Arrives, MemoryOf;
      ProfileWanted(Take(w, steps[0], count), steps[1..], i, count);
    }
  }

  function VersionsOf(pages: seq<Page>): (versions: seq<nat>)
    ensures |versions| == |pages| && forall k :: 0 <= k < |pages| ==> versions[k] == pages[k].version
  {
    if pages == [] then [] else [pages[0].version] + VersionsOf(pages[1..])
  }

  /** The profile timer sends the profile exactly when an older summary was heard and none that agreed; the profile
      lists the version of each page, and is not sent again before another older summary. */
  lemma ProfileWhenOlderHeard(w: Network, steps: seq<Step>, i: nat, count: nat)
    requires WellFormed(w, count) && i < |w.nodes| && RoundTimer(i) !in steps && ProfileTimer(i) !in steps
    requires Run(w, steps, count).nodes[i].timers.profile
    ensures var before := Run(w, steps, count);
            var n, after := before.nodes[i], Take(before, ProfileTimer(i), count);
            var wanted := w.nodes[i].broadcastProfile || OlderHeard(w, steps, i, count);
            var quiet := HeardOver(w, steps, i, MemoryOf(w.nodes[i]), count).concurring == 0;
            && |n.pages| == count
            && after.air == before.air + (if wanted && quiet then {Profile(n.version, VersionsOf(n.pages))} else {})
            && after.nodes[i].broadcastProfile == (wanted && !quiet) && !after.nodes[i].timers.profile
  {
    RoundRemembers(w, steps, i, count);
    ProfileWanted(w, steps, i, count);
    var before := Run(w, steps, count);
    assert NodeInvariant(before.nodes[i], count);
    var n := before.nodes[i];
    assert |n.pages| == count;
    assert VersionsOf(n.pages) == ProfileOf(n).versions;
    hide Run, NodeInvariant, HeardOver, OlderHeard, WellFormed;
  }

  // ----------------------------------------------------------------- requests

  /** A node asks exactly for the packets that it lacks of the page being received, in the version in which it is
      wanted. The timer is then started again, until CONST_LAMBDA requests have been sent in a row. */
  lemma AsksForMissing(w: Network, i: nat, count: nat) returns (bits: set<nat>)
    requires WellFormed(w, count) && i < |w.nodes| && w.nodes[i].timers.rx && w.nodes[i].rx < count
    ensures var n := w.nodes[i];
            var after := Take(w, RequestTimer(i), count);
            var r := after.nodes[i];
            && |n.pages| == count
            && after.air == w.air + {Request(n.pages[n.rx].version, n.rx, bits)}
            && (forall k: nat :: k in bits <==> k < 8 && k !in n.pages[n.rx].packets)
            && (if n.requests == 1 then r.requests == 0 && r.mode == Maintain && !r.timers.rx
                else r.requests == n.requests + 1 && r.mode == n.mode && r.timers.rx)
  {
    RequestStep(w, i, count);
    var n := w.nodes[i];
    assert |n.pages| == count;
    hide WellFormed, NodeInvariant, Take;
    bits := REQUEST_BITS - n.pages[n.rx].packets;
    assert forall k: nat :: k in bits <==> k < 8 && k !in n.pages[n.rx].packets;
    assert RequestOf(n) == Request(n.pages[n.rx].version, n.rx, bits);
    RequestCounts(n);
    hide SendRequest;
  }

  lemma RequestCounts(n: Node)
    requires n.rx < |n.pages|
    ensures var r := SendRequest(n);
            if n.requests == 1 then r.requests == 0 && r.mode == Maintain && !r.timers.rx
            else r.requests == n.requests + 1 && r.mode == n.mode && r.timers.rx
  {
  }

  // ------------------------------------------------------------ states and timers

  /** The transmit timer runs in the state of transmission only, and in the state of reception the request timer
      always runs. */
  predicate TimersFit(n: Node) {
    (n.timers.tx ==> n.mode == Transmit) && (n.mode == Receive ==> n.timers.rx)
  }

  /** What a message can do to the state of a node and its timers: nothing, or one of three transitions. */
  predicate Moves(n: Node, r: Node) {
    || (r.mode == n.mode && r.timers == n.timers)
    || (r.mode == Receive && r.timers == Stop(n.timers, n.mode, Receive).(rx := true))
    || (r.mode == Transmit && r.timers == Stop(n.timers, n.mode, Transmit).(tx := true))
    || (r.mode == Maintain && r.timers == Stop(n.timers.(rx := r.timers.rx || n.timers.rx), n.mode, Maintain))
    || (r.mode == Maintain && r.timers == Stop(n.timers.(rx := true), n.mode, Maintain))
  }

  lemma PacketMoves(n: Node, m: Message)
    requires m.Packet? && m.number < |n.buffer| && (m.page == n.rx ==> m.page < |n.pages| && |n.file| == |n.pages|)
    ensures Moves(n, HandlePacket(n, m))
  {
    if m.page == n.rx {
      var n1 := if m.version != n.version then n.(inconsistent := true) else n;
      FinishMoves(n1.(buffer := n.buffer[m.number := m.payload]), m.version);
      hide FinishPage, Stop;
    }
  }

  lemma FinishMoves(n: Node, version: nat)
    requires n.rx < |n.pages| == |n.file|
    ensures Moves(n, FinishPage(n, version))
  {
  }

  lemma SummaryMoves(n: Node, m: Message, suppressed: bool)
    requires m.Summary?
    ensures Moves(n, HandleSummary(n, m, suppressed))
  {
    hide Highest, Stop;
  }

  lemma RequestMoves(n: Node, m: Message)
    requires m.Request?
    ensures Moves(n, HandleRequest(n, m))
  {
    hide Highest, Stop;
  }

  lemma ProfileMoves(n: Node, m: Message)
    requires m.Profile? && |m.versions| == |n.pages|
    ensures Moves(n, HandleProfile(n, m))
  {
    hide HighestFrom, Stop;
  }

  lemma MessageMoves(n: Node, m: Message, suppressed: bool, count: nat)
    requires NodeInvariant(n, count) && Plausible(m, count)
    ensures Moves(n, Receive1(n, m, suppressed, count))
  {
    assert |n.pages| == |n.file| == count && |n.buffer| == N_PKT;
    hide NodeInvariant, HandleSummary, HandleRequest, HandleProfile, HandlePacket, Moves;
    match m
    case Summary(_, _) => SummaryMoves(n, m, suppressed);
    case Request(_, _, _) => RequestMoves(n, m);
    case Packet(_, _, _, _, _) => PacketMoves(n, m);
    case Profile(_, _) => ProfileMoves(n, m);
  }

  lemma ReceiveFits(n: Node, m: Message, suppressed: bool, count: nat)
    requires NodeInvariant(n, count) && Plausible(m, count) && TimersFit(n)
    ensures TimersFit(Receive1(n, m, suppressed, count))
  {
    MessageMoves(n, m, suppressed, count);
    hide NodeInvariant, Receive1;
  }

  lemma StepFits(w: Network, s: Step, count: nat)
    requires WellFormed(w, count) && forall j :: 0 <= j < |w.nodes| ==> TimersFit(w.nodes[j])
    ensures forall j :: 0 <= j < |Take(w, s, count).nodes| ==> TimersFit(Take(w, s, count).nodes[j])
  {
    if Enabled(w, s) {
      var n := w.nodes[s.node];
      assert NodeInvariant(n, count) && |n.pages| == count;
      if s.Deliver? {
        ReceiveFits(n, s.message, s.suppressed, count);
        hide Receive1;
      }
      hide NodeInvariant, WellFormed;
    }
  }

  /** So it is over every run. */
  lemma {:induction false} RunFits(w: Network, steps: seq<Step>, count: nat)
    requires WellFormed(w, count) && forall j :: 0 <= j < |w.nodes| ==> TimersFit(w.nodes[j])
    ensures forall j :: 0 <= j < |w.nodes| ==> TimersFit(Run(w, steps, count).nodes[j])
    decreases |steps|
  {
    if steps != [] {
      TakeKeepsWellFormed(w, steps[0], count);
      StepFits(w, steps[0], count);
      hide Take, WellFormed, TimersFit;
      RunFits(Take(w, steps[0], count), steps[1..], count);
    }
  }

  // ------------------------------------------------------------- advertisements

  predicate Advertising(n: Node) { n.timers.summary || n.timers.profile }

  /** One step that is no new round: the timers of advertisements are not started, and leaving the state of maintenance
      stops them. */
  lemma StepSilences(w: Network, s: Step, i: nat, count: nat)
    requires WellFormed(w, count) && i < |w.nodes| && s != RoundTimer(i)
    ensures |Take(w, s, count).nodes| == |w.nodes|
    ensures var n, r := w.nodes[i], Take(w, s, count).nodes[i];
            && (Advertising(r) ==> Advertising(n))
            && (n.mode == Maintain && r.mode != Maintain ==> !Advertising(r))
  {
    var n := w.nodes[i];
    assert NodeInvariant(n, count) && |n.pages| == |n.file| == count && |n.buffer| == N_PKT;
    if Arrives(w, s, i) {
      assert Plausible(s.message, count);
      MessageSilences(n, s.message, s.suppressed, count);
      hide Receive1, Advertising;
    }
    hide NodeInvariant, WellFormed;
  }

  lemma MessageSilences(n: Node, m: Message, suppressed: bool, count: nat)
    requires NodeInvariant(n, count) && Plausible(m, count)
    ensures var r := Receive1(n, m, suppressed, count);
            && (Advertising(r) ==> Advertising(n))
            && (n.mode == Maintain && r.mode != Maintain ==> !Advertising(r))
  {
    MessageMoves(n, m, suppressed, count);
    hide NodeInvariant, Receive1;
  }

  lemma {:induction false} StaysSilent(w: Network, steps: seq<Step>, i: nat, count: nat)
    requires WellFormed(w, count) && i < |w.nodes| && RoundTimer(i) !in steps && !Advertising(w.nodes[i])
    ensures !Advertising(Run(w, steps, count).nodes[i])
    decreases |steps|
  {
    if steps != [] {
      TakeKeepsWellFormed(w, steps[0], count);
      StepSilences(w, steps[0], i, count);
      hide Take, WellFormed, Advertising;
      StaysSilent(Take(w, steps[0], count), steps[1..], i, count);
    }
  }

  /** A node that leaves the state of maintenance sends no summary and no profile before its next round. */
  lemma LeavingSilences(w: Network, s: Step, steps: seq<Step>, i: nat, count: nat)
    requires WellFormed(w, count) && i < |w.nodes| && s != RoundTimer(i) && RoundTimer(i) !in steps
    requires w.nodes[i].mode == Maintain && i < |Take(w, s, count).nodes| && Take(w, s, count).nodes[i].mode != Maintain
    ensures WellFormed(Take(w, s, count), count)
    ensures var r := Run(Take(w, s, count), steps, count);
            Take(r, SummaryTimer(i), count) == r && Take(r, ProfileTimer(i), count) == r
  {
    TakeKeepsWellFormed(w, s, count);
    StepSilences(w, s, i, count);
    StaysSilent(Take(w, s, count), steps, i, count);
    hide Run, WellFormed, NodeInvariant;
  }

  /** The timers that a state has for itself are off. */
  predicate TimersOff(r: Node, mode: Mode) {
    match mode
    case Maintain => !r.timers.summary && !r.timers.profile
    case Receive => !r.timers.rx
    case Transmit => !r.timers.tx
  }

  /** Leaving a state stops its timers; a node that stays in the state of maintenance keeps its advertisement timers
      running until they expire. */
  lemma LeavingStopsTimers(w: Network, s: Step, i: nat, count: nat)
    requires WellFormed(w, count) && i < |w.nodes| && s != RoundTimer(i)
    ensures |Take(w, s, count).nodes| == |w.nodes|
    ensures var n, r := w.nodes[i], Take(w, s, count).nodes[i];
            && (r.mode != n.mode ==> TimersOff(r, n.mode))
            && (r.mode == n.mode && s != SummaryTimer(i) ==> r.timers.summary == n.timers.summary)
            && (r.mode == n.mode && s != ProfileTimer(i) ==> r.timers.profile == n.timers.profile)
  {
    var n := w.nodes[i];
    assert NodeInvariant(n, count) && |n.pages| == count;
    hide NodeInvariant;
    if Arrives(w, s, i) {
      assert Plausible(s.message, count);
      MessageMoves(n, s.message, s.suppressed, count);
      hide Receive1, WellFormed;
    } else if s.node == i {
      TimersLeave(n);
      hide TimersOff, WellFormed, SendRequest, TxCallback, SummaryCallback, ProfileCallback;
    } else {
      hide WellFormed;
    }
  }

  lemma TimersLeave(n: Node)
    ensures n.rx < |n.pages| ==>
      var r := SendRequest(n);
      if r.mode != n.mode then TimersOff(r, n.mode)
      else r.timers.summary == n.timers.summary && r.timers.profile == n.timers.profile
    ensures var r := TxCallback(n);
      if r.mode != n.mode then TimersOff(r, n.mode)
      else r.timers.summary == n.timers.summary && r.timers.profile == n.timers.profile
    ensures var r := SummaryCallback(n); r.mode == n.mode && r.timers.profile == n.timers.profile
    ensures var r := ProfileCallback(n); r.mode == n.mode && r.timers.summary == n.timers.summary
  {
  }

  /** A transmit timer with nothing to send, or for a page that cannot be numbered, only stops. */
  lemma IdleTransmit(n: Node)
    requires n.tx.None? || n.txSet == {}
    ensures PacketsOf(n) == {} && TxCallback(n) == n.(timers := n.timers.(tx := false))
  {
  }

  /** What a profile does: one that is not newer changes nothing; a newer one makes the node want, from nothing, exactly
      the pages that it lists in a newer version. All others are kept as they are, complete or not, and so is
      the file. The node then receives the first page that it lacks. */
  lemma ProfileIsTakenUp(n: Node, m: Message)
    requires m.Profile? && |m.versions| == |n.pages|
    ensures m.version <= n.updateVersion ==> HandleProfile(n, m) == n
    ensures m.version > n.updateVersion ==>
      var r := HandleProfile(n, m);
      && |r.pages| == |n.pages| && r.file == n.file && r.version == n.version && r.updateVersion == m.version
      && (forall p :: 0 <= p < |n.pages| ==>
            r.pages[p] == if m.versions[p] > n.pages[p].version then Page({}, false, m.versions[p]) else n.pages[p])
      && CompleteUpTo(r, r.rx) && r.txSet == {} && r.mode == Receive && r.timers.rx
  {
    var r := HandleProfile(n, m);
    if m.version > n.updateVersion {
      HighestIsUpTo(r, r.rx);
    }
    hide HighestFrom;
  }

  // ---------------------------------------------------------------- the start

  /** An initialised object: everything complete in its version, nothing heard, nothing to send, no callback timer
      running, and the shortest interval. */
  lemma ObjectStartsIdle(version: nat, image: seq<seq<Payload>>, buffer: seq<Payload>)
    requires |buffer| == N_PKT && forall p :: 0 <= p < |image| ==> |image[p]| == N_PKT
    ensures var n := InitObject(version, image, buffer);
            && Whole(n, version, |image|) && n.file == image && CompleteUpTo(n, |image|)
            && n.rx == 0 && n.txSet == {} && n.tx == Some(0) && n.requests == 0 && n.mode == Maintain
            && MemoryOf(n) == Memory(false, 0, false) && !n.broadcastProfile && n.interval == 2
            && TimersFit(n) && !Advertising(n) && !n.timers.rx
  {
    ObjectStartsInvariant(version, image, buffer);
    hide NodeInvariant;
  }
}
