/** The Deluge dissemination protocol: what one node does with a message or a timer, and a
    network of such nodes that loses, duplicates and reorders messages. */
module Deluge {
  import opened MachineWords

  const N_PKT: nat := 4
  const CONST_LAMBDA: nat := 2
  const CONST_K: nat := 1

  /** The shortest and the longest interval between rounds. */
  const T_LOW: nat := 2
  const T_HIGH: nat := 64

  type Payload = seq<Byte>

  /** The bitmap of a complete page. Bitmaps are modelled as the sets of their one bits. */
  const ALL_PACKETS: set<nat> := {0, 1, 2, 3}
  const REQUEST_BITS: set<nat> := {0, 1, 2, 3, 4, 5, 6, 7}

  datatype Mode = Maintain | Receive | Transmit

  datatype Page = Page(packets: set<nat>, complete: bool, version: nat)

  /** Which of the callback timers are running. */
  datatype Timers = Timers(rx: bool, tx: bool, summary: bool, profile: bool)

  /** The object a node maintains, with the page file and the protocol variables. */
  datatype Node = Node(
    version: nat, updateVersion: nat,
    pages: seq<Page>, file: seq<seq<Payload>>, buffer: seq<Payload>,
    rx: nat, tx: Option<nat>, txSet: set<nat>, requests: nat, mode: Mode, timers: Timers,
    broadcastProfile: bool, receivedSummaries: nat, inconsistent: bool, oldSummary: bool, interval: nat)

  datatype Option<+T> = None | Some(value: T)

  datatype Message =
    | Summary(version: nat, highest: nat)
    | Request(version: nat, page: nat, bits: set<nat>)
    | Packet(version: nat, page: nat, number: nat, payload: Payload, intact: bool)
    | Profile(version: nat, versions: seq<nat>)

  // ------------------------------------------------------------ node behaviour

  /** A node that has a complete object. The page to transmit is initially page 0, with no
      packets to send. */
  function InitObject(version: nat, image: seq<seq<Payload>>, buffer: seq<Payload>): Node {
    Node(version, version, seq(|image|, i => Page(ALL_PACKETS, true, version)), image, buffer,
         0, Some(0), {}, 0, Maintain, Timers(false, false, false, false), false, 0, false, false, T_LOW)
  }

  /** Leaving a state stops the timers of that state. */
  function Stop(timers: Timers, from: Mode, to: Mode): Timers {
    if to == from then timers else
    match from
    case Maintain => timers.(summary := false, profile := false)
    case Receive => timers.(rx := false)
    case Transmit => timers.(tx := false)
  }

  function Transition(n: Node, mode: Mode): Node {
    n.(mode := mode, timers := Stop(n.timers, n.mode, mode))
  }

  /** The node begins to receive: its request timer runs. */
  function BeginReceive(n: Node): Node {
    var r := Transition(n, Receive);
    r.(timers := r.timers.(rx := true))
  }

  /** The number of leading complete pages from page `i` on, plus `i`. */
  function HighestFrom(pages: seq<Page>, i: nat): (r: nat)
    requires i <= |pages|
    ensures i <= r <= |pages|
    ensures forall k :: i <= k < r ==> pages[k].complete
    ensures r < |pages| ==> !pages[r].complete
    decreases |pages| - i
  {
    if i < |pages| && pages[i].complete then HighestFrom(pages, i + 1) else i
  }

  function Highest(n: Node): nat { HighestFrom(n.pages, 0) }

  /** A summary that differs is an inconsistency, one that agrees is counted, and an old one asks for the
      profile. */
  function NoteSummary(n: Node, m: Message): Node
    requires m.Summary?
  {
    var n1 := if m.version != n.version || m.highest != Highest(n) then n.(inconsistent := true)
              else n.(receivedSummaries := n.receivedSummaries + 1);
    if m.version < n.version then n1.(oldSummary := true, broadcastProfile := true) else n1
  }

  /** `suppressed` is the outcome of the test on how recently the neighbourhood requested or
      sent the pages in question. */
  function HandleSummary(n: Node, m: Message, suppressed: bool): Node
    requires m.Summary?
  {
    var r := NoteSummary(n, m);
    if m.version == n.updateVersion && m.highest > Highest(n) && m.highest <= |n.pages| && !suppressed
    then BeginReceive(r) else r
  }

  /** The page to send is kept in a signed byte, which is negative from page 128 on, and no page is sent
      for a negative number. */
  function PageToSend(page: nat): (r: Option<nat>) { if page < 128 then Some(page) else None }

  /** The packets asked for are added to those to be sent of the same page. */
  function ServeRequest(n: Node, m: Message): Node
    requires m.Request?
  {
    var r := Transition(n.(tx := if n.tx == Some(m.page) then n.tx else PageToSend(m.page),
                           txSet := if n.tx == Some(m.page) then n.txSet + m.bits else m.bits), Transmit);
    r.(timers := r.timers.(tx := true))
  }

  /** A request is served for any page up to and including the first incomplete one. */
  function HandleRequest(n: Node, m: Message): Node
    requires m.Request?
  {
    if m.page >= |n.pages| then n else
    var n1 := if m.version != n.version then n.(inconsistent := true) else n;
    if m.version == n.version && m.page <= Highest(n) then ServeRequest(n1, m) else n1
  }

  /** The packet's bit is set in the page being received. */
  function MarkPacket(n: Node, number: nat): Node
    requires n.rx < |n.pages|
  {
    n.(pages := n.pages[n.rx := n.pages[n.rx].(packets := n.pages[n.rx].packets + {number})])
  }

  /** The page buffer is written to the file and reception moves to the next page. The last
      page makes the object up to date; after any other the request timer is started, which leaving the
      state of reception stops again. */
  function FinishPage(n: Node, version: nat): Node
    requires n.rx < |n.pages| == |n.file|
  {
    var last := n.rx == |n.pages| - 1;
    Transition(n.(pages := n.pages[n.rx := Page(ALL_PACKETS, true, version)],
                  file := n.file[n.rx := n.buffer],
                  rx := n.rx + 1,
                  version := if last then n.updateVersion else n.version,
                  timers := n.timers.(rx := n.timers.rx || !last)),
               Maintain)
  }

  /** The payload reaches the page buffer before its checksum is tested. */
  function StorePacket(n: Node, m: Message): Node
    requires m.Packet? && m.number < |n.buffer| && n.rx < |n.pages| == |n.file|
  {
    var stored := n.(buffer := n.buffer[m.number := m.payload]);
    if !m.intact then stored
    else if n.pages[n.rx].packets + {m.number} != ALL_PACKETS then MarkPacket(stored, m.number)
    else FinishPage(stored, m.version)
  }

  /** Only packets of the page being received, in the version it is wanted in, are stored. */
  function HandlePacket(n: Node, m: Message): Node
    requires m.Packet? && m.number < |n.buffer|
    requires m.page == n.rx ==> m.page < |n.pages| && |n.file| == |n.pages|
  {
    if m.page != n.rx then n else
    var n1 := if m.version != n.version then n.(inconsistent := true) else n;
    var page := n.pages[m.page];
    if m.version != page.version || page.complete then n1 else StorePacket(n1, m)
  }

  /** A page that the profile has in a newer version starts from nothing. */
  function Outdate(page: Page, version: nat): Page {
    if version > page.version then Page({}, false, version) else page
  }

  function HandleProfile(n: Node, m: Message): Node
    requires m.Profile? && |m.versions| == |n.pages|
  {
    if m.version <= n.updateVersion then n else
    var pages := seq(|n.pages|, i requires 0 <= i < |n.pages| => Outdate(n.pages[i], m.versions[i]));
    BeginReceive(n.(txSet := {}, pages := pages, rx := HighestFrom(pages, 0), updateVersion := m.version))
  }

  function RequestOf(n: Node): Message
    requires n.rx < |n.pages|
  {
    Request(n.pages[n.rx].version, n.rx, REQUEST_BITS - n.pages[n.rx].packets)
  }

  /** The request timer has expired: it is started again unless this was the last request in a row. */
  function SendRequest(n: Node): Node
    requires n.rx < |n.pages|
  {
    if n.requests + 1 == CONST_LAMBDA
    then Transition(n.(requests := 0, timers := n.timers.(rx := false)), Maintain)
    else n.(requests := n.requests + 1, timers := n.timers.(rx := true))
  }

  /** The packets of a page whose bits are set. */
  function PacketsOf(n: Node): set<Message>
    requires n.tx.Some? && n.txSet != {} ==> n.tx.value < |n.pages| == |n.file| && |n.file[n.tx.value]| == N_PKT
  {
    if n.tx.None? || n.txSet == {} then {} else
    set k | k in ALL_PACKETS && k in n.txSet
      :: Packet(n.pages[n.tx.value].version, n.tx.value, k, n.file[n.tx.value][k], true)
  }

  /** The transmit timer has expired. */
  function TxCallback(n: Node): Node {
    var r := n.(timers := n.timers.(tx := false));
    if n.tx.Some? && n.txSet != {} then Transition(r.(txSet := {}, tx := None), Maintain) else r
  }

  function ProfileOf(n: Node): Message {
    Profile(n.version, seq(|n.pages|, i requires 0 <= i < |n.pages| => n.pages[i].version))
  }

  predicate ProfileDue(n: Node) { n.broadcastProfile && n.receivedSummaries < CONST_K }

  /** The summary timer has expired. */
  function SummaryCallback(n: Node): Node { n.(timers := n.timers.(summary := false)) }

  /** The profile timer has expired. */
  function ProfileCallback(n: Node): Node {
    n.(timers := n.timers.(profile := false), broadcastProfile := n.broadcastProfile && !ProfileDue(n))
  }

  /** The start of a new advertisement round: the interval is the shortest after an inconsistency, and doubles
      up to the longest otherwise. */
  function NewRound(n: Node): Node {
    n.(interval := if n.inconsistent then T_LOW else if 2 * n.interval >= T_HIGH then T_HIGH else 2 * n.interval,
       inconsistent := false, receivedSummaries := 0, oldSummary := false,
       timers := n.timers.(summary := true, profile := true))
  }

  // ------------------------------------------------------------ node invariant

  /** Pages and bitmaps agree, every page below the one being received is complete, and an
      up-to-date object is complete. */
  predicate NodeInvariant(n: Node, count: nat) {
    && |n.pages| == |n.file| == count
    && |n.buffer| == N_PKT
    && (forall p :: 0 <= p < count ==> |n.file[p]| == N_PKT)
    && (forall p :: 0 <= p < count ==> (n.pages[p].complete <==> n.pages[p].packets == ALL_PACKETS))
    && (forall p :: 0 <= p < count ==> n.pages[p].packets <= ALL_PACKETS)
    && n.rx <= count
    && (forall p :: 0 <= p < n.rx ==> n.pages[p].complete)
    && (n.version == n.updateVersion ==> forall p :: 0 <= p < count ==> n.pages[p].complete)
    && n.version <= n.updateVersion
    && (n.tx.Some? ==> n.tx.value < count || n.txSet == {})
  }

  /** Messages about an object of `count` pages. */
  predicate Plausible(m: Message, count: nat) {
    match m
    case Summary(_, _) => true
    case Request(_, _, _) => true
    case Packet(_, page, number, _, _) => page < count && number < N_PKT
    case Profile(_, versions) => |versions| == count
  }

  function Receive1(n: Node, m: Message, suppressed: bool, count: nat): Node
    requires NodeInvariant(n, count) && Plausible(m, count)
  {
    match m
    case Summary(_, _) => HandleSummary(n, m, suppressed)
    case Request(_, _, _) => HandleRequest(n, m)
    case Packet(_, _, _, _, _) => HandlePacket(n, m)
    case Profile(_, _) => HandleProfile(n, m)
  }

  lemma ObjectStartsInvariant(version: nat, image: seq<seq<Payload>>, buffer: seq<Payload>)
    requires |buffer| == N_PKT && forall p :: 0 <= p < |image| ==> |image[p]| == N_PKT
    ensures NodeInvariant(InitObject(version, image, buffer), |image|)
  {
  }

  /** No message breaks the node invariant, intact or not. */
  lemma ReceiveKeepsInvariant(n: Node, m: Message, suppressed: bool, count: nat)
    requires NodeInvariant(n, count) && Plausible(m, count)
    ensures NodeInvariant(Receive1(n, m, suppressed, count), count)
  {
    assert |n.pages| == count;
    hide NodeInvariant, HandleSummary, HandleRequest, HandlePacket, HandleProfile;
    match m
    case Summary(_, _) => SummaryKeepsInvariant(n, m, suppressed, count);
    case Request(_, _, _) => RequestKeepsInvariant(n, m, count);
    case Packet(_, _, _, _, _) => PacketKeepsInvariant(n, m, count);
    case Profile(_, _) => ProfileKeepsInvariant(n, m, count);
  }

  lemma SummaryKeepsInvariant(n: Node, m: Message, suppressed: bool, count: nat)
    requires NodeInvariant(n, count) && m.Summary?
    ensures NodeInvariant(HandleSummary(n, m, suppressed), count)
  {
    SummaryFrame(n, m, suppressed);
    TxFits(n, count);
    hide NodeInvariant, HandleSummary, SameObject;
    FrameInvariant(n, HandleSummary(n, m, suppressed), count);
  }

  lemma RequestKeepsInvariant(n: Node, m: Message, count: nat)
    requires NodeInvariant(n, count) && m.Request?
    ensures NodeInvariant(HandleRequest(n, m), count)
  {
    RequestFrame(n, m);
    TxFits(n, count);
    assert |n.pages| == count;
    hide NodeInvariant, HandleRequest, SameObject;
    FrameInvariant(n, HandleRequest(n, m), count);
  }

  lemma TransitionFrame(n: Node, mode: Mode)
    ensures var r := Transition(n, mode); r == n.(mode := mode, timers := r.timers)
    ensures var r := BeginReceive(n); r == n.(mode := Receive, timers := r.timers) && r.timers.rx
  {
  }

  lemma SummaryFrame(n: Node, m: Message, suppressed: bool)
    requires m.Summary?
    ensures var r := HandleSummary(n, m, suppressed); SameObject(n, r) && r.tx == n.tx && r.txSet == n.txSet
  {
    hide Highest;
  }

  lemma RequestFrame(n: Node, m: Message)
    requires m.Request?
    ensures var r := HandleRequest(n, m);
            && SameObject(n, r)
            && ((r.tx == n.tx && r.txSet == n.txSet)
                || (m.version == n.version && r.txSet <= n.txSet + m.bits && (r.tx.None? || r.tx.value < |n.pages|)))
  {
    hide Highest;
  }

  lemma ProfileKeepsInvariant(n: Node, m: Message, count: nat)
    requires NodeInvariant(n, count) && Plausible(m, count) && m.Profile?
    ensures NodeInvariant(HandleProfile(n, m), count)
  {
    if m.version > n.updateVersion {
      var pages := seq(|n.pages|, i requires 0 <= i < |n.pages| => Outdate(n.pages[i], m.versions[i]));
      var renewed := n.(txSet := {}, pages := pages, rx := HighestFrom(pages, 0), updateVersion := m.version);
      assert NodeInvariant(renewed, count);
      hide NodeInvariant;
      TransitionFrame(renewed, Receive);
      hide BeginReceive;
      FrameInvariant(renewed, BeginReceive(renewed), count) by { TxFits(renewed, count); }
    }
  }

  lemma TxFits(n: Node, count: nat)
    requires NodeInvariant(n, count)
    ensures n.tx.Some? ==> n.tx.value < count || n.txSet == {}
  {
  }

  lemma PacketKeepsInvariant(n: Node, m: Message, count: nat)
    requires NodeInvariant(n, count) && Plausible(m, count) && m.Packet?
    ensures NodeInvariant(HandlePacket(n, m), count)
  {
    if m.page == n.rx {
      var n1 := if m.version != n.version then n.(inconsistent := true) else n;
      FrameInvariant(n, n1, count);
      var n2 := n1.(buffer := n.buffer[m.number := m.payload]);
      BufferKeepsInvariant(n1, n2.buffer, count);
      if !n.pages[n.rx].complete {
        if n.pages[n.rx].packets + {m.number} == ALL_PACKETS {
          FinishKeepsInvariant(n2, m.version, count);
        } else {
          MarkKeepsInvariant(n2, m.number, count);
        }
      }
    }
  }

  lemma BufferKeepsInvariant(n: Node, buffer: seq<Payload>, count: nat)
    requires NodeInvariant(n, count) && |buffer| == N_PKT
    ensures NodeInvariant(n.(buffer := buffer), count)
  {
  }

  lemma MarkKeepsInvariant(n: Node, number: nat, count: nat)
    requires NodeInvariant(n, count) && n.rx < count && !n.pages[n.rx].complete
    requires number in ALL_PACKETS && n.pages[n.rx].packets + {number} != ALL_PACKETS
    ensures NodeInvariant(MarkPacket(n, number), count)
  {
  }

  lemma FinishKeepsInvariant(n: Node, version: nat, count: nat)
    requires NodeInvariant(n, count) && n.rx < count && !n.pages[n.rx].complete
    ensures NodeInvariant(FinishPage(n, version), count)
  {
    FinishFrame(n, version);
    hide FinishPage, Transition;
  }

  /** What the completion of a page leaves, but for the state and its timers. */
  lemma FinishFrame(n: Node, version: nat)
    requires n.rx < |n.pages| == |n.file|
    ensures var r := FinishPage(n, version);
            r == n.(pages := n.pages[n.rx := Page(ALL_PACKETS, true, version)], file := n.file[n.rx := n.buffer],
                    rx := n.rx + 1, version := if n.rx == |n.pages| - 1 then n.updateVersion else n.version,
                    mode := Maintain, timers := r.timers)
  {
  }

  /** The parts of a node that its invariant speaks of are unchanged. */
  predicate SameObject(n: Node, r: Node) {
    && r.version == n.version && r.updateVersion == n.updateVersion
    && r.pages == n.pages && r.file == n.file && r.buffer == n.buffer && r.rx == n.rx
  }

  lemma FrameInvariant(n: Node, r: Node, count: nat)
    requires NodeInvariant(n, count) && SameObject(n, r)
    requires r.tx.Some? ==> r.tx.value < count || r.txSet == {}
    ensures NodeInvariant(r, count)
  {
  }

  lemma TimersKeepInvariant(n: Node, count: nat)
    requires NodeInvariant(n, count)
    ensures n.rx < count ==> NodeInvariant(SendRequest(n), count)
    ensures NodeInvariant(TxCallback(n), count)
    ensures NodeInvariant(SummaryCallback(n), count)
    ensures NodeInvariant(ProfileCallback(n), count)
    ensures NodeInvariant(NewRound(n), count)
  {
    assert |n.pages| == count;
    hide NodeInvariant, SendRequest, TxCallback, SummaryCallback, ProfileCallback, NewRound;
    if n.rx < count {
      RequestTimerKeeps(n, count);
    }
    TransmitTimerKeeps(n, count);
    OtherTimersKeep(n, count);
  }

  lemma RequestTimerKeeps(n: Node, count: nat)
    requires NodeInvariant(n, count) && n.rx < count
    ensures n.rx < |n.pages| && NodeInvariant(SendRequest(n), count)
  {
    TxFits(n, count);
    assert |n.pages| == count;
    hide NodeInvariant;
    RequestTimerFrame(n);
    hide SameObject, SendRequest;
    FrameInvariant(n, SendRequest(n), count);
  }

  lemma TransmitTimerKeeps(n: Node, count: nat)
    requires NodeInvariant(n, count)
    ensures NodeInvariant(TxCallback(n), count)
  {
    TxFits(n, count);
    hide NodeInvariant;
    TimerFrame(n);
    hide SameObject, TxCallback;
    FrameInvariant(n, TxCallback(n), count);
  }

  lemma OtherTimersKeep(n: Node, count: nat)
    requires NodeInvariant(n, count)
    ensures NodeInvariant(SummaryCallback(n), count)
    ensures NodeInvariant(ProfileCallback(n), count)
    ensures NodeInvariant(NewRound(n), count)
  {
    TxFits(n, count);
    hide NodeInvariant;
    TimerFrame(n);
    hide SameObject, SummaryCallback, ProfileCallback, NewRound;
    FrameInvariant(n, SummaryCallback(n), count);
    FrameInvariant(n, ProfileCallback(n), count);
    FrameInvariant(n, NewRound(n), count);
  }

  lemma RequestTimerFrame(n: Node)
    requires n.rx < |n.pages|
    ensures var r := SendRequest(n); SameObject(n, r) && r.tx == n.tx && r.txSet == n.txSet
  {
    TransitionFrame(n.(requests := 0, timers := n.timers.(rx := false)), Maintain);
    hide Transition;
  }

  lemma TimerFrame(n: Node)
    ensures var r := TxCallback(n); SameObject(n, r) && ((r.tx == n.tx && r.txSet == n.txSet) || r.tx.None?)
    ensures var r := SummaryCallback(n); SameObject(n, r) && r.tx == n.tx && r.txSet == n.txSet
    ensures var r := ProfileCallback(n); SameObject(n, r) && r.tx == n.tx && r.txSet == n.txSet
    ensures var r := NewRound(n); SameObject(n, r) && r.tx == n.tx && r.txSet == n.txSet
  {
    TransitionFrame(n.(timers := n.timers.(tx := false), txSet := {}, tx := None), Maintain);
    hide Transition;
  }

  // ------------------------------------------------------------------- network

  /** The nodes, and every message that was ever sent. Messages are never removed from the
      air, so they can arrive late, twice, out of order, anywhere, or not at all. */
  datatype Network = Network(nodes: seq<Node>, air: set<Message>)

  datatype Step =
    | Deliver(node: nat, message: Message, suppressed: bool)
    | RequestTimer(node: nat)
    | TransmitTimer(node: nat)
    | SummaryTimer(node: nat)
    | ProfileTimer(node: nat)
    | RoundTimer(node: nat)

  /** A message can arrive once it was sent, and a timer can expire while it runs. */
  predicate Enabled(w: Network, s: Step) {
    && s.node < |w.nodes|
    && var timers := w.nodes[s.node].timers;
       match s
       case Deliver(_, m, _) => m in w.air
       case RequestTimer(_) => timers.rx
       case TransmitTimer(_) => timers.tx
       case SummaryTimer(_) => timers.summary
       case ProfileTimer(_) => timers.profile
       case RoundTimer(_) => true
  }

  predicate WellFormed(w: Network, count: nat) {
    && (forall i :: 0 <= i < |w.nodes| ==> NodeInvariant(w.nodes[i], count))
    && (forall m :: m in w.air ==> Plausible(m, count))
  }

  /** One step; a step that is not enabled changes nothing. A request is sent only while a real
      page is being received. */
  function Take(w: Network, s: Step, count: nat): Network
    requires WellFormed(w, count)
  {
    if !Enabled(w, s) then w else
    var n := w.nodes[s.node];
    match s
    case Deliver(i, m, suppressed) => w.(nodes := w.nodes[i := Receive1(n, m, suppressed, count)])
    case RequestTimer(i) =>
      if n.rx >= count then w
      else Network(w.nodes[i := SendRequest(n)], w.air + {RequestOf(n)})
    case TransmitTimer(i) => Network(w.nodes[i := TxCallback(n)], w.air + PacketsOf(n))
    case SummaryTimer(i) =>
      Network(w.nodes[i := SummaryCallback(n)],
              w.air + if n.receivedSummaries >= CONST_K then {} else {Summary(n.updateVersion, Highest(n))})
    case ProfileTimer(i) =>
      Network(w.nodes[i := ProfileCallback(n)], w.air + if ProfileDue(n) then {ProfileOf(n)} else {})
    case RoundTimer(i) => w.(nodes := w.nodes[i := NewRound(n)])
  }

  lemma TakeKeepsWellFormed(w: Network, s: Step, count: nat)
    requires WellFormed(w, count)
    ensures WellFormed(Take(w, s, count), count) && |Take(w, s, count).nodes| == |w.nodes|
  {
    if Enabled(w, s) {
      var n := w.nodes[s.node];
      TimersKeepInvariant(n, count);
      if s.Deliver? {
        ReceiveKeepsInvariant(n, s.message, s.suppressed, count);
      }
    }
  }

  /** The network after a run of steps. */
  function Run(w: Network, steps: seq<Step>, count: nat): (r: Network)
    requires WellFormed(w, count)
    ensures WellFormed(r, count) && |r.nodes| == |w.nodes|
    decreases |steps|
  {
    if steps == [] then w else
    TakeKeepsWellFormed(w, steps[0], count);
    Run(Take(w, steps[0], count), steps[1..], count)
  }
}
