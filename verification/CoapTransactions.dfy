/** CoAP transactions: a pool of message buffers, a list of the ones in use, and retransmission with
    doubling intervals (sections 4.2 and 4.8 of RFC 7252). A transaction is opened, answered or
    checked for an expired timer; time passes in between. */
module CoapTransactions {

  const MAX_OPEN: nat := 4
  const MAX_RETRANSMIT: nat := 4

  datatype Option<+T> = None | Some(value: T)

  /** A transaction in use. `uid` tells it from all others, `own` says that its creator set a
      callback, `leftover` is what the callback field of its buffer held before, and `sends` lists
      the times at which its message was sent. */
  datatype Transaction = Transaction(
    uid: nat, block: nat, mid: nat, confirmable: bool, own: bool, leftover: Option<nat>,
    counter: nat, first: nat, interval: nat, due: nat, sends: seq<nat>)

  datatype How = Answered | TimedOut | Unreliable

  /** A transaction that is over, with the creator of the callback that was called for it. */
  datatype Ended = Ended(t: Transaction, how: How, called: Option<nat>)

  /** The callback field and the reference count of each buffer, which memb_alloc leaves as they
      were, the list, and the history. */
  datatype State = State(callbacks: seq<Option<nat>>, used: seq<bool>, list: seq<Transaction>,
                         ended: seq<Ended>, born: nat, now: nat)

  predicate Shaped(s: State) {
    && |s.callbacks| == |s.used| == MAX_OPEN
    && (forall i :: 0 <= i < |s.list| ==> s.list[i].block < MAX_OPEN)
  }

  // ------------------------------------------------------------- operations

  function FirstFree(used: seq<bool>, i: nat): (b: nat)
    requires i <= |used|
    ensures i <= b <= |used| && (b < |used| ==> !used[b])
    decreases |used| - i
  {
    if i == |used| || !used[i] then i else FirstFree(used, i + 1)
  }

  /** coap_clear_transaction, as the end of the transaction at place `i`. */
  function Cleared(s: State, i: nat, how: How, called: Option<nat>): (r: State)
    requires Shaped(s) && i < |s.list|
    ensures Shaped(r)
  {
    var t := s.list[i];
    s.(used := s.used[t.block := false], list := s.list[..i] + s.list[i + 1..],
       ended := s.ended + [Ended(t, how, called)])
  }

  /** The transaction once its message is sent again or for the first time and its timer restarted. */
  function Restarted(t: Transaction, now: nat): (r: Transaction) {
    var interval := if t.counter == 0 then t.first else 2 * t.interval;
    t.(interval := interval, due := now + interval, sends := t.sends + [now])
  }

  /** coap_send_transaction for the transaction at place `i`. */
  function SendTransaction(s: State, i: nat): (r: State)
    requires Shaped(s) && i < |s.list|
    ensures Shaped(r)
  {
    var t := s.list[i];
    var sent := t.(sends := t.sends + [s.now]);
    if !t.confirmable then Cleared(s.(list := s.list[i := sent]), i, Unreliable, None)
    else if t.counter < MAX_RETRANSMIT then s.(list := s.list[i := Restarted(t, s.now)])
    else Cleared(s.(list := s.list[i := sent]), i, TimedOut, s.callbacks[t.block])
  }

  /** The state with a new transaction in buffer `b`, before its message is sent. */
  function Added(s: State, b: nat, mid: nat, confirmable: bool, own: bool, first: nat): (r: State)
    requires Shaped(s) && b < MAX_OPEN
    ensures Shaped(r) && |r.list| == |s.list| + 1
  {
    var t := Transaction(s.born, b, mid, confirmable, own, s.callbacks[b], 0, first, 0, 0, []);
    var callbacks := if own then s.callbacks[b := Some(s.born)] else s.callbacks;
    s.(callbacks := callbacks, used := s.used[b := true], list := s.list + [t], born := s.born + 1)
  }

  /** coap_new_transaction, the creator's callback if it sets one, and coap_send_transaction with a
      first interval. */
  function Open(s: State, mid: nat, confirmable: bool, own: bool, first: nat): (r: State)
    requires Shaped(s)
    ensures Shaped(r)
  {
    var b := FirstFree(s.used, 0);
    if b == MAX_OPEN then s
    else SendTransaction(Added(s, b, mid, confirmable, own, first), |s.list|)
  }

  function FindMid(list: seq<Transaction>, mid: nat, i: nat): (r: nat)
    requires i <= |list|
    ensures i <= r <= |list|
    decreases |list| - i
  {
    if i == |list| || list[i].mid == mid then i else FindMid(list, mid, i + 1)
  }

  /** What coap_receive does with a message that is no request: the first transaction with its
      identifier is over, and its callback is called. */
  function Reply(s: State, mid: nat): (r: State)
    requires Shaped(s)
    ensures Shaped(r)
  {
    var i := FindMid(s.list, mid, 0);
    if i == |s.list| then s else Cleared(s, i, Answered, s.callbacks[s.list[i].block])
  }

  predicate Expired(s: State, i: nat, posted: set<nat>)
    requires i < |s.list|
  {
    s.list[i].uid in posted && s.now >= s.list[i].due
  }

  function Counted(s: State, i: nat): (r: State)
    requires Shaped(s) && i < |s.list|
    ensures Shaped(r)
  {
    s.(list := s.list[i := s.list[i].(counter := s.list[i].counter + 1)])
  }

  /** coap_check_transactions from place `i` of the list on, where `posted` are the transactions whose
      timer event was posted. Clearing a transaction cuts its link, which ends the walk. */
  function CheckFrom(s: State, i: nat, posted: set<nat>): (r: State)
    requires Shaped(s) && i <= |s.list|
    ensures Shaped(r)
    decreases |s.list| - i
  {
    if i == |s.list| then s
    else if !Expired(s, i, posted) then CheckFrom(s, i + 1, posted)
    else
      var s' := SendTransaction(Counted(s, i), i);
      if |s'.list| < |s.list| then s' else CheckFrom(s', i + 1, posted)
  }

  datatype Step =
    | Opens(mid: nat, confirmable: bool, own: bool, first: nat)
    | Replied(mid: nat)
    | Checks(posted: set<nat>)
    | Passes(time: nat)

  function Take(s: State, step: Step): (r: State)
    requires Shaped(s)
    ensures Shaped(r)
  {
    match step
    case Opens(mid, confirmable, own, first) => Open(s, mid, confirmable, own, first)
    case Replied(mid) => Reply(s, mid)
    case Checks(posted) => CheckFrom(s, 0, posted)
    case Passes(time) => s.(now := s.now + time)
  }

  function Run(s: State, steps: seq<Step>): (r: State)
    requires Shaped(s)
    ensures Shaped(r)
    decreases |steps|
  {
    if steps == [] then s else Run(Take(s, steps[0]), steps[1..])
  }

  const Initial: State :=
    State([None, None, None, None], [false, false, false, false], [], [], 0, 0)

  // ------------------------------------------------------------- invariants

  /** The first interval doubled `k` times. */
  function Doubled(first: nat, k: nat): (r: nat) {
    if k == 0 then first else 2 * Doubled(first, k - 1)
  }

  /** Each message follows the one before by at least the interval then due. */
  predicate Spaced(sends: seq<nat>, first: nat) {
    forall k :: 0 <= k < |sends| - 1 ==> sends[k + 1] >= sends[k] + Doubled(first, k)
  }

  predicate TransactionOk(s: State, t: Transaction) {
    && t.block < |s.callbacks| == |s.used| && t.uid < s.born
    && s.used[t.block]
    && t.confirmable && t.counter < MAX_RETRANSMIT && |t.sends| == t.counter + 1
    && t.interval == Doubled(t.first, t.counter)
    && t.due == t.sends[t.counter] + t.interval
    && Spaced(t.sends, t.first)
    && s.callbacks[t.block] == (if t.own then Some(t.uid) else t.leftover)
  }

  /** How a transaction may end: answered while it still had a retransmission, after all of them, or
      after the only message of an unreliable one; and the callback that is called then is its own, or
      what its buffer held when its creator set none. */
  predicate EndedOk(s: State, e: Ended) {
    var t := e.t;
    && t.uid < s.born
    && Spaced(t.sends, t.first)
    && (e.how == Answered ==> t.confirmable && 1 <= |t.sends| <= MAX_RETRANSMIT)
    && (e.how == TimedOut ==> t.confirmable && |t.sends| == MAX_RETRANSMIT + 1)
    && (e.how == Unreliable ==> !t.confirmable && |t.sends| == 1)
    && e.called == (if e.how == Unreliable then None else if t.own then Some(t.uid) else t.leftover)
  }

  function CountUsed(used: seq<bool>): (n: nat) {
    if used == [] then 0 else (if used[0] then 1 else 0) + CountUsed(used[1..])
  }

  predicate Apart(t: Transaction, u: Transaction) { t.block != u.block && t.uid != u.uid }

  /** The invariant, but for the transaction at place `skip`. */
  ghost predicate InvariantBut(s: State, skip: int) {
    && Shaped(s)
    && (forall i :: 0 <= i < |s.list| && i != skip ==> TransactionOk(s, s.list[i]))
    && (forall i, j :: 0 <= i < j < |s.list| ==> Apart(s.list[i], s.list[j]))
    && (forall i :: 0 <= i < |s.ended| ==> EndedOk(s, s.ended[i]))
    && (forall i, j :: 0 <= i < j < |s.ended| ==> s.ended[i].t.uid != s.ended[j].t.uid)
    && (forall i, j :: 0 <= i < |s.list| && 0 <= j < |s.ended| ==> s.list[i].uid != s.ended[j].t.uid)
    && |s.list| + |s.ended| == s.born
    && CountUsed(s.used) == |s.list|
  }

  ghost predicate Invariant(s: State) { InvariantBut(s, -1) }

  lemma {:induction false} CountSet(used: seq<bool>, b: nat, value: bool)
    requires b < |used|
    ensures CountUsed(used[b := value]) ==
      CountUsed(used) + (if value then 1 else 0) - (if used[b] then 1 else 0)
  {
    if b == 0 {
      assert used[b := value][1..] == used[1..];
    } else {
      assert used[b := value][1..] == used[1..][b - 1 := value];
      CountSet(used[1..], b - 1, value);
    }
  }

  /** A transaction whose message is due: as many messages as its counter says were sent, the last of
      them long enough ago. */
  predicate Ready(s: State, t: Transaction) {
    && t.block < |s.callbacks| == |s.used| && t.uid < s.born && s.used[t.block]
    && t.counter <= MAX_RETRANSMIT && |t.sends| == t.counter
    && Spaced(t.sends, t.first)
    && (t.counter > 0 ==>
          && t.confirmable && t.interval == Doubled(t.first, t.counter - 1)
          && s.now >= t.sends[t.counter - 1] + t.interval)
    && s.callbacks[t.block] == (if t.own then Some(t.uid) else t.leftover)
  }

  lemma SpacedNext(s: State, t: Transaction)
    requires Ready(s, t)
    ensures Spaced(t.sends + [s.now], t.first)
  {
    var sends := t.sends + [s.now];
    forall k | 0 <= k < |sends| - 1 ensures sends[k + 1] >= sends[k] + Doubled(t.first, k) {
      hide Doubled;
      if k < |t.sends| - 1 {
        assert t.sends[k + 1] >= t.sends[k] + Doubled(t.first, k);
      }
    }
  }

  lemma RestartKeeps(s: State, i: nat)
    requires i < |s.list| && InvariantBut(s, i) && Ready(s, s.list[i])
    requires s.list[i].confirmable && s.list[i].counter < MAX_RETRANSMIT
    ensures Invariant(s.(list := s.list[i := Restarted(s.list[i], s.now)]))
  {
    var t := s.list[i];
    var r := s.(list := s.list[i := Restarted(t, s.now)]);
    SpacedNext(s, t);
    hide Spaced;
    forall j | 0 <= j < |r.list| ensures TransactionOk(r, r.list[j]) {
      if j != i {
        assert TransactionOk(s, s.list[j]);
      }
    }
    forall j | 0 <= j < |r.ended| ensures EndedOk(r, r.ended[j]) {
      assert EndedOk(s, s.ended[j]);
    }
    hide TransactionOk, EndedOk;
    forall j, k | 0 <= j < k < |r.list| ensures Apart(r.list[j], r.list[k]) {
      assert Apart(s.list[j], s.list[k]);
    }
  }

  lemma ClearKeeps(s: State, i: nat, how: How, called: Option<nat>)
    requires i < |s.list| && InvariantBut(s, i) && EndedOk(s, Ended(s.list[i], how, called))
    requires s.used[s.list[i].block]
    ensures Invariant(Cleared(s, i, how, called))
  {
    var t := s.list[i];
    var r := Cleared(s, i, how, called);
    CountSet(s.used, t.block, false);
    hide CountUsed;
    forall j | 0 <= j < |r.list| ensures TransactionOk(r, r.list[j]) {
      var k := if j < i then j else j + 1;
      assert TransactionOk(s, s.list[k]) && r.list[j] == s.list[k];
      assert Apart(s.list[if k < i then k else i], s.list[if k < i then i else k]);
      hide Spaced, Doubled;
    }
    forall j | 0 <= j < |r.ended| ensures EndedOk(r, r.ended[j]) {
      assert j < |s.ended| ==> EndedOk(s, s.ended[j]);
      hide Spaced;
    }
    hide TransactionOk, EndedOk;
    ClearApart(s, i, how, called);
  }

  lemma ClearApart(s: State, i: nat, how: How, called: Option<nat>)
    requires i < |s.list| && InvariantBut(s, i)
    ensures var r := Cleared(s, i, how, called);
            && (forall j, k :: 0 <= j < k < |r.list| ==> Apart(r.list[j], r.list[k]))
            && (forall j, k :: 0 <= j < k < |r.ended| ==> r.ended[j].t.uid != r.ended[k].t.uid)
            && (forall j, k :: 0 <= j < |r.list| && 0 <= k < |r.ended| ==> r.list[j].uid != r.ended[k].t.uid)
  {
    var r := Cleared(s, i, how, called);
    hide TransactionOk, EndedOk, CountUsed;
    assert forall j :: 0 <= j < |r.list| ==> r.list[j] == s.list[if j < i then j else j + 1];
    forall j, k | 0 <= j < k < |r.list| ensures Apart(r.list[j], r.list[k]) {
      assert Apart(s.list[if j < i then j else j + 1], s.list[if k < i then k else k + 1]);
    }
    forall j, k | 0 <= j < |r.list| && 0 <= k < |r.ended| ensures r.list[j].uid != r.ended[k].t.uid {
      var m := if j < i then j else j + 1;
      assert Apart(s.list[if m < i then m else i], s.list[if m < i then i else m]);
    }
  }

  lemma SendKeeps(s: State, i: nat)
    requires i < |s.list| && InvariantBut(s, i) && Ready(s, s.list[i])
    ensures Invariant(SendTransaction(s, i))
    ensures |SendTransaction(s, i).list| >= |s.list| ==> |SendTransaction(s, i).list| == |s.list|
  {
    var t := s.list[i];
    if t.confirmable && t.counter < MAX_RETRANSMIT {
      RestartKeeps(s, i);
    } else {
      var sent := t.(sends := t.sends + [s.now]);
      var s' := s.(list := s.list[i := sent]);
      SpacedNext(s, t);
      SentStays(s, i, sent);
      hide InvariantBut, Spaced;
      if t.confirmable {
        ClearKeeps(s', i, TimedOut, s.callbacks[t.block]);
      } else {
        ClearKeeps(s', i, Unreliable, None);
      }
    }
  }

  lemma SentStays(s: State, i: nat, t: Transaction)
    requires i < |s.list| && InvariantBut(s, i) && t.uid == s.list[i].uid && t.block == s.list[i].block
    ensures InvariantBut(s.(list := s.list[i := t]), i)
  {
    var r := s.(list := s.list[i := t]);
    hide CountUsed;
    forall j | 0 <= j < |r.list| && j != i ensures TransactionOk(r, r.list[j]) {
      assert TransactionOk(s, s.list[j]);
      hide Spaced, Doubled;
    }
    forall j | 0 <= j < |r.ended| ensures EndedOk(r, r.ended[j]) {
      assert EndedOk(s, s.ended[j]);
      hide Spaced;
    }
    hide TransactionOk, EndedOk;
    forall j, k | 0 <= j < k < |r.list| ensures Apart(r.list[j], r.list[k]) {
      assert Apart(s.list[j], s.list[k]);
    }
  }

  lemma AddedApart(s: State, b: nat, mid: nat, confirmable: bool, own: bool, first: nat)
    requires Invariant(s) && b < MAX_OPEN && !s.used[b]
    ensures var r := Added(s, b, mid, confirmable, own, first);
            && (forall j, k :: 0 <= j < k < |r.list| ==> Apart(r.list[j], r.list[k]))
            && (forall i, j :: 0 <= i < |r.list| && 0 <= j < |r.ended| ==> r.list[i].uid != r.ended[j].t.uid)
  {
    var r := Added(s, b, mid, confirmable, own, first);
    hide CountUsed, Spaced, Doubled;
    forall j, k | 0 <= j < k < |r.list| ensures Apart(r.list[j], r.list[k]) {
      assert TransactionOk(s, s.list[j]);
      assert k < |s.list| ==> Apart(s.list[j], s.list[k]);
    }
    forall i, j | 0 <= i < |r.list| && 0 <= j < |r.ended| ensures r.list[i].uid != r.ended[j].t.uid {
      assert EndedOk(s, s.ended[j]);
    }
  }

  lemma AddedKeeps(s: State, b: nat, mid: nat, confirmable: bool, own: bool, first: nat)
    requires Invariant(s) && b < MAX_OPEN && !s.used[b]
    ensures var r := Added(s, b, mid, confirmable, own, first);
            InvariantBut(r, |s.list|) && Ready(r, r.list[|s.list|])
  {
    var r := Added(s, b, mid, confirmable, own, first);
    CountSet(s.used, b, true);
    AddedApart(s, b, mid, confirmable, own, first);
    assert Ready(r, r.list[|s.list|]);
    hide CountUsed, Spaced, Doubled, Apart;
    forall j | 0 <= j < |r.list| && j != |s.list| ensures TransactionOk(r, r.list[j]) {
      assert TransactionOk(s, s.list[j]);
    }
    forall j | 0 <= j < |r.ended| ensures EndedOk(r, r.ended[j]) {
      assert EndedOk(s, s.ended[j]);
    }
  }

  lemma OpenKeeps(s: State, mid: nat, confirmable: bool, own: bool, first: nat)
    requires Invariant(s) && Shaped(s)
    ensures Invariant(Open(s, mid, confirmable, own, first))
  {
    hide InvariantBut, Ready, SendTransaction;
    var b := FirstFree(s.used, 0);
    if b < MAX_OPEN {
      AddedKeeps(s, b, mid, confirmable, own, first);
      SendKeeps(Added(s, b, mid, confirmable, own, first), |s.list|);
    }
  }

  lemma ReplyKeeps(s: State, mid: nat)
    requires Invariant(s)
    ensures Invariant(Reply(s, mid))
  {
    var i := FindMid(s.list, mid, 0);
    if i < |s.list| {
      assert TransactionOk(s, s.list[i]);
      hide Spaced, Doubled;
      ClearKeeps(s, i, Answered, s.callbacks[s.list[i].block]);
    }
  }

  /** An expired transaction is ready for its next message, once it is counted. */
  lemma CountedIsReady(s: State, i: nat)
    requires i < |s.list| && Invariant(s) && s.now >= s.list[i].due
    ensures InvariantBut(Counted(s, i), i) && Ready(Counted(s, i), Counted(s, i).list[i])
  {
    assert TransactionOk(s, s.list[i]);
    SentStays(s, i, Counted(s, i).list[i]);
    hide Spaced, Doubled;
  }

  lemma {:induction false} CheckKeeps(s: State, i: nat, posted: set<nat>)
    requires Invariant(s) && i <= |s.list|
    ensures Invariant(CheckFrom(s, i, posted))
    decreases |s.list| - i
  {
    if i < |s.list| {
      if Expired(s, i, posted) {
        CountedIsReady(s, i);
        hide InvariantBut, Ready;
        SendKeeps(Counted(s, i), i);
        var s' := SendTransaction(Counted(s, i), i);
        hide SendTransaction;
        if |s'.list| >= |s.list| {
          CheckKeeps(s', i + 1, posted);
        }
      } else {
        CheckKeeps(s, i + 1, posted);
      }
    }
  }

  lemma PassKeeps(s: State, time: nat)
    requires Invariant(s)
    ensures Invariant(s.(now := s.now + time))
  {
    var r := s.(now := s.now + time);
    forall j | 0 <= j < |r.list| ensures TransactionOk(r, r.list[j]) {
      assert TransactionOk(s, s.list[j]);
      hide Spaced, Doubled;
    }
    forall j | 0 <= j < |r.ended| ensures EndedOk(r, r.ended[j]) {
      assert EndedOk(s, s.ended[j]);
      hide Spaced;
    }
  }

  lemma TakeKeeps(s: State, step: Step)
    requires Invariant(s)
    ensures Invariant(Take(s, step))
  {
    if step.Opens? {
      OpenKeeps(s, step.mid, step.confirmable, step.own, step.first);
    } else if step.Replied? {
      ReplyKeeps(s, step.mid);
    } else if step.Checks? {
      CheckKeeps(s, 0, step.posted);
    } else {
      PassKeeps(s, step.time);
    }
  }

  lemma {:induction false} RunKeeps(s: State, steps: seq<Step>)
    requires Invariant(s)
    ensures Invariant(Run(s, steps))
    decreases |steps|
  {
    if steps != [] {
      TakeKeeps(s, steps[0]);
      hide Invariant, Take;
      RunKeeps(Take(s, steps[0]), steps[1..]);
    }
  }

  lemma InitialIsInvariant()
    ensures Invariant(Initial)
  {
  }

  // ------------------------------------------------------------ main results

  /** memb_numfree. */
  function CountFree(used: seq<bool>): (n: nat) {
    if used == [] then 0 else (if used[0] then 0 else 1) + CountFree(used[1..])
  }

  lemma {:induction false} UsedAndFree(used: seq<bool>)
    ensures CountUsed(used) + CountFree(used) == |used|
  {
    if used != [] {
      UsedAndFree(used[1..]);
    }
  }

  /** Over all runs, the transactions in use and the free buffers are as many as the pool has, and
      every transaction ever opened is in use or over, never both and never twice. */
  lemma PoolIsConserved(steps: seq<Step>)
    ensures var s := Run(Initial, steps);
            && |s.list| + CountFree(s.used) == MAX_OPEN
            && |s.list| + |s.ended| == s.born
            && (forall i, j :: 0 <= i < |s.list| && 0 <= j < |s.ended| ==> s.list[i].uid != s.ended[j].t.uid)
            && (forall i, j :: 0 <= i < j < |s.ended| ==> s.ended[i].t.uid != s.ended[j].t.uid)
  {
    InitialIsInvariant();
    RunKeeps(Initial, steps);
    UsedAndFree(Run(Initial, steps).used);
    hide Run, CountUsed, CountFree;
  }

  lemma {:induction false} SpacedFromFirst(sends: seq<nat>, first: nat, k: nat)
    requires Spaced(sends, first) && k < |sends|
    ensures sends[k] + first >= sends[0] + Doubled(first, k)
  {
    if k > 0 {
      SpacedFromFirst(sends, first, k - 1);
      assert sends[k - 1 + 1] >= sends[k - 1] + Doubled(first, k - 1);
    }
  }

  /** The doubled interval is the power of two times the first. */
  lemma {:induction false} DoubledIsPower(first: nat, k: nat)
    ensures Doubled(first, k) == Power(k) * first
  {
    if k > 0 {
      DoubledIsPower(first, k - 1);
      assert Power(k) * first == 2 * (Power(k - 1) * first);
    }
  }

  function Power(k: nat): (p: nat)
    ensures p >= 1
  {
    if k == 0 then 1 else 2 * Power(k - 1)
  }

  /** In every run, a transaction that is over after its last timeout was sent MAX_RETRANSMIT + 1
      times, one that was answered no more than MAX_RETRANSMIT times, an unreliable one once; and the
      k-th message after the first follows it by at least 2^k - 1 first intervals. */
  lemma RetransmissionSchedule(steps: seq<Step>, i: nat, k: nat)
    requires i < |Run(Initial, steps).ended|
    requires k < |Run(Initial, steps).ended[i].t.sends|
    ensures var e := Run(Initial, steps).ended[i];
            && (e.how == TimedOut ==> |e.t.sends| == MAX_RETRANSMIT + 1)
            && (e.how == Answered ==> |e.t.sends| <= MAX_RETRANSMIT)
            && (e.how == Unreliable <==> !e.t.confirmable)
            && (!e.t.confirmable ==> |e.t.sends| == 1)
            && e.t.sends[k] >= e.t.sends[0] + (Power(k) - 1) * e.t.first
  {
    InitialIsInvariant();
    RunKeeps(Initial, steps);
    var s := Run(Initial, steps);
    hide Run;
    assert EndedOk(s, s.ended[i]);
    hide InvariantBut;
    ScheduleOf(s, s.ended[i], k);
  }

  lemma ScheduleOf(s: State, e: Ended, k: nat)
    requires EndedOk(s, e) && k < |e.t.sends|
    ensures e.t.sends[k] >= e.t.sends[0] + (Power(k) - 1) * e.t.first
  {
    var t := e.t;
    SpacedFromFirst(t.sends, t.first, k);
    DoubledIsPower(t.first, k);
    hide EndedOk, Power;
    assert (Power(k) - 1) * t.first == Power(k) * t.first - t.first;
  }

  /** Of a confirmable transaction that is over, the callback that was called is the one its creator
      set and no other, exactly when its creator set one or its buffer held none. */
  lemma CallsOwnCallback(steps: seq<Step>, i: nat)
    requires i < |Run(Initial, steps).ended|
    ensures var e := Run(Initial, steps).ended[i];
            && (e.how == Unreliable ==> e.called == None)
            && (e.how != Unreliable ==>
                  (e.called == (if e.t.own then Some(e.t.uid) else None) <==> e.t.own || e.t.leftover == None))
  {
    InitialIsInvariant();
    RunKeeps(Initial, steps);
    var s := Run(Initial, steps);
    hide Run;
    assert EndedOk(s, s.ended[i]);
  }

  /** When every transaction had a callback of its own or a buffer without one, no callback is called
      twice. */
  lemma CallbacksCalledOnce(steps: seq<Step>, i: nat, j: nat)
    requires i < j < |Run(Initial, steps).ended|
    requires forall k :: 0 <= k < |Run(Initial, steps).ended| ==>
      Run(Initial, steps).ended[k].t.own || Run(Initial, steps).ended[k].t.leftover == None
    ensures var s := Run(Initial, steps);
            s.ended[i].called.Some? ==> s.ended[i].called != s.ended[j].called
  {
    InitialIsInvariant();
    RunKeeps(Initial, steps);
    var s := Run(Initial, steps);
    hide Run;
    assert EndedOk(s, s.ended[i]) && EndedOk(s, s.ended[j]);
  }

  lemma StaleOpening(s: State, first: nat)
    requires Shaped(s) && s.list == [] && s.used == [false, false, false, false] && s.callbacks[0] == Some(0)
    ensures var r := Open(s, 8, true, false, first);
            && |r.list| == 1 && r.list[0].mid == 8 && r.list[0].block == 0 && r.callbacks == s.callbacks
            && r.ended == s.ended
  {
    assert FirstFree(s.used, 0) == 0;
  }

  /** A transaction without a callback calls the one that its buffer was last used with, a second
      time: the field is not cleared. */
  lemma StaleCallbackCalledTwice(first: nat)
    ensures var s := Run(Initial, [Opens(7, true, true, first), Replied(7), Opens(8, true, false, first), Replied(8)]);
            |s.ended| == 2 && s.ended[0].called == s.ended[1].called == Some(0) && !s.ended[1].t.own
  {
    var step1, step2 := Opens(7, true, true, first), Replied(7);
    var step3, step4 := Opens(8, true, false, first), Replied(8);
    var s1 := Take(Initial, step1);
    assert FirstFree(Initial.used, 0) == 0;
    assert s1.list[0].mid == 7 && |s1.list| == 1 && s1.callbacks[0] == Some(0);
    var s2 := Take(s1, step2);
    assert s2.list == [] && |s2.ended| == 1 && s2.ended[0].called == Some(0) && s2.used == [false, false, false, false];
    StaleOpening(s2, first);
    var s3 := Take(s2, step3);
    hide Open;
    var s4 := Take(s3, step4);
    assert |s4.ended| == 2 && s4.ended[1].called == Some(0);
    RunFour(Initial, step1, step2, step3, step4);
  }

  lemma RunFour(s: State, a: Step, b: Step, c: Step, d: Step)
    requires Shaped(s)
    ensures Run(s, [a, b, c, d]) == Take(Take(Take(Take(s, a), b), c), d)
  {
    hide Take, Shaped;
    assert [a, b, c, d][1..] == [b, c, d] && [b, c, d][1..] == [c, d] && [c, d][1..] == [d] && [d][1..] == [];
    var s3 := Take(Take(Take(s, a), b), c);
    assert Run(s3, [d]) == Run(Take(s3, d), []);
    assert Run(Take(Take(s, a), b), [c, d]) == Run(s3, [d]);
    assert Run(Take(s, a), [b, c, d]) == Run(Take(Take(s, a), b), [c, d]);
  }

  // ---------------------------------------------------------------- progress

  /** How many timeouts the transactions in use still have. */
  function Left(list: seq<Transaction>): (n: nat) {
    if list == [] then 0
    else (if list[0].counter < MAX_RETRANSMIT then MAX_RETRANSMIT - list[0].counter else 0) + Left(list[1..])
  }

  function LeftOf(t: Transaction): (n: nat) {
    if t.counter < MAX_RETRANSMIT then MAX_RETRANSMIT - t.counter else 0
  }

  lemma {:induction false} LeftSplits(list: seq<Transaction>, i: nat)
    requires i < |list|
    ensures Left(list) == Left(list[..i]) + LeftOf(list[i]) + Left(list[i + 1..])
  {
    if i == 0 {
      assert list[..i] == [];
    } else {
      LeftSplits(list[1..], i - 1);
      assert list[..i][1..] == list[1..][..i - 1] && list[1..][i..] == list[i + 1..];
    }
  }

  lemma {:induction false} LeftJoins(a: seq<Transaction>, b: seq<Transaction>)
    ensures Left(a + b) == Left(a) + Left(b)
  {
    if a == [] {
      assert a + b == b;
    } else {
      LeftJoins(a[1..], b);
      assert (a + b)[1..] == a[1..] + b;
    }
  }

  /** All that ends is added behind, as timed out. */
  predicate OnlyTimeouts(before: seq<Ended>, after: seq<Ended>) {
    && |before| <= |after|
    && (forall k :: 0 <= k < |before| ==> after[k] == before[k])
    && (forall k :: |before| <= k < |after| ==> after[k].how == TimedOut)
  }

  lemma TimeoutUsesOne(s: State, i: nat)
    requires Invariant(s) && i < |s.list|
    ensures var r := SendTransaction(Counted(s, i), i);
            && Left(r.list) < Left(s.list)
            && OnlyTimeouts(s.ended, r.ended)
            && (|r.list| >= |s.list| ==>
                  && |r.list| == |s.list| && r.now == s.now && r.born == s.born
                  && forall k :: i < k < |s.list| ==> r.list[k] == s.list[k])
  {
    var r := SendTransaction(Counted(s, i), i);
    assert TransactionOk(s, s.list[i]);
    hide InvariantBut, Spaced, Doubled;
    LeftSplits(s.list, i);
    if |r.list| == |s.list| {
      LeftSplits(r.list, i);
      assert r.list[..i] == s.list[..i] && r.list[i + 1..] == s.list[i + 1..];
    } else {
      assert r.list == s.list[..i] + s.list[i + 1..];
      LeftJoins(s.list[..i], s.list[i + 1..]);
    }
  }

  /** A check in which some timer has expired uses up a timeout, and ends nothing in any other way. */
  lemma {:induction false} CheckProgresses(s: State, i: nat, posted: set<nat>)
    requires Invariant(s) && i <= |s.list|
    ensures var r := CheckFrom(s, i, posted);
            && Left(r.list) <= Left(s.list) && OnlyTimeouts(s.ended, r.ended)
            && ((exists j :: i <= j < |s.list| && Expired(s, j, posted)) ==> Left(r.list) < Left(s.list))
    decreases |s.list| - i
  {
    if i < |s.list| {
      if Expired(s, i, posted) {
        TimeoutUsesOne(s, i);
        CountedIsReady(s, i);
        SendKeeps(Counted(s, i), i);
        hide InvariantBut, SendTransaction, Left, Ready;
        var s' := SendTransaction(Counted(s, i), i);
        if |s'.list| >= |s.list| {
          CheckProgresses(s', i + 1, posted);
        }
      } else {
        hide InvariantBut, SendTransaction, Left;
        CheckProgresses(s, i + 1, posted);
      }
    }
  }

  function Everyone(born: nat): (uids: set<nat>) {
    if born == 0 then {} else {born - 1} + Everyone(born - 1)
  }

  lemma {:induction false} EveryoneIsPosted(born: nat, uid: nat)
    requires uid < born
    ensures uid in Everyone(born)
  {
    if uid < born - 1 {
      EveryoneIsPosted(born - 1, uid);
    }
  }

  /** Waiting for some time, and a check when every timer event has been posted. */
  function Quiet(s: State, waits: seq<nat>): (r: State)
    requires Shaped(s)
    ensures Shaped(r)
    decreases |waits|
  {
    if waits == [] then s else
    var late := Take(s, Passes(waits[0]));
    Quiet(Take(late, Checks(Everyone(late.born))), waits[1..])
  }

  /** Each wait reaches the due times of all transactions then in use. */
  predicate LongWaits(s: State, waits: seq<nat>)
    requires Shaped(s)
    decreases |waits|
  {
    waits == [] ||
    var late := Take(s, Passes(waits[0]));
    && (forall i :: 0 <= i < |late.list| ==> late.now >= late.list[i].due)
    && LongWaits(Take(late, Checks(Everyone(late.born))), waits[1..])
  }

  lemma NothingLeft(s: State)
    requires Invariant(s)
    ensures Left(s.list) == 0 <==> s.list == []
  {
    if s.list != [] {
      assert TransactionOk(s, s.list[0]);
    }
  }

  /** Without replies, after as many long waits as there are timeouts left, every transaction that was
      in use is over, and every one of them timed out. */
  lemma {:induction false} UnansweredTimesOut(s: State, waits: seq<nat>)
    requires Invariant(s) && Shaped(s) && LongWaits(s, waits) && |waits| >= Left(s.list)
    ensures Quiet(s, waits).list == [] && OnlyTimeouts(s.ended, Quiet(s, waits).ended)
    decreases |waits|
  {
    hide InvariantBut, Left, Everyone, Take, Shaped, OnlyTimeouts;
    NothingLeft(s);
    if waits != [] {
      RoundTimesOut(s, waits[0]);
      var late := Take(s, Passes(waits[0]));
      var next := Take(late, Checks(Everyone(late.born)));
      UnansweredTimesOut(next, waits[1..]);
      TimeoutsTogether(s.ended, next.ended, Quiet(next, waits[1..]).ended);
    } else {
      NoTimeouts(s.ended);
    }
  }

  lemma NoTimeouts(ended: seq<Ended>)
    ensures OnlyTimeouts(ended, ended)
  {
  }

  lemma TimeoutsTogether(a: seq<Ended>, b: seq<Ended>, c: seq<Ended>)
    requires OnlyTimeouts(a, b) && OnlyTimeouts(b, c)
    ensures OnlyTimeouts(a, c)
  {
  }

  /** A wait that reaches all due times, and a check: some timeouts are used up, unless nothing is left. */
  lemma RoundTimesOut(s: State, wait: nat)
    requires Invariant(s) && Shaped(s)
    requires var late := Take(s, Passes(wait)); forall i :: 0 <= i < |late.list| ==> late.now >= late.list[i].due
    ensures var late := Take(s, Passes(wait));
            var next := Take(late, Checks(Everyone(late.born)));
            && Invariant(next) && Shaped(next) && OnlyTimeouts(s.ended, next.ended)
            && Left(next.list) <= Left(s.list) && (Left(s.list) > 0 ==> Left(next.list) < Left(s.list))
  {
    hide Spaced, Doubled, Everyone, Apart, EndedOk;
    var late := Take(s, Passes(wait));
    var posted := Everyone(late.born);
    PassKeeps(s, wait);
    CheckProgresses(late, 0, posted);
    CheckKeeps(late, 0, posted);
    NothingLeft(late);
    if late.list != [] {
      assert TransactionOk(late, late.list[0]);
      EveryoneIsPosted(late.born, late.list[0].uid);
      assert Expired(late, 0, posted);
    }
  }
}
