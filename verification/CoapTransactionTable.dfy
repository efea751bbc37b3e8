/** The transaction layer as it works in place: the pool, the list and the walk over it. */
module CoapTransactionTable {
  import opened CoapTransactions

  class Table {
    const callbacks: array<Option<nat>>
    const used: array<bool>
    var list: seq<Transaction>
    var ended: seq<Ended>
    var born: nat
    var now: nat

    function View(): State
      reads this, callbacks, used
    {
      State(callbacks[..], used[..], list, ended, born, now)
    }

    ghost predicate Valid()
      reads this, callbacks, used
    {
      Shaped(View())
    }

    constructor ()
      ensures Valid() && View() == Initial && fresh(callbacks) && fresh(used)
    {
      callbacks := new Option<nat>[MAX_OPEN](_ => None);
      used := new bool[MAX_OPEN](_ => false);
      list, ended, born, now := [], [], 0, 0;
      new;
      assert callbacks[..] == Initial.callbacks && used[..] == Initial.used;
    }

    /** memb_alloc: the first free buffer, or none. */
    method Alloc() returns (b: nat)
      requires Valid()
      modifies used
      ensures Valid() && b == FirstFree(old(used[..]), 0)
      ensures used[..] == if b == MAX_OPEN then old(used[..]) else old(used[..])[b := true]
    {
      b := 0;
      while b < MAX_OPEN && used[b]
        invariant 0 <= b <= MAX_OPEN && used[..] == old(used[..])
        invariant FirstFree(used[..], 0) == FirstFree(used[..], b)
      {
        b := b + 1;
      }
      if b < MAX_OPEN {
        used[b] := true;
        assert used[..] == old(used[..])[b := true];
      }
    }

    method Clear(i: nat, how: How, called: Option<nat>)
      requires Valid() && i < |list|
      modifies this`list, this`ended, used
      ensures Valid() && View() == Cleared(old(View()), i, how, called)
    {
      var t := list[i];
      used[t.block] := false;
      assert used[..] == old(used[..])[t.block := false];
      list := list[..i] + list[i + 1..];
      ended := ended + [Ended(t, how, called)];
    }

    method Send(i: nat)
      requires Valid() && i < |list|
      modifies this`list, this`ended, used
      ensures Valid() && View() == CoapTransactions.SendTransaction(old(View()), i)
    {
      ghost var before := View();
      var t := list[i];
      var sends := t.sends + [now];
      if t.confirmable {
        if t.counter < MAX_RETRANSMIT {
          var interval := if t.counter == 0 then t.first else 2 * t.interval;
          list := list[i := t.(sends := sends, interval := interval, due := now + interval)];
        } else {
          list := list[i := t.(sends := sends)];
          Clear(i, TimedOut, callbacks[t.block]);
        }
      } else {
        list := list[i := t.(sends := sends)];
        Clear(i, Unreliable, None);
      }
    }

    /** A new transaction with its creator's callback, if there is a buffer, and its first message. */
    method OpenTransaction(mid: nat, confirmable: bool, own: bool, first: nat) returns (ok: bool)
      requires Valid()
      modifies this`list, this`ended, this`born, used, callbacks
      ensures Valid() && View() == Open(old(View()), mid, confirmable, own, first)
      ensures ok <==> old(CountFree(used[..])) > 0
    {
      FreeIsFound(used[..], 0);
      assert used[0..] == used[..];
      ghost var before := View();
      var b := Alloc();
      if b == MAX_OPEN {
        return false;
      }
      var t := Transaction(born, b, mid, confirmable, own, callbacks[b], 0, first, 0, 0, []);
      if own {
        callbacks[b] := Some(born);
      }
      assert callbacks[..] == if own then before.callbacks[b := Some(born)] else before.callbacks;
      born := born + 1;
      list := list + [t];
      assert View() == Added(before, b, mid, confirmable, own, first);
      Send(|list| - 1);
      return true;
    }

    /** coap_get_transaction_by_mid: its place in the list, or the length of the list. */
    method FindByMid(mid: nat) returns (i: nat)
      ensures i == FindMid(list, mid, 0)
      ensures i < |list| ==> list[i].mid == mid
    {
      i := 0;
      while i < |list|
        invariant 0 <= i <= |list|
        invariant FindMid(list, mid, 0) == FindMid(list, mid, i)
      {
        if list[i].mid == mid {
          return;
        }
        i := i + 1;
      }
    }

    method Receive(mid: nat)
      requires Valid()
      modifies this`list, this`ended, used
      ensures Valid() && View() == Reply(old(View()), mid)
    {
      var i := FindByMid(mid);
      if i < |list| {
        Clear(i, Answered, callbacks[list[i].block]);
      }
    }

    /** coap_check_transactions. */
    method Check(posted: set<nat>)
      requires Valid()
      modifies this`list, this`ended, used
      ensures Valid() && View() == CheckFrom(old(View()), 0, posted)
    {
      ghost var before := View();
      var i := 0;
      while i < |list|
        invariant 0 <= i <= |list| && Valid() && View().now == before.now
        invariant CheckFrom(before, 0, posted) == CheckFrom(View(), i, posted)
        decreases |list| - i
      {
        if list[i].uid in posted && now >= list[i].due {
          var n := |list|;
          list := list[i := list[i].(counter := list[i].counter + 1)];
          Send(i);
          if |list| < n {
            return;
          }
        }
        i := i + 1;
      }
    }
  }

  /** A free buffer is found exactly when there is one. */
  lemma {:induction false} FreeIsFound(used: seq<bool>, i: nat)
    requires i <= |used|
    ensures FirstFree(used, i) < |used| <==> CountFree(used[i..]) > 0
    decreases |used| - i
  {
    if i < |used| {
      assert used[i..][1..] == used[i + 1..];
      FreeIsFound(used, i + 1);
    }
  }
}
