/** What each event does to the transactions: an opening sends, a check sends again whatever has expired up to the
    first that is given up, an answer ends the first transaction with its identifier, and what is over is
    never sent again. */
module CoapEvents {
  import opened CoapTransactions

  /** The first transaction in use with the identifier is at place `i`. */
  predicate IsFirst(list: seq<Transaction>, mid: nat, i: nat) {
    i < |list| && list[i].mid == mid && forall j :: 0 <= j < i ==> list[j].mid != mid
  }

  predicate Unknown(list: seq<Transaction>, mid: nat) {
    forall j :: 0 <= j < |list| ==> list[j].mid != mid
  }

  lemma {:induction false} FindsFirst(list: seq<Transaction>, mid: nat, i: nat)
    requires i <= |list| && forall j :: 0 <= j < i ==> list[j].mid != mid
    ensures var r := FindMid(list, mid, i);
            if r < |list| then IsFirst(list, mid, r) else Unknown(list, mid)
    decreases |list| - i
  {
    if i < |list| && list[i].mid != mid {
      FindsFirst(list, mid, i + 1);
    }
  }

  /** An answer ends the first transaction in use with its identifier, whatever its counter, and calls the
      callback of its buffer, which is then free; all others stay as they are. With an unknown identifier it
      changes nothing. */
  lemma AnswerEndsFirst(s: State, mid: nat, i: nat)
    requires Shaped(s)
    ensures IsFirst(s.list, mid, i) ==>
      var t := s.list[i];
      Take(s, Replied(mid)) ==
        State(s.callbacks, s.used[t.block := false], s.list[..i] + s.list[i + 1..],
              s.ended + [Ended(t, Answered, s.callbacks[t.block])], s.born, s.now)
    ensures Unknown(s.list, mid) ==> Take(s, Replied(mid)) == s
  {
    FindsFirst(s.list, mid, 0);
    var r := FindMid(s.list, mid, 0);
    if IsFirst(s.list, mid, i) {
      assert r < |s.list| && !(r < i) && !(i < r);
    }
  }

  // ----------------------------------------------------------------- openings

  /** The buffer is free, and none below it is. */
  predicate IsFirstFree(used: seq<bool>, b: nat) {
    b < |used| && !used[b] && forall j :: 0 <= j < b ==> used[j]
  }

  lemma {:induction false} FindsFree(used: seq<bool>, i: nat)
    requires i <= |used| && forall j :: 0 <= j < i ==> used[j]
    ensures var b := FirstFree(used, i);
            if b < |used| then IsFirstFree(used, b) else forall j :: 0 <= j < |used| ==> used[j]
    decreases |used| - i
  {
    if i < |used| && used[i] {
      FindsFree(used, i + 1);
    }
  }

  /** An opening takes the first free buffer, with the callback of its creator if it sets one, and sends its message at
      once: a confirmable one is then in use behind all others and due after the first interval, any other is
      over. Without a free buffer nothing happens. */
  lemma OpeningSends(s: State, mid: nat, confirmable: bool, own: bool, first: nat, b: nat)
    requires Shaped(s)
    ensures (forall j :: 0 <= j < MAX_OPEN ==> s.used[j]) ==> Take(s, Opens(mid, confirmable, own, first)) == s
    ensures IsFirstFree(s.used, b) ==>
      var r := Take(s, Opens(mid, confirmable, own, first));
      && r.callbacks == (if own then s.callbacks[b := Some(s.born)] else s.callbacks)
      && r.born == s.born + 1 && r.now == s.now
      && (confirmable ==>
            && r.list == s.list + [Transaction(s.born, b, mid, true, own, s.callbacks[b], 0, first, first, s.now + first, [s.now])]
            && r.used == s.used[b := true] && r.ended == s.ended)
      && (!confirmable ==>
            && r.list == s.list && r.used == s.used
            && |r.ended| == |s.ended| + 1 && r.ended[..|s.ended|] == s.ended
            && r.ended[|s.ended|].t.mid == mid && r.ended[|s.ended|].t.uid == s.born
            && r.ended[|s.ended|].t.sends == [s.now] && r.ended[|s.ended|].how == Unreliable)
  {
    FindsFree(s.used, 0);
    var f := FirstFree(s.used, 0);
    if IsFirstFree(s.used, b) {
      assert f == b;
      var added := Added(s, b, mid, confirmable, own, first);
      var t := added.list[|s.list|];
      assert t.counter == 0 && [] + [s.now] == [s.now] && |added.list| == |s.list| + 1;
      if confirmable {
        assert added.list[|s.list| := Restarted(t, s.now)] == s.list + [Restarted(t, s.now)];
      } else {
        var sent := added.list[|s.list| := t.(sends := [s.now])];
        assert sent[..|s.list|] + sent[|s.list| + 1..] == s.list;
        assert s.used[b := true][b := false] == s.used;
      }
    }
  }

  // ------------------------------------------------------------------- checks

  /** The transaction is given up when its message has been sent once more. */
  predicate GivesUp(t: Transaction) { t.counter + 1 >= 4 }

  /** A transaction whose message was sent again: once more counted, with its interval doubled. */
  function SentAgain(t: Transaction, now: nat): (r: Transaction) {
    t.(counter := t.counter + 1, interval := 2 * t.interval, due := now + 2 * t.interval, sends := t.sends + [now])
  }

  /** The first place from `i` on whose transaction has expired and is given up. */
  predicate IsLast(s: State, posted: set<nat>, i: nat, c: nat) {
    && i <= c <= |s.list|
    && (c < |s.list| ==> Expired(s, c, posted) && GivesUp(s.list[c]))
    && forall j :: i <= j < c ==> !(Expired(s, j, posted) && GivesUp(s.list[j]))
  }

  /** The transactions in use once those from `i` up to `c` that had expired were sent again. */
  function Resent(s: State, posted: set<nat>, i: nat, c: nat): (list: seq<Transaction>)
    requires i <= c <= |s.list|
    ensures |list| == |s.list|
  {
    seq(|s.list|, j requires 0 <= j < |s.list| =>
      if i <= j < c && Expired(s, j, posted) then SentAgain(s.list[j], s.now) else s.list[j])
  }

  /** A check sends every expired transaction again, up to the first one that is given up: that one is sent a last
      time and is over, with the callback of its buffer, which is then free; the walk ends there. */
  predicate Checked(s: State, r: State, posted: set<nat>, i: nat, c: nat)
    requires Shaped(s) && i <= c <= |s.list|
  {
    && r.callbacks == s.callbacks && r.born == s.born && r.now == s.now
    && if c == |s.list| then r.list == Resent(s, posted, i, c) && r.used == s.used && r.ended == s.ended
       else
         var t := s.list[c];
         && r.list == Resent(s, posted, i, c)[..c] + s.list[c + 1..]
         && r.used == s.used[t.block := false]
         && r.ended == s.ended + [Ended(t.(counter := t.counter + 1, sends := t.sends + [s.now]), TimedOut, s.callbacks[t.block])]
  }

  lemma {:induction false} CheckSendsAgain(s: State, i: nat, c: nat, posted: set<nat>)
    requires Shaped(s) && IsLast(s, posted, i, c) && forall j :: 0 <= j < |s.list| ==> s.list[j].confirmable
    ensures Checked(s, CheckFrom(s, i, posted), posted, i, c)
    decreases |s.list| - i
  {
    if i == |s.list| {
      assert Resent(s, posted, i, c) == s.list;
    } else if !Expired(s, i, posted) {
      CheckSendsAgain(s, i + 1, c, posted);
      assert Resent(s, posted, i, c) == Resent(s, posted, i + 1, c);
    } else if i == c {
      GivesUpAt(s, i, posted);
    } else {
      var next := s.(list := s.list[i := SentAgain(s.list[i], s.now)]);
      SendsAgainAt(s, i);
      assert IsLast(next, posted, i + 1, c);
      CheckSendsAgain(next, i + 1, c, posted);
      assert Resent(next, posted, i + 1, c) == Resent(s, posted, i, c);
      if c < |s.list| {
        assert next.list[c + 1..] == s.list[c + 1..];
      }
    }
  }

  lemma SendsAgainAt(s: State, i: nat)
    requires Shaped(s) && i < |s.list| && s.list[i].confirmable && !GivesUp(s.list[i])
    ensures SendTransaction(Counted(s, i), i) == s.(list := s.list[i := SentAgain(s.list[i], s.now)])
  {
    var t := s.list[i];
    assert s.list[i := t.(counter := t.counter + 1)][i := SentAgain(t, s.now)] == s.list[i := SentAgain(t, s.now)];
  }

  lemma GivesUpAt(s: State, i: nat, posted: set<nat>)
    requires Shaped(s) && i < |s.list| && s.list[i].confirmable && Expired(s, i, posted) && GivesUp(s.list[i])
    ensures Checked(s, CheckFrom(s, i, posted), posted, i, i)
  {
    var counted := Counted(s, i);
    var sent := counted.list[i].(sends := s.list[i].sends + [s.now]);
    var list := counted.list[i := sent];
    assert list[..i] == s.list[..i] == Resent(s, posted, i, i)[..i] && list[i + 1..] == s.list[i + 1..];
  }

  // --------------------------------------------------------------- history

  predicate Extends(before: seq<Ended>, after: seq<Ended>) {
    |before| <= |after| && forall k :: 0 <= k < |before| ==> after[k] == before[k]
  }

  lemma {:induction false} CheckExtends(s: State, i: nat, posted: set<nat>)
    requires Shaped(s) && i <= |s.list|
    ensures Extends(s.ended, CheckFrom(s, i, posted).ended)
    decreases |s.list| - i
  {
    if i < |s.list| {
      if Expired(s, i, posted) {
        var s' := SendTransaction(Counted(s, i), i);
        if |s'.list| >= |s.list| {
          CheckExtends(s', i + 1, posted);
        }
      } else {
        CheckExtends(s, i + 1, posted);
      }
    }
  }

  /** What is over stays over as it ended. */
  lemma {:induction false} RunExtends(s: State, steps: seq<Step>)
    requires Shaped(s)
    ensures Extends(s.ended, Run(s, steps).ended)
    decreases |steps|
  {
    if steps != [] {
      var next := Take(s, steps[0]);
      assert Extends(s.ended, next.ended) by {
        if steps[0].Checks? {
          CheckExtends(s, 0, steps[0].posted);
        }
      }
      hide Take;
      RunExtends(next, steps[1..]);
    }
  }

  /** An answered transaction is never sent again: in every later run its history is the one it was answered
      with, and no transaction in use is the same one. */
  lemma AnsweredStaysSilent(s: State, mid: nat, i: nat, later: seq<Step>)
    requires Shaped(s) && Invariant(s) && IsFirst(s.list, mid, i)
    ensures var r := Run(Take(s, Replied(mid)), later);
            && |s.ended| < |r.ended| && r.ended[|s.ended|] == Ended(s.list[i], Answered, s.callbacks[s.list[i].block])
            && (forall j :: 0 <= j < |r.list| ==> r.list[j].uid != s.list[i].uid)
            && (forall j :: 0 <= j < |r.ended| && j != |s.ended| ==> r.ended[j].t.uid != s.list[i].uid)
  {
    AnswerEndsFirst(s, mid, i);
    var next := Take(s, Replied(mid));
    TakeKeeps(s, Replied(mid));
    RunKeeps(next, later);
    RunExtends(next, later);
    hide Take, Run, CountUsed, TransactionOk, EndedOk;
    var k := |s.ended|;
    assert next.ended[k].t.uid == s.list[i].uid;
  }

  // ----------------------------------------------------------------- waiting

  function LatestDue(list: seq<Transaction>): (d: nat)
    ensures forall j :: 0 <= j < |list| ==> list[j].due <= d
  {
    if list == [] then 0 else
    var later := LatestDue(list[1..]);
    assert forall j :: 0 < j < |list| ==> list[j] == list[1..][j - 1];
    if list[0].due < later then later else list[0].due
  }

  /** Left without replies, every state comes to an end: there are waits after which nothing is in use, and all that
      was has timed out. */
  lemma {:induction false} TimesOutAtLast(s: State, rounds: nat) returns (waits: seq<nat>)
    requires Invariant(s) && Shaped(s) && rounds >= Left(s.list)
    ensures Shaped(s) && LongWaits(s, waits) && |waits| == rounds
    ensures Quiet(s, waits).list == [] && OnlyTimeouts(s.ended, Quiet(s, waits).ended)
    decreases rounds
  {
    NothingLeft(s);
    if rounds == 0 {
      waits := [];
      NoTimeouts(s.ended);
    } else {
      var wait := LatestDue(s.list);
      var late := Take(s, Passes(wait));
      assert forall j :: 0 <= j < |late.list| ==> late.now >= late.list[j].due;
      RoundTimesOut(s, wait);
      var next := Take(late, Checks(Everyone(late.born)));
      hide Take, InvariantBut, Left, Everyone, OnlyTimeouts;
      assert Left(next.list) <= rounds - 1;
      var rest := TimesOutAtLast(next, rounds - 1);
      waits := [wait] + rest;
      assert waits[1..] == rest;
      TimeoutsTogether(s.ended, next.ended, Quiet(next, rest).ended);
    }
  }
}
