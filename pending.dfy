/**
 * The teacher's buffer of pending student notifications (stages 3 and 4): a
 * global array of MAX_PENDING pids and a count. The signal handler pushes the
 * sender's pid on top when there is room and otherwise only reports the
 * overflow; the main loop drains it by popping from the top (LIFO) and
 * acknowledging each popped pid.
 */
module Pending {

  /** MAX_PENDING */
  const MaxPending := 100

  /** Reverse order: what a LIFO buffer gives back. */
  function Reverse(s: seq<int>): (r: seq<int>)
    ensures |r| == |s|
    ensures forall k :: 0 <= k < |s| ==> r[k] == s[|s| - 1 - k]
    decreases |s|
  {
    if s == [] then [] else [s[|s| - 1]] + Reverse(s[..|s| - 1])
  }

  /** Draining acknowledges every entry exactly as often as it was queued: no loss, no duplicate. */
  lemma {:induction false} ReverseSameEntries(s: seq<int>)
    ensures multiset(Reverse(s)) == multiset(s)
    decreases |s|
  {
    if s != [] {
      ReverseSameEntries(s[..|s| - 1]);
      assert s == s[..|s| - 1] + [s[|s| - 1]];
    }
  }

  /** Popping the top entry: it comes first, then the rest in reverse. */
  lemma ReversePop(s: seq<int>)
    requires s != []
    ensures Reverse(s) == [s[|s| - 1]] + Reverse(s[..|s| - 1])
  {
  }

  /**
   * The handler on the abstract contents: append when there is room,
   * otherwise drop. Queued entries are never overwritten, at most one entry
   * is added, and a buffer within its capacity stays within it.
   */
  function Pushed(s: seq<int>, pid: int): (r: seq<int>)
    ensures |s| <= |r| <= |s| + 1 && r[..|s|] == s
    ensures |s| <= MaxPending ==> |r| <= MaxPending
  {
    if |s| < MaxPending then s + [pid] else s
  }

  /**
   * The handler run once per pid of `pids`, in order. A burst only adds
   * entries on top, at most one per notification, and never takes the buffer
   * past its capacity.
   */
  function PushAll(s: seq<int>, pids: seq<int>): (r: seq<int>)
    ensures |s| <= |r| <= |s| + |pids| && r[..|s|] == s
    ensures |s| <= MaxPending ==> |r| <= MaxPending
    decreases |pids|
  {
    if pids == [] then s
    else
      var m := PushAll(s, pids[..|pids| - 1]);
      var r := Pushed(m, pids[|pids| - 1]);
      assert r[..|s|] == r[..|m|][..|s|];
      r
  }

  /** A burst followed by one more notification is the burst, then one handler run. */
  lemma PushAllSnoc(s: seq<int>, pids: seq<int>, pid: int)
    ensures PushAll(s, pids + [pid]) == Pushed(PushAll(s, pids), pid)
  {
    assert (pids + [pid])[..|pids|] == pids;
  }

  function Min(a: int, b: int): (m: int) { if a < b then a else b }

  /**
   * From a buffer holding at most MAX_PENDING entries, a burst of
   * notifications keeps exactly the first ones that fit and drops the rest:
   * the count never exceeds MAX_PENDING, and nothing is lost when the burst fits.
   */
  lemma {:induction false} PushAllKeepsWhatFits(s: seq<int>, pids: seq<int>)
    requires |s| <= MaxPending
    ensures PushAll(s, pids) == s + pids[..Min(|pids|, MaxPending - |s|)]
    ensures |PushAll(s, pids)| <= MaxPending
    ensures |s| + |pids| <= MaxPending ==> PushAll(s, pids) == s + pids
    decreases |pids|
  {
    if pids != [] {
      var front := pids[..|pids| - 1];
      PushAllKeepsWhatFits(s, front);
      var m := Min(|front|, MaxPending - |s|);
      if |s| + |front| < MaxPending {
        assert pids[..Min(|pids|, MaxPending - |s|)] == front[..m] + [pids[|pids| - 1]];
      } else {
        assert pids[..Min(|pids|, MaxPending - |s|)] == front[..m];
      }
    }
    assert pids[..|pids|] == pids;
  }

  class PendingBuffer {
    /** pending_pids[MAX_PENDING] */
    const slots: array<int>
    /** pending_count */
    var count: int

    ghost predicate Valid()
      reads this
    {
      slots.Length == MaxPending && 0 <= count <= MaxPending
    }

    /** The queued pids, oldest first. */
    ghost function Contents(): seq<int>
      reads this, slots
      requires Valid()
    {
      slots[..count]
    }

    /** The buffer as the program starts: zero-initialised storage, count 0. */
    constructor ()
      ensures Valid() && fresh(slots) && count == 0 && Contents() == []
    {
      slots := new int[MaxPending](_ => 0);
      count := 0;
    }

    /**
     * The notification handler. With room it writes `pid` at index `count`
     * and bumps the count; when full it only reports (returns false) and the
     * notification is dropped.
     */
    method Push(pid: int) returns (accepted: bool)
      requires Valid()
      modifies this, slots
      ensures Valid()
      ensures accepted <==> old(count) < MaxPending
      ensures accepted ==> count == old(count) + 1 && slots[..] == old(slots[..])[old(count) := pid]
      ensures !accepted ==> count == old(count) && slots[..] == old(slots[..])
      ensures Contents() == Pushed(old(Contents()), pid)
    {
      if count < MaxPending {
        slots[count] := pid;
        count := count + 1;
        accepted := true;
      } else {
        accepted := false;
      }
    }

    /**
     * The teacher's drain loop: pop `slots[count - 1]` until the count is 0,
     * acknowledging each popped pid. Returns the acknowledged pids in the
     * order the acknowledgments are sent. The array itself is not written.
     */
    method Drain() returns (acks: seq<int>)
      requires Valid()
      modifies this
      ensures Valid() && count == 0
      ensures acks == Reverse(old(Contents()))
    {
      acks := [];
      while count > 0
        invariant Valid()
        invariant acks + Reverse(slots[..count]) == Reverse(old(Contents()))
        decreases count
      {
        ReversePop(slots[..count]);
        assert slots[..count][..count - 1] == slots[..count - 1];
        count := count - 1;
        acks := acks + [slots[count]];
      }
    }
  }
}
