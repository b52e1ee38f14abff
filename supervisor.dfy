/**
 * The teacher's side of the protocol, with every signal turned into a discrete
 * event applied to state.
 *
 * - Stage 2: the SIGUSR1 handler only counts the notifications it receives.
 * - Stages 3 and 4: the notification handler pushes the sender's pid on the
 *   pending buffer; the SIGCHLD handler does nothing but end `pause()`. After
 *   every wake-up the main loop drains the buffer (one acknowledgment per
 *   popped pid), reaps every child that has exited, and stops once
 *   `students_finished == num_students`. Stage 3 only counts the reaped
 *   children; stage 4 also records each student's exit status in its table.
 *
 * A run is a sequence of rounds. A round holds the signals delivered while
 * the teacher sat in `pause()`, in delivery order: `Notify(pid)` is a student's
 * completion signal, `Exit(pid, code)` a student that called `exit(code)` and
 * can now be reaped. If the rounds run out before every student is reaped,
 * the teacher would block in `pause()` for ever; the model then stops.
 */
module Supervisor {
  import opened Pending
  import opened Roster
  import opened Student

  datatype Event =
    | Notify(pid: int)
    | Exit(pid: int, code: int)

  /** The pids of a round's notifications, in delivery order. */
  function NotifiedPids(batch: seq<Event>): (pids: seq<int>)
    decreases |batch|
  {
    if batch == [] then []
    else
      var e := batch[|batch| - 1];
      NotifiedPids(batch[..|batch| - 1]) + (if e.Notify? then [e.pid] else [])
  }

  /** The children of a round that `waitpid` can reap, in exit order. */
  function ExitsOf(batch: seq<Event>): (zs: seq<Zombie>)
    decreases |batch|
  {
    if batch == [] then []
    else
      var e := batch[|batch| - 1];
      ExitsOf(batch[..|batch| - 1]) + (if e.Exit? then [Zombie(e.pid, e.code)] else [])
  }

  /** One more event of a round: a notification extends the pids, an exit the children to reap. */
  lemma BatchSnoc(batch: seq<Event>, i: int)
    requires 0 <= i < |batch|
    ensures batch[i].Notify? ==> NotifiedPids(batch[..i + 1]) == NotifiedPids(batch[..i]) + [batch[i].pid]
    ensures batch[i].Notify? ==> ExitsOf(batch[..i + 1]) == ExitsOf(batch[..i])
    ensures batch[i].Exit? ==> NotifiedPids(batch[..i + 1]) == NotifiedPids(batch[..i])
    ensures batch[i].Exit? ==> ExitsOf(batch[..i + 1]) == ExitsOf(batch[..i]) + [Zombie(batch[i].pid, batch[i].code)]
  {
    assert batch[..i + 1][..i] == batch[..i];
    assert NotifiedPids(batch[..i]) + [] == NotifiedPids(batch[..i]);
    assert ExitsOf(batch[..i]) + [] == ExitsOf(batch[..i]);
  }

  /** All notifications of the given rounds. */
  function AllNotified(rounds: seq<seq<Event>>): (pids: seq<int>)
    decreases |rounds|
  {
    if rounds == [] then [] else NotifiedPids(rounds[0]) + AllNotified(rounds[1..])
  }

  /** All exits of the given rounds. */
  function AllExits(rounds: seq<seq<Event>>): (zs: seq<Zombie>)
    decreases |rounds|
  {
    if rounds == [] then [] else ExitsOf(rounds[0]) + AllExits(rounds[1..])
  }

  /** No round brings more notifications than the buffer holds. */
  ghost predicate FitsBuffer(rounds: seq<seq<Event>>)
  {
    forall i :: 0 <= i < |rounds| ==> |NotifiedPids(rounds[i])| <= MaxPending
  }

  /** The acknowledgments of one wake-up: the buffer starts empty and is drained from the top. */
  function RoundAcks(batch: seq<Event>): (acks: seq<int>)
  {
    Reverse(PushAll([], NotifiedPids(batch)))
  }

  /**
   * Whatever the round, its drain sends one acknowledgment per queued
   * notification, at most MAX_PENDING, and every one goes to a pid that
   * notified in the round, no more often than it notified.
   */
  lemma RoundAcksFromNotifiers(batch: seq<Event>)
    ensures |RoundAcks(batch)| == Min(|NotifiedPids(batch)|, MaxPending)
    ensures multiset(RoundAcks(batch)) <= multiset(NotifiedPids(batch))
  {
    var sent := NotifiedPids(batch);
    var kept := Min(|sent|, MaxPending);
    PushAllKeepsWhatFits([], sent);
    ReverseSameEntries(PushAll([], sent));
    assert [] + sent[..kept] == sent[..kept];
    PrefixEntries(sent, kept);
  }

  /** A prefix holds no entry more often than the whole sequence does. */
  lemma PrefixEntries(s: seq<int>, k: int)
    requires 0 <= k <= |s|
    ensures multiset(s[..k]) <= multiset(s)
  {
    assert s == s[..k] + s[k..];
  }

  /**
   * A round's acknowledgments go to exactly the notifying pids, each as often
   * as it notified, in reverse order of delivery, provided the round does not
   * overflow the buffer.
   */
  lemma RoundAcksAreNotifications(batch: seq<Event>)
    requires |NotifiedPids(batch)| <= MaxPending
    ensures RoundAcks(batch) == Reverse(NotifiedPids(batch))
    ensures multiset(RoundAcks(batch)) == multiset(NotifiedPids(batch))
  {
    PushAllKeepsWhatFits([], NotifiedPids(batch));
    assert [] + NotifiedPids(batch) == NotifiedPids(batch);
    ReverseSameEntries(NotifiedPids(batch));
  }

  lemma {:induction false} AllExitsSplit(rounds: seq<seq<Event>>, j: int)
    requires 0 <= j <= |rounds|
    ensures AllExits(rounds) == AllExits(rounds[..j]) + AllExits(rounds[j..])
    decreases j
  {
    if j == 0 {
      assert rounds[..0] == [] && rounds[0..] == rounds;
    } else {
      AllExitsSplit(rounds[1..], j - 1);
      assert rounds[..j][0] == rounds[0] && rounds[..j][1..] == rounds[1..][..j - 1];
      assert rounds[1..][j - 1..] == rounds[j..];
    }
  }

  /** Unfolding the first round of a prefix of rounds. */
  lemma PrefixHead(rounds: seq<seq<Event>>, j: int)
    requires 1 <= j <= |rounds|
    ensures AllExits(rounds[..j]) == ExitsOf(rounds[0]) + AllExits(rounds[1..][..j - 1])
    ensures AllNotified(rounds[..j]) == NotifiedPids(rounds[0]) + AllNotified(rounds[1..][..j - 1])
  {
    assert rounds[..j][0] == rounds[0] && rounds[..j][1..] == rounds[1..][..j - 1];
  }

  // ---------------------------------------------------------------- handlers

  /**
   * The handlers that run while the teacher is in `pause()`: each
   * notification goes through the buffer's push (an overflow is reported and
   * dropped), each exit leaves a child to reap. `dropped` counts the
   * "Too many pending signals!" reports.
   */
  method Deliver(buf: PendingBuffer, batch: seq<Event>) returns (zombies: seq<Zombie>, dropped: nat)
    requires buf.Valid()
    modifies buf, buf.slots
    ensures buf.Valid()
    ensures buf.Contents() == PushAll(old(buf.Contents()), NotifiedPids(batch))
    ensures zombies == ExitsOf(batch)
    ensures dropped + (buf.count - old(buf.count)) == |NotifiedPids(batch)|
  {
    ghost var start := buf.Contents();
    zombies, dropped := [], 0;
    for i := 0 to |batch|
      invariant buf.Valid()
      invariant buf.Contents() == PushAll(start, NotifiedPids(batch[..i]))
      invariant zombies == ExitsOf(batch[..i])
      invariant dropped + (buf.count - old(buf.count)) == |NotifiedPids(batch[..i])|
    {
      BatchSnoc(batch, i);
      match batch[i]
      case Notify(pid) =>
        PushAllSnoc(start, NotifiedPids(batch[..i]), pid);
        var accepted := buf.Push(pid);
        if !accepted {
          dropped := dropped + 1;
        }
      case Exit(pid, code) =>
        zombies := zombies + [Zombie(pid, code)];
    }
    assert batch[..|batch|] == batch;
  }

  /**
   * One wake-up of the teacher in stages 3 and 4 up to its reap loop: the
   * round's handlers run, then the drain loop acknowledges every queued pid.
   */
  method Wake(buf: PendingBuffer, batch: seq<Event>) returns (zombies: seq<Zombie>, popped: seq<int>)
    requires buf.Valid() && buf.count == 0
    modifies buf, buf.slots
    ensures buf.Valid() && buf.count == 0
    ensures zombies == ExitsOf(batch)
    ensures popped == RoundAcks(batch)
  {
    var dropped;
    zombies, dropped := Deliver(buf, batch);
    PushAllKeepsWhatFits([], NotifiedPids(batch));
    popped := buf.Drain();
  }

  // ------------------------------------------------------------------ stage 2

  /** Stage 2's teacher: the SIGUSR1 handler counts what it receives. */
  class SignalCounter {
    /** signals_received */
    var received: int

    constructor ()
      ensures received == 0
    {
      received := 0;
    }

    /** handle_sigusr1: one more signal received. */
    method Handle()
      modifies this
      ensures received == old(received) + 1
    {
      received := received + 1;
    }
  }

  // ------------------------------------------------------------------ stage 3

  /** What stage 3's loop keeps: the finished counter and the acknowledgments sent so far. */
  datatype Teacher3 = Teacher3(finished: int, acks: seq<int>)

  /** One wake-up of stage 3: drain, then count every reaped child. */
  function Round3(s: Teacher3, batch: seq<Event>): (r: Teacher3)
  {
    Teacher3(s.finished + |ExitsOf(batch)|, s.acks + RoundAcks(batch))
  }

  /**
   * One wake-up of stage 3 counts every reaped child once, whatever its pid.
   * The acknowledgments already sent stay as they are and the round's drain
   * follows them; without overflow it acknowledges exactly the round's
   * notifications.
   */
  lemma Round3Effect(s: Teacher3, batch: seq<Event>)
    ensures Round3(s, batch).finished == s.finished + |ExitsOf(batch)|
    ensures var r := Round3(s, batch);
      |r.acks| == |s.acks| + Min(|NotifiedPids(batch)|, MaxPending) && r.acks[..|s.acks|] == s.acks
    ensures |NotifiedPids(batch)| <= MaxPending ==>
      multiset(Round3(s, batch).acks) == multiset(s.acks) + multiset(NotifiedPids(batch))
  {
    RoundAcksFromNotifiers(batch);
    if |NotifiedPids(batch)| <= MaxPending {
      RoundAcksAreNotifications(batch);
    }
  }

  /** Stage 3's loop over the rounds; also gives the number of wake-ups used. */
  function Run3(n: int, s: Teacher3, rounds: seq<seq<Event>>): (r: (Teacher3, nat))
    ensures r.1 <= |rounds|
    decreases |rounds|
  {
    if s.finished >= n || rounds == [] then (s, 0)
    else
      var r := Run3(n, Round3(s, rounds[0]), rounds[1..]);
      (r.0, r.1 + 1)
  }

  /** Stage 3's counter ends as its start plus the exits of the rounds the loop used. */
  lemma {:induction false} Run3Counts(n: int, s: Teacher3, rounds: seq<seq<Event>>)
    ensures Run3(n, s, rounds).0.finished == s.finished + |AllExits(rounds[..Run3(n, s, rounds).1])|
    decreases |rounds|
  {
    var r := Run3(n, s, rounds);
    if s.finished >= n || rounds == [] {
      assert rounds[..0] == [];
    } else {
      Run3Counts(n, Round3(s, rounds[0]), rounds[1..]);
      PrefixHead(rounds, r.1);
    }
  }

  /** Stage 3's loop leaves only once the counter has reached n, or when the rounds run out. */
  lemma {:induction false} Run3Leaves(n: int, s: Teacher3, rounds: seq<seq<Event>>)
    ensures Run3(n, s, rounds).0.finished >= n || Run3(n, s, rounds).1 == |rounds|
    decreases |rounds|
  {
    if !(s.finished >= n || rounds == []) {
      Run3Leaves(n, Round3(s, rounds[0]), rounds[1..]);
    }
  }

  /** Before each round the loop used, the counter was still below n: it never stops early. */
  lemma {:induction false} Run3NotBefore(n: int, s: Teacher3, rounds: seq<seq<Event>>)
    ensures forall j :: 0 <= j < Run3(n, s, rounds).1 ==> s.finished + |AllExits(rounds[..j])| < n
    decreases |rounds|
  {
    var r := Run3(n, s, rounds);
    if !(s.finished >= n || rounds == []) {
      var s' := Round3(s, rounds[0]);
      Run3NotBefore(n, s', rounds[1..]);
      forall j | 0 <= j < r.1 ensures s.finished + |AllExits(rounds[..j])| < n {
        if j > 0 {
          PrefixHead(rounds, j);
          assert s'.finished + |AllExits(rounds[1..][..j - 1])| < n;
        } else {
          assert rounds[..0] == [];
        }
      }
    }
  }

  /**
   * With n students that each exit once, stage 3's loop counts exactly the
   * exits it reaped, never passes n, stops as soon as the count reaches n and
   * not before, and reaches n whenever all n exits arrive.
   */
  lemma Run3Stops(n: int, s: Teacher3, rounds: seq<seq<Event>>)
    requires 0 <= s.finished <= n
    requires s.finished + |AllExits(rounds)| <= n
    ensures Run3(n, s, rounds).0.finished == s.finished + |AllExits(rounds[..Run3(n, s, rounds).1])|
    ensures Run3(n, s, rounds).0.finished <= n
    ensures Run3(n, s, rounds).0.finished == n || Run3(n, s, rounds).1 == |rounds|
    ensures forall j :: 0 <= j < Run3(n, s, rounds).1 ==> s.finished + |AllExits(rounds[..j])| < n
    ensures s.finished + |AllExits(rounds)| == n ==> Run3(n, s, rounds).0.finished == n
  {
    var used := Run3(n, s, rounds).1;
    Run3Counts(n, s, rounds);
    Run3Leaves(n, s, rounds);
    Run3NotBefore(n, s, rounds);
    AllExitsSplit(rounds, used);
    assert used == |rounds| ==> rounds[..used] == rounds;
  }

  /** The acknowledgments of the given rounds, wake-up after wake-up. */
  function AllAcks(rounds: seq<seq<Event>>): (acks: seq<int>)
    decreases |rounds|
  {
    if rounds == [] then [] else RoundAcks(rounds[0]) + AllAcks(rounds[1..])
  }

  /** Stage 3's acknowledgments are those of the rounds it woke up for, in order. */
  lemma {:induction false} Run3AckOrder(n: int, s: Teacher3, rounds: seq<seq<Event>>)
    ensures Run3(n, s, rounds).0.acks == s.acks + AllAcks(rounds[..Run3(n, s, rounds).1])
    decreases |rounds|
  {
    var r := Run3(n, s, rounds);
    if s.finished >= n || rounds == [] {
      assert rounds[..0] == [];
    } else {
      var s' := Round3(s, rounds[0]);
      var r' := Run3(n, s', rounds[1..]);
      Run3AckOrder(n, s', rounds[1..]);
      AcksPrefixHead(rounds, r.1);
      ConcatStep(r'.0.acks, s.acks, RoundAcks(rounds[0]), AllAcks(rounds[1..][..r'.1]));
    }
  }

  /** Regrouping a concatenation. */
  lemma ConcatStep(all: seq<int>, start: seq<int>, first: seq<int>, rest: seq<int>)
    requires all == (start + first) + rest
    ensures all == start + (first + rest)
  {
  }

  /** Unfolding the first round of a prefix of rounds, for the acknowledgments. */
  lemma AcksPrefixHead(rounds: seq<seq<Event>>, j: int)
    requires 1 <= j <= |rounds|
    ensures AllAcks(rounds[..j]) == RoundAcks(rounds[0]) + AllAcks(rounds[1..][..j - 1])
  {
    assert rounds[..j][0] == rounds[0] && rounds[..j][1..] == rounds[1..][..j - 1];
  }

  /** Without overflow, the rounds' acknowledgments and notifications are the same multiset. */
  lemma {:induction false} AllAcksAreNotifications(rounds: seq<seq<Event>>)
    requires FitsBuffer(rounds)
    ensures multiset(AllAcks(rounds)) == multiset(AllNotified(rounds))
    decreases |rounds|
  {
    if rounds != [] {
      FitsBufferTail(rounds);
      AllAcksAreNotifications(rounds[1..]);
      RoundAcksAreNotifications(rounds[0]);
    }
  }

  /**
   * When no round overflows the buffer, stage 3 acknowledges every
   * notification it received exactly once: the acknowledgments and the
   * notifications are the same multiset.
   */
  lemma Run3Acks(n: int, s: Teacher3, rounds: seq<seq<Event>>)
    requires FitsBuffer(rounds)
    ensures multiset(Run3(n, s, rounds).0.acks)
         == multiset(s.acks) + multiset(AllNotified(rounds[..Run3(n, s, rounds).1]))
  {
    var used := Run3(n, s, rounds).1;
    Run3AckOrder(n, s, rounds);
    assert FitsBuffer(rounds[..used]) by {
      forall i | 0 <= i < used ensures |NotifiedPids(rounds[..used][i])| <= MaxPending {
        assert rounds[..used][i] == rounds[i];
      }
    }
    AllAcksAreNotifications(rounds[..used]);
  }

  lemma FitsBufferTail(rounds: seq<seq<Event>>)
    requires rounds != [] && FitsBuffer(rounds)
    ensures |NotifiedPids(rounds[0])| <= MaxPending && FitsBuffer(rounds[1..])
  {
    forall i | 0 <= i < |rounds[1..]| ensures |NotifiedPids(rounds[1..][i])| <= MaxPending {
      assert rounds[1..][i] == rounds[i + 1];
    }
  }

  /** One more wake-up of stage 3's loop: what remains of the run after round `used`. */
  lemma Run3Step(n: int, s: Teacher3, rounds: seq<seq<Event>>, used: int, goal: (Teacher3, nat))
    requires s.finished < n && 0 <= used < |rounds|
    requires Run3(n, s, rounds[used..]).0 == goal.0 && Run3(n, s, rounds[used..]).1 + used == goal.1
    ensures var r := Run3(n, Round3(s, rounds[used]), rounds[used + 1..]);
      r.0 == goal.0 && r.1 + used + 1 == goal.1
  {
    assert rounds[used..][0] == rounds[used] && rounds[used..][1..] == rounds[used + 1..];
  }

  /**
   * Stage 3's main loop. `pause()` returns once per round; the loop then
   * drains the buffer, counts every reaped child and leaves when all
   * `numStudents` have finished, or when the rounds run out.
   */
  method Dispatch3(buf: PendingBuffer, numStudents: int, rounds: seq<seq<Event>>)
    returns (finished: int, acks: seq<int>, used: nat)
    requires buf.Valid() && buf.count == 0
    modifies buf, buf.slots
    ensures buf.Valid() && buf.count == 0
    ensures Teacher3(finished, acks) == Run3(numStudents, Teacher3(0, []), rounds).0
    ensures used == Run3(numStudents, Teacher3(0, []), rounds).1
  {
    ghost var state := Teacher3(0, []);
    ghost var goal := Run3(numStudents, state, rounds);
    finished, acks, used := 0, [], 0;
    while finished < numStudents && used < |rounds|
      invariant buf.Valid() && buf.count == 0
      invariant 0 <= used <= |rounds|
      invariant state == Teacher3(finished, acks)
      invariant Run3(numStudents, state, rounds[used..]).0 == goal.0
      invariant Run3(numStudents, state, rounds[used..]).1 + used == goal.1
      decreases |rounds| - used
    {
      var batch := rounds[used];
      Run3Step(numStudents, state, rounds, used, goal);
      var zombies, popped := Wake(buf, batch);
      acks := acks + popped;
      ghost var before := finished;
      for k := 0 to |zombies|
        invariant finished == before + k
      {
        finished := finished + 1;
      }
      state := Round3(state, batch);
      used := used + 1;
      if finished == numStudents {
        break;
      }
    }
  }

  // ------------------------------------------------------------------ stage 4

  /** What stage 4's loop keeps: the student table and the acknowledgments sent so far. */
  datatype Teacher4 = Teacher4(table: Table, acks: seq<int>)

  /** One wake-up of stage 4: drain, then reap every exited child against the roster. */
  function Round4(pids: seq<int>, s: Teacher4, batch: seq<Event>): (r: Teacher4)
    requires |s.table.issues| == |pids|
    ensures |r.table.issues| == |pids|
  {
    Teacher4(ReapAll(pids, s.table, ExitsOf(batch)), s.acks + RoundAcks(batch))
  }

  /** Stage 4's loop over the rounds; also gives the number of wake-ups used. */
  function Run4(pids: seq<int>, s: Teacher4, rounds: seq<seq<Event>>): (r: (Teacher4, nat))
    requires |s.table.issues| == |pids|
    ensures |r.0.table.issues| == |pids| && r.1 <= |rounds|
    decreases |rounds|
  {
    if s.table.finished >= |pids| || rounds == [] then (s, 0)
    else
      var r := Run4(pids, Round4(pids, s, rounds[0]), rounds[1..]);
      (r.0, r.1 + 1)
  }

  lemma AllExitsInRosterTail(pids: seq<int>, rounds: seq<seq<Event>>)
    requires rounds != [] && AllInRoster(pids, AllExits(rounds))
    ensures AllInRoster(pids, ExitsOf(rounds[0])) && AllInRoster(pids, AllExits(rounds[1..]))
  {
    var xs, ys := ExitsOf(rounds[0]), AllExits(rounds[1..]);
    forall k | 0 <= k < |xs| ensures xs[k].pid in pids {
      assert xs[k] == (xs + ys)[k];
    }
    forall k | 0 <= k < |ys| ensures ys[k].pid in pids {
      assert ys[k] == (xs + ys)[|xs| + k];
    }
  }

  /**
   * When every child the teacher reaps is one of its students, stage 4's
   * search always succeeds, so its loop counts, acknowledges and stops exactly
   * as stage 3's does (and Run3Stops and Run3Acks carry over).
   */
  lemma {:induction false} Run4AgreesWithRun3(pids: seq<int>, s: Teacher4, rounds: seq<seq<Event>>)
    requires |s.table.issues| == |pids|
    requires AllInRoster(pids, AllExits(rounds))
    ensures Run4(pids, s, rounds).1 == Run3(|pids|, Teacher3(s.table.finished, s.acks), rounds).1
    ensures Run4(pids, s, rounds).0.table.finished == Run3(|pids|, Teacher3(s.table.finished, s.acks), rounds).0.finished
    ensures Run4(pids, s, rounds).0.acks == Run3(|pids|, Teacher3(s.table.finished, s.acks), rounds).0.acks
    decreases |rounds|
  {
    if !(s.table.finished >= |pids| || rounds == []) {
      AllExitsInRosterTail(pids, rounds);
      Round4AgreesWithRound3(pids, s, rounds[0]);
      Run4AgreesWithRun3(pids, Round4(pids, s, rounds[0]), rounds[1..]);
    }
  }

  /**
   * Stage 4's exit condition: from the zero table, when every exit comes from
   * a student and there are no more exits than students, the counter never
   * passes the number of students, the loop leaves only when it reaches that
   * number or when the rounds run out, and it reaches it once all exit.
   */
  lemma Stage4Stops(pids: seq<int>, rounds: seq<seq<Event>>)
    requires |AllExits(rounds)| <= |pids|
    requires AllInRoster(pids, AllExits(rounds))
    ensures var r := Run4(pids, Teacher4(Table(Zeros(|pids|), 0), []), rounds);
      r.0.table.finished <= |pids| && (r.0.table.finished == |pids| || r.1 == |rounds|)
    ensures |AllExits(rounds)| == |pids| ==>
      Run4(pids, Teacher4(Table(Zeros(|pids|), 0), []), rounds).0.table.finished == |pids|
  {
    Run4AgreesWithRun3(pids, Teacher4(Table(Zeros(|pids|), 0), []), rounds);
    Run3Stops(|pids|, Teacher3(0, []), rounds);
  }

  /** One wake-up of stage 4 whose reaped children are all students counts and acknowledges as stage 3's. */
  lemma Round4AgreesWithRound3(pids: seq<int>, s: Teacher4, batch: seq<Event>)
    requires |s.table.issues| == |pids| && AllInRoster(pids, ExitsOf(batch))
    ensures var r := Round4(pids, s, batch);
      Teacher3(r.table.finished, r.acks) == Round3(Teacher3(s.table.finished, s.acks), batch)
  {
    ReapAllCounts(pids, s.table, ExitsOf(batch));
  }

  /** Stage 4's table after the loop is the initial table with every consumed exit reaped in order. */
  lemma {:induction false} Run4Table(pids: seq<int>, s: Teacher4, rounds: seq<seq<Event>>)
    requires |s.table.issues| == |pids|
    ensures Run4(pids, s, rounds).0.table == ReapAll(pids, s.table, AllExits(rounds[..Run4(pids, s, rounds).1]))
    decreases |rounds|
  {
    var r := Run4(pids, s, rounds);
    if s.table.finished >= |pids| || rounds == [] {
      assert rounds[..0] == [];
    } else {
      var s' := Round4(pids, s, rounds[0]);
      Run4Table(pids, s', rounds[1..]);
      PrefixHead(rounds, r.1);
      ReapAllAppend(pids, s.table, ExitsOf(rounds[0]), AllExits(rounds[1..][..r.1 - 1]));
    }
  }

  /** The conditions of a real run: distinct students, each exiting at most once. */
  ghost predicate WellFormed(pids: seq<int>, rounds: seq<seq<Event>>)
  {
    DistinctRoster(pids) && AllInRoster(pids, AllExits(rounds)) && DistinctPids(AllExits(rounds))
  }

  lemma WellFormedPrefix(pids: seq<int>, rounds: seq<seq<Event>>, j: int)
    requires WellFormed(pids, rounds) && 0 <= j <= |rounds|
    ensures AllInRoster(pids, AllExits(rounds[..j])) && DistinctPids(AllExits(rounds[..j]))
  {
    AllExitsSplit(rounds, j);
    var xs, ys := AllExits(rounds[..j]), AllExits(rounds[j..]);
    forall k | 0 <= k < |xs| ensures xs[k] == AllExits(rounds)[k] {
      assert xs[k] == (xs + ys)[k];
    }
  }

  /**
   * Starting from the all-zero table, stage 4 records in student i's slot the
   * exit status of student i once it has been reaped, and leaves 0 in the slot
   * of every student not reaped yet.
   */
  lemma Run4RecordsEachStudent(pids: seq<int>, s: Teacher4, rounds: seq<seq<Event>>, i: int)
    requires |s.table.issues| == |pids| && WellFormed(pids, rounds) && 0 <= i < |pids|
    ensures var r := Run4(pids, s, rounds);
      var exits := AllExits(rounds[..r.1]);
      (forall k :: 0 <= k < |exits| && exits[k].pid == pids[i] ==>
        r.0.table.issues[i] == ExitStatus(exits[k].code))
      && ((forall k :: 0 <= k < |exits| ==> exits[k].pid != pids[i]) ==>
        r.0.table.issues[i] == s.table.issues[i])
  {
    var r := Run4(pids, s, rounds);
    var exits := AllExits(rounds[..r.1]);
    Run4Table(pids, s, rounds);
    WellFormedPrefix(pids, rounds, r.1);
    forall k | 0 <= k < |exits| && exits[k].pid == pids[i]
      ensures r.0.table.issues[i] == ExitStatus(exits[k].code)
    {
      IndexOfDistinct(pids, i);
      ReapAllRecords(pids, s.table, exits, k);
    }
    if forall k :: 0 <= k < |exits| ==> exits[k].pid != pids[i] {
      ReapAllKeepsOthers(pids, s.table, exits, i);
    }
  }

  /**
   * Starting from the all-zero table, the total that stage 4 prints is the
   * sum of the exit statuses of the students it reaped.
   */
  lemma Run4Total(pids: seq<int>, s: Teacher4, rounds: seq<seq<Event>>)
    requires |s.table.issues| == |pids| && WellFormed(pids, rounds)
    requires forall i :: 0 <= i < |pids| ==> s.table.issues[i] == 0
    ensures Sum(Run4(pids, s, rounds).0.table.issues) == StatusSum(AllExits(rounds[..Run4(pids, s, rounds).1]))
  {
    var r := Run4(pids, s, rounds);
    var exits := AllExits(rounds[..r.1]);
    Run4Table(pids, s, rounds);
    WellFormedPrefix(pids, rounds, r.1);
    SumOfZeros(s.table.issues);
    ReapAllSum(pids, s.table, exits);
  }

  /** Stage 4's `waitpid` loop for one wake-up: reap each exited child against the roster. */
  method ReapEach(roster: StudentTable, zombies: seq<Zombie>)
    requires roster.Valid()
    modifies roster, roster.issues
    ensures roster.Valid() && roster.pids[..] == old(roster.pids[..])
    ensures roster.Snapshot() == ReapAll(roster.pids[..], old(roster.Snapshot()), zombies)
  {
    ghost var pids := roster.pids[..];
    ghost var before := roster.Snapshot();
    for k := 0 to |zombies|
      invariant roster.Valid() && roster.pids[..] == pids
      invariant |roster.Snapshot().issues| == |pids|
      invariant ReapAll(pids, roster.Snapshot(), zombies[k..]) == ReapAll(pids, before, zombies)
    {
      assert zombies[k..][0] == zombies[k] && zombies[k..][1..] == zombies[k + 1..];
      roster.Reap(zombies[k]);
    }
    assert zombies[|zombies|..] == [];
  }

  /** One more wake-up of stage 4's loop: what remains of the run after round `used`. */
  lemma Run4Step(pids: seq<int>, s: Teacher4, rounds: seq<seq<Event>>, used: int, goal: (Teacher4, nat))
    requires |s.table.issues| == |pids| && s.table.finished < |pids| && 0 <= used < |rounds|
    requires Run4(pids, s, rounds[used..]).0 == goal.0 && Run4(pids, s, rounds[used..]).1 + used == goal.1
    ensures var r := Run4(pids, Round4(pids, s, rounds[used]), rounds[used + 1..]);
      r.0 == goal.0 && r.1 + used + 1 == goal.1
  {
    assert rounds[used..][0] == rounds[used] && rounds[used..][1..] == rounds[used + 1..];
  }

  /**
   * Stage 4's main loop. `pause()` returns once per round; the loop then
   * drains the buffer, reaps every exited child against the roster, and
   * leaves when `students_finished` equals the number of students, or when
   * the rounds run out.
   */
  method Dispatch4(buf: PendingBuffer, roster: StudentTable, rounds: seq<seq<Event>>)
    returns (acks: seq<int>, used: nat)
    requires buf.Valid() && buf.count == 0 && roster.Valid()
    requires buf.slots != roster.pids && buf.slots != roster.issues
    modifies buf, buf.slots, roster, roster.issues
    ensures buf.Valid() && buf.count == 0 && roster.Valid()
    ensures roster.pids[..] == old(roster.pids[..])
    ensures Teacher4(roster.Snapshot(), acks) == Run4(roster.pids[..], Teacher4(old(roster.Snapshot()), []), rounds).0
    ensures used == Run4(roster.pids[..], Teacher4(old(roster.Snapshot()), []), rounds).1
  {
    ghost var pids := roster.pids[..];
    ghost var state := Teacher4(roster.Snapshot(), []);
    ghost var goal := Run4(pids, state, rounds);
    acks, used := [], 0;
    while roster.finished < roster.pids.Length && used < |rounds|
      invariant buf.Valid() && buf.count == 0 && roster.Valid()
      invariant roster.pids[..] == pids
      invariant 0 <= used <= |rounds|
      invariant state == Teacher4(roster.Snapshot(), acks) && |state.table.issues| == |pids|
      invariant Run4(pids, state, rounds[used..]).0 == goal.0
      invariant Run4(pids, state, rounds[used..]).1 + used == goal.1
      decreases |rounds| - used
    {
      var batch := rounds[used];
      Run4Step(pids, state, rounds, used, goal);
      var zombies, popped := Wake(buf, batch);
      acks := acks + popped;
      ReapEach(roster, zombies);
      state := Round4(pids, state, batch);
      used := used + 1;
      if roster.finished == roster.pids.Length {
        break;
      }
    }
  }

  /** All zeros: the issues column before any student is reaped. */
  function Zeros(n: nat): (z: seq<int>)
    ensures |z| == n && forall i :: 0 <= i < n ==> z[i] == 0
  {
    seq(n, _ => 0)
  }

  /**
   * Stage 4's teacher from its table initialisation to its statistics: run
   * the loop on a fresh buffer and roster and, once every student has
   * exited, total the issues column.
   */
  method RunTeacher4(studentPids: seq<int>, rounds: seq<seq<Event>>)
    returns (acks: seq<int>, allExited: bool, issues: seq<int>, total: int)
    ensures var r := Run4(studentPids, Teacher4(Table(Zeros(|studentPids|), 0), []), rounds).0;
      acks == r.acks && issues == r.table.issues && allExited == (r.table.finished >= |studentPids|)
    ensures allExited ==> total == Sum(issues)
  {
    var buf := new PendingBuffer();
    var roster := new StudentTable(studentPids);
    assert roster.Snapshot() == Table(Zeros(|studentPids|), 0);
    var used;
    acks, used := Dispatch4(buf, roster, rounds);
    issues := roster.issues[..];
    allExited := roster.finished >= roster.pids.Length;
    total := 0;
    if allExited {
      total := roster.TotalIssues();
    }
  }
}
