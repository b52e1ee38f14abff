/**
 * The student (worker) process: `p` parts of `t` time slices each. In every
 * slice the student draws `rand() % 100` and counts an issue when the draw is
 * below its probability. After each part it notifies the teacher; from stage 3
 * on it then waits for the teacher's acknowledgment. Finally it exits with its
 * issue tally as exit code.
 *
 * The draws of `rand()` are an input sequence `rolls`, the k-th element being
 * the k-th call's result; `usleep` delays are dropped.
 */
module Student {
  import opened Args

  /** `exit(EXIT_FAILURE)` */
  const ExitFailure := 1

  /** What the student does towards the teacher, in order. */
  datatype Step =
    | SignalTeacher(part: int)   // kill(getppid(), signal) after finishing `part`
    | AwaitAck(part: int)        // sigsuspend until the teacher acknowledges `part`

  /** Issues found over the given draws: draws whose value mod 100 is below `probability`. */
  function IssueCount(rolls: seq<nat>, probability: int): (n: nat)
    ensures n <= |rolls|
    decreases |rolls|
  {
    if rolls == [] then 0
    else
      var last := if rolls[|rolls| - 1] % 100 < probability then 1 else 0;
      IssueCount(rolls[..|rolls| - 1], probability) + last
  }

  /** Probability 0 (or below) never produces an issue. */
  lemma {:induction false} NoIssuesAtZero(rolls: seq<nat>, probability: int)
    requires probability <= 0
    ensures IssueCount(rolls, probability) == 0
    decreases |rolls|
  {
    if rolls != [] {
      NoIssuesAtZero(rolls[..|rolls| - 1], probability);
    }
  }

  /** Probability 100 makes every slice an issue, since every draw mod 100 is below 100. */
  lemma {:induction false} AllIssuesAtHundred(rolls: seq<nat>, probability: int)
    requires probability >= 100
    ensures IssueCount(rolls, probability) == |rolls|
    decreases |rolls|
  {
    if rolls != [] {
      AllIssuesAtHundred(rolls[..|rolls| - 1], probability);
    }
  }

  /**
   * The messages a student exchanges with the teacher over `p` parts: one
   * signal per part, plus one wait per part when acknowledgments are awaited.
   */
  function Handshake(p: nat, awaitAck: bool): (steps: seq<Step>)
    ensures |steps| == (if awaitAck then 2 * p else p)
  {
    if p == 0 then []
    else Handshake(p - 1, awaitAck) + (if awaitAck then [SignalTeacher(p), AwaitAck(p)] else [SignalTeacher(p)])
  }

  /**
   * With acknowledgments (stages 3 and 4): exactly one notification per part,
   * in part order, each immediately followed by a wait for that part's
   * acknowledgment, so part k+1 never starts before part k is acknowledged.
   */
  lemma {:induction false} HandshakeWithAck(p: nat)
    ensures |Handshake(p, true)| == 2 * p
    ensures forall i :: 0 <= i < 2 * p ==>
      Handshake(p, true)[i] == (if i % 2 == 0 then SignalTeacher(i / 2 + 1) else AwaitAck(i / 2 + 1))
  {
    if p > 0 {
      HandshakeWithAck(p - 1);
    }
  }

  /** Without acknowledgments (stage 2): one notification per part, p in total, and no waits. */
  lemma {:induction false} HandshakeWithoutAck(p: nat)
    ensures |Handshake(p, false)| == p
    ensures forall i :: 0 <= i < p ==> Handshake(p, false)[i] == SignalTeacher(i + 1)
  {
    if p > 0 {
      HandshakeWithoutAck(p - 1);
    }
  }

  /** What the teacher reads back with WEXITSTATUS after `exit(code)`: the low byte. */
  function ExitStatus(code: int): (s: int)
    ensures 0 <= s < 256
    ensures 0 <= code < 256 ==> s == code
    ensures s % 256 == code % 256
  {
    code % 256
  }

  /**
   * The tally of a student that passed validation lies in 0..p*t <= 100, so
   * the exit status hands it to the teacher unchanged.
   */
  lemma TallySurvivesExit(p: int, t: int, rolls: seq<nat>, probability: int)
    requires !BadRange(p, t) && |rolls| == p * t
    ensures IssueCount(rolls, probability) <= 100
    ensures ExitStatus(IssueCount(rolls, probability)) == IssueCount(rolls, probability)
  {
    PartsTimesSlicesBounded(p, t);
  }

  /** Finishing part `part` of `p` has used `part * t` draws, no more than the `p * t` available. */
  lemma PartStep(part: nat, p: nat, t: nat)
    requires 1 <= part <= p
    ensures (part - 1) * t + t == part * t <= p * t
  {
    assert part * t <= p * t by {
      assert (p - part) * t >= 0;
      assert p * t == part * t + (p - part) * t;
    }
  }

  /**
   * One student process from its probability check to its `exit`. With
   * `awaitAck` it waits for the teacher after every part (stages 3 and 4);
   * without it, it only notifies (stage 2). Returns the steps taken towards
   * the teacher and the exit code.
   */
  method RunStudent(p: nat, t: nat, probability: int, rolls: seq<nat>, awaitAck: bool)
    returns (trace: seq<Step>, code: int)
    requires |rolls| == p * t
    ensures !ValidProbability(probability) ==> trace == [] && code == ExitFailure
    ensures ValidProbability(probability) ==> trace == Handshake(p, awaitAck)
    ensures ValidProbability(probability) ==> code == IssueCount(rolls, probability)
    ensures ValidProbability(probability) ==> 0 <= code <= p * t
    ensures probability == 0 ==> code == 0
    ensures probability == 100 ==> code == p * t
  {
    if probability < 0 || probability > MaxProbability {
      return [], ExitFailure;
    }
    var total := 0;
    trace := [];
    var drawn := 0;  // calls to rand() so far
    var part := 1;
    while part <= p
      invariant 1 <= part <= p + 1
      invariant drawn == (part - 1) * t <= p * t
      invariant total == IssueCount(rolls[..drawn], probability)
      invariant trace == Handshake(part - 1, awaitAck)
    {
      PartStep(part, p, t);
      ghost var start := drawn;
      var slice := 0;
      while slice < t
        invariant 0 <= slice <= t && start + t <= |rolls|
        invariant drawn == start + slice
        invariant total == IssueCount(rolls[..drawn], probability)
      {
        assert rolls[..drawn + 1][..drawn] == rolls[..drawn];
        if rolls[drawn] % 100 < probability {
          total := total + 1;
        }
        drawn := drawn + 1;
        slice := slice + 1;
      }
      trace := trace + [SignalTeacher(part)];
      if awaitAck {
        trace := trace + [AwaitAck(part)];
      }
      part := part + 1;
    }
    assert rolls[..drawn] == rolls;
    code := total;
    if probability == 0 {
      NoIssuesAtZero(rolls, probability);
    } else if probability == 100 {
      AllIssuesAtHundred(rolls, probability);
    }
  }
}
