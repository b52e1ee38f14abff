/**
 * Stage 4's record of the students: `student_pids[i]` (filled by the fork
 * loop), `student_issues[i]` (zero until student i is reaped) and the
 * `students_finished` counter. Reaping pid `w` searches the roster for `w`
 * and, when found, records the exit status and counts the student as finished.
 * At the end the teacher sums the table.
 */
module Roster {
  import opened Student

  /** A child the teacher can reap: its pid and the code it passed to `exit`. */
  datatype Zombie = Zombie(pid: int, code: int)

  /** The reap-related state: the issues column and the finished counter. */
  datatype Table = Table(issues: seq<int>, finished: int)

  /**
   * Sum of a column, accumulated left to right as the totals loop does. When
   * every slot holds an exit status, the total lies in 0..255 per student.
   */
  function Sum(s: seq<int>): (total: int)
    ensures (forall i :: 0 <= i < |s| ==> 0 <= s[i] < 256) ==> 0 <= total <= 255 * |s|
    decreases |s|
  {
    if s == [] then 0 else Sum(s[..|s| - 1]) + s[|s| - 1]
  }

  /** A column of zeros sums to zero: before any reap the total is 0. */
  lemma {:induction false} SumOfZeros(s: seq<int>)
    requires forall i :: 0 <= i < |s| ==> s[i] == 0
    ensures Sum(s) == 0
    decreases |s|
  {
    if s != [] {
      SumOfZeros(s[..|s| - 1]);
    }
  }

  /** Overwriting one entry changes the sum by exactly the difference. */
  lemma {:induction false} SumUpdate(s: seq<int>, i: int, v: int)
    requires 0 <= i < |s|
    ensures Sum(s[i := v]) == Sum(s) - s[i] + v
    decreases |s|
  {
    var n := |s| - 1;
    if i == n {
      assert s[i := v][..n] == s[..n];
    } else {
      assert s[i := v][..n] == s[..n][i := v];
      SumUpdate(s[..n], i, v);
    }
  }

  /** Index of the first roster entry equal to `w`, or -1 when `w` is not a student. */
  function IndexOf(pids: seq<int>, w: int): (r: int)
    ensures -1 <= r < |pids|
    ensures r >= 0 ==> pids[r] == w && w !in pids[..r]
    ensures r < 0 <==> w !in pids
    decreases |pids|
  {
    if pids == [] then -1
    else if pids[0] == w then 0
    else
      var r := IndexOf(pids[1..], w);
      assert pids[1..][..r + 1] == pids[1..r + 2] by { assert r + 2 <= |pids| || r < 0; }
      if r < 0 then -1 else r + 1
  }

  /** In a roster of distinct pids, a student's slot is found at its own index. */
  lemma IndexOfDistinct(pids: seq<int>, i: int)
    requires 0 <= i < |pids|
    requires forall a, b :: 0 <= a < b < |pids| ==> pids[a] != pids[b]
    ensures IndexOf(pids, pids[i]) == i
  {
    var r := IndexOf(pids, pids[i]);
    assert r >= 0 && pids[r] == pids[i];
  }

  /**
   * Reaping `z` against the roster: the slot of a known pid gets the exit
   * status and the counter grows by exactly one; every other slot is kept;
   * a pid outside the roster changes nothing.
   */
  function Reaped(pids: seq<int>, t: Table, z: Zombie): (r: Table)
    requires |t.issues| == |pids|
    ensures |r.issues| == |pids|
    ensures z.pid !in pids ==> r == t
    ensures z.pid in pids ==> r.finished == t.finished + 1
    ensures forall i :: 0 <= i < |pids| ==>
      r.issues[i] == (if i == IndexOf(pids, z.pid) then ExitStatus(z.code) else t.issues[i])
  {
    var i := IndexOf(pids, z.pid);
    if i < 0 then t else Table(t.issues[i := ExitStatus(z.code)], t.finished + 1)
  }

  /** The `waitpid` loop of one wake-up: reap every zombie in turn. */
  function ReapAll(pids: seq<int>, t: Table, zs: seq<Zombie>): (r: Table)
    requires |t.issues| == |pids|
    ensures |r.issues| == |pids|
    decreases |zs|
  {
    if zs == [] then t else ReapAll(pids, Reaped(pids, t, zs[0]), zs[1..])
  }


  /** The exit statuses of the given zombies, summed: at most 255 each. */
  function StatusSum(zs: seq<Zombie>): (total: int)
    ensures 0 <= total <= 255 * |zs|
    decreases |zs|
  {
    if zs == [] then 0 else ExitStatus(zs[0].code) + StatusSum(zs[1..])
  }

  /**
   * A student that rejected its probability exits with EXIT_FAILURE, so its
   * slot reads 1: the same record as a student that had exactly one issue.
   */
  lemma InvalidProbabilityRecordedAsOneIssue(pids: seq<int>, t: Table, w: int)
    requires |t.issues| == |pids| && w in pids
    ensures Reaped(pids, t, Zombie(w, ExitFailure)).issues[IndexOf(pids, w)] == 1
    ensures Reaped(pids, t, Zombie(w, ExitFailure)) == Reaped(pids, t, Zombie(w, 1))
  {
  }

  ghost predicate AllInRoster(pids: seq<int>, zs: seq<Zombie>)
  {
    forall k :: 0 <= k < |zs| ==> zs[k].pid in pids
  }

  ghost predicate DistinctPids(zs: seq<Zombie>)
  {
    forall a, b :: 0 <= a < b < |zs| ==> zs[a].pid != zs[b].pid
  }

  ghost predicate DistinctRoster(pids: seq<int>)
  {
    forall a, b :: 0 <= a < b < |pids| ==> pids[a] != pids[b]
  }

  /** Reaping in two batches is reaping their concatenation. */
  lemma {:induction false} ReapAllAppend(pids: seq<int>, t: Table, xs: seq<Zombie>, ys: seq<Zombie>)
    requires |t.issues| == |pids|
    ensures ReapAll(pids, t, xs + ys) == ReapAll(pids, ReapAll(pids, t, xs), ys)
    decreases |xs|
  {
    if xs != [] {
      assert (xs + ys)[1..] == xs[1..] + ys;
      ReapAllAppend(pids, Reaped(pids, t, xs[0]), xs[1..], ys);
    } else {
      assert xs + ys == ys;
    }
  }

  /** When every reaped pid is a student, each one counts once towards `students_finished`. */
  lemma {:induction false} ReapAllCounts(pids: seq<int>, t: Table, zs: seq<Zombie>)
    requires |t.issues| == |pids|
    requires AllInRoster(pids, zs)
    ensures ReapAll(pids, t, zs).finished == t.finished + |zs|
    decreases |zs|
  {
    if zs != [] {
      ReapAllCounts(pids, Reaped(pids, t, zs[0]), zs[1..]);
    }
  }

  /** A student that is not among the reaped keeps its slot. */
  lemma {:induction false} ReapAllKeepsOthers(pids: seq<int>, t: Table, zs: seq<Zombie>, i: int)
    requires |t.issues| == |pids| && 0 <= i < |pids|
    requires forall k :: 0 <= k < |zs| ==> zs[k].pid != pids[i]
    ensures ReapAll(pids, t, zs).issues[i] == t.issues[i]
    decreases |zs|
  {
    if zs != [] {
      var j := IndexOf(pids, zs[0].pid);
      assert j != i;
      ReapAllKeepsOthers(pids, Reaped(pids, t, zs[0]), zs[1..], i);
    }
  }

  /**
   * Once student `zs[k]` is reaped, its slot holds its exit status, and no
   * later reap of another student overwrites it.
   */
  lemma {:induction false} ReapAllRecords(pids: seq<int>, t: Table, zs: seq<Zombie>, k: int)
    requires |t.issues| == |pids| && DistinctRoster(pids) && DistinctPids(zs)
    requires 0 <= k < |zs| && zs[k].pid in pids
    ensures ReapAll(pids, t, zs).issues[IndexOf(pids, zs[k].pid)] == ExitStatus(zs[k].code)
    decreases |zs|
  {
    var t' := Reaped(pids, t, zs[0]);
    if k == 0 {
      var i := IndexOf(pids, zs[0].pid);
      forall j | 0 <= j < |zs[1..]| ensures zs[1..][j].pid != pids[i] {
        assert zs[1..][j] == zs[j + 1];
      }
      ReapAllKeepsOthers(pids, t', zs[1..], i);
    } else {
      assert DistinctPids(zs[1..]) by {
        forall a, b | 0 <= a < b < |zs[1..]| ensures zs[1..][a].pid != zs[1..][b].pid {
          assert zs[1..][a] == zs[a + 1] && zs[1..][b] == zs[b + 1];
        }
      }
      assert zs[1..][k - 1] == zs[k];
      ReapAllRecords(pids, t', zs[1..], k - 1);
    }
  }

  /**
   * When each student is reaped at most once and its slot still holds the
   * initial 0, the table's total grows by exactly the reaped exit statuses.
   */
  lemma {:induction false} ReapAllSum(pids: seq<int>, t: Table, zs: seq<Zombie>)
    requires |t.issues| == |pids| && DistinctRoster(pids)
    requires AllInRoster(pids, zs) && DistinctPids(zs)
    requires forall k :: 0 <= k < |zs| ==> t.issues[IndexOf(pids, zs[k].pid)] == 0
    ensures Sum(ReapAll(pids, t, zs).issues) == Sum(t.issues) + StatusSum(zs)
    decreases |zs|
  {
    if zs != [] {
      var i := IndexOf(pids, zs[0].pid);
      var t' := Reaped(pids, t, zs[0]);
      assert t'.issues == t.issues[i := ExitStatus(zs[0].code)];
      SumUpdate(t.issues, i, ExitStatus(zs[0].code));
      forall k | 0 <= k < |zs[1..]|
        ensures t'.issues[IndexOf(pids, zs[1..][k].pid)] == 0
      {
        assert zs[1..][k] == zs[k + 1];
        assert zs[k + 1].pid != zs[0].pid;
      }
      ReapAllSum(pids, t', zs[1..]);
    }
  }

  class StudentTable {
    /** student_pids[num_students] */
    const pids: array<int>
    /** student_issues[num_students] */
    const issues: array<int>
    /** students_finished */
    var finished: int

    ghost predicate Valid()
      reads this
    {
      pids != issues && issues.Length == pids.Length
    }

    /** The reap-related state as a value. */
    ghost function Snapshot(): Table
      reads this, issues
    {
      Table(issues[..], finished)
    }

    /**
     * The roster after the fork loop: the given pids, every issue count
     * initialised to 0 and no student finished yet.
     */
    constructor (studentPids: seq<int>)
      ensures Valid() && fresh(pids) && fresh(issues)
      ensures pids[..] == studentPids
      ensures forall i :: 0 <= i < |studentPids| ==> issues[i] == 0
      ensures finished == 0
    {
      var n := |studentPids|;
      var roster := new int[n](i requires 0 <= i < n => studentPids[i]);
      assert roster[..] == studentPids;
      var column := new int[n];
      for i := 0 to n
        invariant roster[..] == studentPids
        invariant forall j :: 0 <= j < i ==> column[j] == 0
      {
        column[i] := 0;
      }
      pids, issues := roster, column;
      finished := 0;
    }

    /** The search of the reap loop: the first index holding `w`, or -1. */
    method Find(w: int) returns (i: int)
      requires Valid()
      ensures i == IndexOf(pids[..], w)
      ensures 0 <= i ==> i < pids.Length && pids[i] == w
      ensures i < 0 <==> w !in pids[..]
    {
      i := 0;
      while i < pids.Length
        invariant 0 <= i <= pids.Length
        invariant w !in pids[..i]
      {
        if pids[i] == w {
          assert w !in pids[..][..i];
          return;
        }
        i := i + 1;
      }
      assert pids[..i] == pids[..];
      i := -1;
    }

    /**
     * One pass of the inner reap loop for the child `z`: record its exit
     * status in its own slot and count it, or do nothing for an unknown pid.
     */
    method Reap(z: Zombie)
      requires Valid()
      modifies this, issues
      ensures Valid()
      ensures Snapshot() == Reaped(pids[..], old(Snapshot()), z)
      ensures pids[..] == old(pids[..])
    {
      var i := Find(z.pid);
      if i >= 0 {
        issues[i] := ExitStatus(z.code);
        finished := finished + 1;
      }
    }

    /** The statistics loop: the total of the issues column. */
    method TotalIssues() returns (total: int)
      requires Valid()
      ensures total == Sum(issues[..])
    {
      total := 0;
      for i := 0 to issues.Length
        invariant total == Sum(issues[..i])
      {
        assert issues[..i + 1][..i] == issues[..i];
        total := total + issues[i];
      }
      assert issues[..issues.Length] == issues[..];
    }
  }
}
