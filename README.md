# Teacher and students: a signal-coordinated lab, modelled in Dafny

The lab runs one teacher process and one student process per issue
probability given on the command line. Each student works through `p` parts
of `t` time slices. In every slice it draws `rand() % 100` and counts an issue
when the draw is below its probability. After each part it signals the teacher.
From stage 3 on, it then waits until the teacher acknowledges that part with
SIGUSR2. It ends with `exit(total_issues)`.

In stages 3 and 4 the teacher's signal handler pushes the sender's pid on a
fixed buffer of `MAX_PENDING` = 100 entries. When the buffer is full, the
handler only prints an error. After every `pause()` the main loop drains the
buffer from the top and acknowledges each popped pid. It then reaps every
child that has exited. The loop stops once `students_finished` equals the
number of students. Stage 3 only counts reaped children. Stage 4 also searches
its roster for the reaped pid, stores the exit status in that student's slot
of `student_issues`, and at the end sums the table. In stage 2 the student
does not wait, and the teacher's handler only counts signals.

The model keeps the sequential bookkeeping under this plumbing. Every signal
is a discrete event:

- `Notify(pid)` is a student's completion signal.
- `Exit(pid, code)` is a student that called `exit(code)` and can now be reaped.

A run is a sequence of *rounds*. A round is the list of signals delivered while
the teacher sat in `pause()`, in delivery order. The draws of `rand()` are an
input sequence `rolls`.

Files and modules:

- `args.dfy` (`Args`): the range checks on `p`, `t` and the probability, and the usage check.
- `student.dfy` (`Student`): the part/slice tally loop, the notify/await trace, and the exit status.
- `pending.dfy` (`Pending`): the pending-pid buffer, a class over a 100-slot array with push and LIFO drain.
- `roster.dfy` (`Roster`): stage 4's student table, the class `StudentTable` with search, reap and total.
- `supervisor.dfy` (`Supervisor`): the stage 2 counter, the handler delivery of a round, and the stage 3 and stage 4 dispatch loops.

Each dispatch loop is a method that is proved against a specification function
(`Run3`, `Run4`). The protocol properties are lemmas about those functions.

When the buffer is full, the code prints "Too many pending signals!" and
carries on, so the notification is lost. The model does the same: `PendingBuffer.Push` returns `false`, and `Deliver`
counts the dropped notifications.

One consequence of the code is visible in the model. A student whose
probability is outside 0..100 exits with `EXIT_FAILURE`, which is 1
(`RunStudent`). Stage 4 then records 1 issue for it. That record looks the same
as a valid student who had exactly one issue
(`InvalidProbabilityRecordedAsOneIssue`).

## Model

| member | source | states |
|---|---|---|
| Args.BadRange | lab2_task2_stage4.c:41 | The teacher's rejection test on p and t. A pair it lets through gives 1 <= p*t <= 100 slices per student. |
| Args.ParseArgs | lab2_task2_stage4.c:32-44 | With fewer than three arguments the result is a usage error. With p or t out of range it is the range error. The result is accepted exactly when 1 <= p <= 10 and 1 <= t <= 10. An accepted configuration keeps p, t and at least one probability, and has 1 <= p*t <= 100. |
| Args.PartsTimesSlicesBounded | lab2_task2_stage4.c:41 | A p and t within 1..10 give 1 <= p*t <= 100. |
| Student.IssueCount | lab2_task2_stage4.c:108-116 | The number of draws with `draw % 100 < probability` is never more than the number of draws. |
| Student.NoIssuesAtZero | lab2_task2_stage4.c:110 | Probability 0 produces no issue, whatever the draws. |
| Student.AllIssuesAtHundred | lab2_task2_stage4.c:110 | Probability 100 makes every slice an issue, because every draw mod 100 is below 100. |
| Student.Handshake | lab2_task2_stage3.c:102-128 | Over p parts the student exchanges p messages with the teacher, or 2p when it waits for each acknowledgment. |
| Student.HandshakeWithAck | lab2_task2_stage3.c:102-128 | Over p parts the student sends exactly p notifications, in part order. Each one is immediately followed by a wait for that part's acknowledgment, so part k+1 never starts before part k is acknowledged. |
| Student.HandshakeWithoutAck | lab2_task2_stage2.c:58-72 | Stage 2's student sends exactly one notification per part, p in total, and never waits. |
| Student.ExitStatus | lab2_task2_stage4.c:159 | WEXITSTATUS yields a value in 0..255 that agrees with the exit code mod 256. A code already in 0..255 comes back unchanged. |
| Student.TallySurvivesExit | lab2_task2_stage4.c:133 | For a validated p and t, the tally is at most 100, so `exit(total_issues)` hands it to the teacher unchanged. |
| Student.RunStudent | lab2_task2_stage4.c:82-133 | The probability check (`ValidProbability`, :83-86): a probability outside 0..100 exits with failure (code 1) before any part. Otherwise the exit code is the issue count of the p*t draws, in 0..p*t. It is 0 for probability 0 and p*t for probability 100. The steps towards the teacher are one notification per part, each followed by a wait when acknowledgments are awaited. |
| Pending.Reverse | lab2_task2_stage4.c:145-149 | The k-th pid popped is the entry at position count-1-k (LIFO order), and there are as many pops as entries. |
| Pending.ReverseSameEntries | lab2_task2_stage4.c:145-149 | Draining acknowledges every queued entry exactly as often as it was queued. No entry is lost or duplicated. |
| Pending.Pushed | lab2_task2_stage4.c:15-21 | One handler run never overwrites a queued entry and adds at most one entry. A buffer within its capacity stays within it. |
| Pending.PushAll | lab2_task2_stage4.c:15-21 | A burst of handler runs only adds entries on top, at most one per notification. It never takes the buffer past MAX_PENDING. |
| Pending.PushAllKeepsWhatFits | lab2_task2_stage4.c:15-21 | A burst of notifications keeps exactly the first ones that fit and drops the rest. The count never exceeds MAX_PENDING. Nothing is lost when the burst fits. |
| Pending.PendingBuffer.constructor | lab2_task2_stage4.c:12-13 | The buffer starts with 100 slots and count 0. |
| Pending.PendingBuffer.Push | lab2_task2_stage4.c:15-21 | If count < 100, the pid is written at index count, the count grows by exactly one, and the other slots are kept. If the buffer is full, the slots and the count are unchanged and the overflow is reported. |
| Pending.PendingBuffer.Drain | lab2_task2_stage4.c:145-149 | The drain ends with count 0. It acknowledges the entries present at the start in reverse insertion order, once each, and it never writes the array. |
| Roster.Sum | lab2_task2_stage4.c:177-180 | The total accumulated over the column. When every slot holds an exit status, it lies in 0..255 per student. |
| Roster.SumOfZeros | lab2_task2_stage4.c:70-72 | A table that was initialised to zeros totals 0. |
| Roster.SumUpdate | lab2_task2_stage4.c:177-180 | Overwriting one slot changes the total by exactly the difference. |
| Roster.IndexOf | lab2_task2_stage4.c:156-164 | The search returns the first index that holds the reaped pid, or -1 exactly when the pid is not a student. |
| Roster.Reaped | lab2_task2_stage4.c:156-164 | Reaping a student sets that student's slot to its exit status, increments `students_finished` by exactly one, and keeps every other slot. A pid outside the roster changes nothing. |
| Roster.ReapAll | lab2_task2_stage4.c:154-165 | Reaping never changes the size of the table. |
| Roster.ReapAllCounts | lab2_task2_stage4.c:154-165 | When every reaped pid is a student, each reap adds exactly one to `students_finished`. |
| Roster.ReapAllKeepsOthers | lab2_task2_stage4.c:156-164 | The slot of a student who is not among the reaped pids is unchanged. |
| Roster.ReapAllRecords | lab2_task2_stage4.c:157-162 | Once a student is reaped, its slot holds its exit status. A later reap of another student does not overwrite it. |
| Roster.StatusSum | lab2_task2_stage4.c:159 | The reaped exit statuses, summed, lie in 0..255 each. |
| Roster.InvalidProbabilityRecordedAsOneIssue | lab2_task2_stage4.c:83-86 | A student that rejected its probability exits with EXIT_FAILURE, so its slot reads 1. That record is the same as the one for a student that exited with exactly one issue. |
| Roster.ReapAllSum | lab2_task2_stage4.c:154-180 | When each student is reaped at most once from a zero slot, the table's total grows by exactly the reaped exit statuses. |
| Roster.StudentTable.constructor | lab2_task2_stage4.c:68-72 | The roster holds the students' pids, every issue count starts at 0, and no student has finished. |
| Roster.StudentTable.Find | lab2_task2_stage4.c:156-164 | The loop returns the first index holding the pid, or -1 exactly when the pid is not in the roster. |
| Roster.StudentTable.Reap | lab2_task2_stage4.c:156-164 | The new table and counter are the old ones reaped by `Reaped`. The roster pids are unchanged. |
| Roster.StudentTable.TotalIssues | lab2_task2_stage4.c:177-180 | The totals loop returns the sum of the issues column. |
| Supervisor.RoundAcksFromNotifiers | lab2_task2_stage3.c:146-150 | Whatever the round, `RoundAcks` (the drain of one wake-up) sends one acknowledgment per queued notification, at most MAX_PENDING. Every acknowledgment goes to a pid that notified in the round, no more often than it notified. |
| Supervisor.RoundAcksAreNotifications | lab2_task2_stage3.c:146-150 | A round that does not overflow the buffer acknowledges exactly its notifying pids, each as often as it notified, in reverse order of delivery. |
| Supervisor.Deliver | lab2_task2_stage3.c:16-22 | The handlers of a round leave the buffer holding the old contents with the round's notifications pushed in order. The exits become the children to reap. Every notification is either queued or reported as overflow. |
| Supervisor.Wake | lab2_task2_stage3.c:143-150 | After a wake-up the buffer is empty again. The pids acknowledged are the round's queued notifications, popped from the top. |
| Supervisor.SignalCounter.constructor | lab2_task2_stage2.c:9 | `signals_received` starts at 0. |
| Supervisor.SignalCounter.Handle | lab2_task2_stage2.c:11-14 | Each handler invocation increments `signals_received` by exactly one. |
| Supervisor.Round3Effect | lab2_task2_stage3.c:143-157 | One wake-up of stage 3 (`Round3`) counts every reaped child once, whatever its pid. It keeps the acknowledgments already sent and appends the round's drain. Without overflow, that drain acknowledges exactly the round's notifications. |
| Supervisor.Run3 | lab2_task2_stage3.c:141-163 | Stage 3's loop never uses more wake-ups than there are rounds. |
| Supervisor.Run3Counts | lab2_task2_stage3.c:141-157 | Stage 3's counter ends as its start plus the number of children reaped in the wake-ups the loop used. |
| Supervisor.Run3Leaves | lab2_task2_stage3.c:141-163 | The loop leaves only once the counter has reached n, or when the rounds run out. |
| Supervisor.Run3NotBefore | lab2_task2_stage3.c:141-163 | Before every wake-up the loop used, the counter was still below n, so it never stops early. |
| Supervisor.Run3Stops | lab2_task2_stage3.c:141-163 | With n students that each exit once, the counter equals the number of exits reaped and never passes n. The loop stops exactly when the counter reaches n, and not before. It reaches n whenever all n exits arrive. |
| Supervisor.Run3AckOrder | lab2_task2_stage3.c:141-150 | Stage 3's acknowledgments are exactly the drains of the rounds it woke up for, round after round, in the order they were sent. |
| Supervisor.AllAcksAreNotifications | lab2_task2_stage3.c:146-150 | When no round overflows the buffer, the drains of the rounds acknowledge the same pids as the rounds notified, each as often. |
| Supervisor.Run3Acks | lab2_task2_stage3.c:146-150 | When no round overflows the buffer, every notification received is acknowledged exactly once. |
| Supervisor.Dispatch3 | lab2_task2_stage3.c:141-163 | Stage 3's loop computes exactly `Run3`: the finished count, the acknowledgments sent and the wake-ups used. The buffer ends empty. |
| Supervisor.Round4 | lab2_task2_stage4.c:142-165 | One wake-up of stage 4 keeps one slot per student. |
| Supervisor.Run4 | lab2_task2_stage4.c:140-171 | Stage 4's loop keeps one slot per student and never uses more wake-ups than there are rounds. |
| Supervisor.Run4AgreesWithRun3 | lab2_task2_stage4.c:154-171 | When every reaped child is a student, stage 4 counts, acknowledges and stops exactly as stage 3 does. It is combined with `Run3Stops` in `Stage4Stops`. |
| Supervisor.Stage4Stops | lab2_task2_stage4.c:141-171 | Starting from the zero table, when every reaped child is a student and there are no more exits than students, stage 4's counter never passes the number of students, and the loop leaves either with `students_finished == num_students` or with the rounds used up. It reaches that number once all students have exited. |
| Supervisor.Run4Table | lab2_task2_stage4.c:154-165 | Stage 4's table after the loop is the initial table with every consumed exit reaped in order. |
| Supervisor.Run4RecordsEachStudent | lab2_task2_stage4.c:157-161 | For distinct students that each exit once, a reaped student's slot holds its exit status, and a student not yet reaped keeps its initial slot. |
| Supervisor.Run4Total | lab2_task2_stage4.c:177-180 | Starting from the all-zero table, the total printed is the sum of the exit statuses of the reaped students. |
| Supervisor.ReapEach | lab2_task2_stage4.c:154-165 | The `waitpid` loop of one wake-up reaps each exited child in turn against the roster. |
| Supervisor.Dispatch4 | lab2_task2_stage4.c:140-171 | Stage 4's loop computes exactly `Run4`: the table, the counter, the acknowledgments and the wake-ups used. The roster pids are unchanged and the buffer ends empty. |
| Supervisor.Zeros | lab2_task2_stage4.c:70-72 | The initial issues column is one 0 per student. |
| Supervisor.RunTeacher4 | lab2_task2_stage4.c:140-180 | On a fresh buffer and a zero table, stage 4's teacher sends the acknowledgments of `Run4` and ends with its table. It reports that all students have exited exactly when the counter reached the number of students, and then totals the table. |

## Left out

- Process and signal plumbing: `fork`, `sigaction`, `sigprocmask`, `sigsuspend`, `pause` and `kill` delivery are left out. Their point is OS concurrency, which a sequential model cannot check. Signals become the `Notify` and `Exit` events of a round.
- Signal timing around the drain and the reap is not modelled. The rounds assume that every handled signal is followed by a wake-up from `pause()`, and then by a drain that no handler interrupts. The source does not guarantee either, as the next three lines show.
- A notification that arrives during the drain loop (lab2_task2_stage4.c:145-149, lab2_task2_stage3.c:146-150) is pushed on top and popped by that same loop. With A and B queued and C arriving after B is popped, the source acknowledges B, C, A. The model puts C in the next round and acknowledges B, A, C.
- A signal handled after the `waitpid` loop and before the next `pause()` (lab2_task2_stage4.c:154-171, then :142) does not end a later `pause()`. If it is the last signal, the teacher blocks forever. After the last student's SIGCHLD, `students_finished` stays below `num_students`. After a late notification, that student stays in `sigsuspend`. The model's next round never comes in the source.
- The same holds for a signal handled before the first `pause()`, while the teacher is still forking (lab2_task2_stage4.c:75-138, then :142). A student that rejects its probability exits at :83-86 right after `fork`, so its SIGCHLD can be handled before the teacher reaches `pause()`. When that happens and it is the only signal left, nothing wakes the teacher. The model instead reaps it in the first round.
- A handler that runs between `--pending_count` and the read of the slot at lab2_task2_stage4.c:146 overwrites that slot. One entry is then never acknowledged, and the new one is acknowledged twice.
- Coalescing of SIGUSR1 (stage 2) and queuing of the real-time signal (stages 3 and 4) are kernel behaviour and are not modelled. Every event in a round is delivered once.
- `waitpid` is modelled only as "the reaped pid and its exit code". `waitpid(-1, …)` fixes no order among the children of a round; the model reaps them in the order they exited, which is its own choice. The choice is harmless: in stage 4 each student has its own slot, and stage 3 only counts. WEXITSTATUS is the exit code mod 256.
- `rand()`, `srand(time(NULL))` and `usleep` are left out. The draws are an input sequence, and the delays are dropped.
- Output and parsing: `printf`/`fprintf` text, the statistics table at lab2_task2_stage4.c:183-187, and `atoi` are left out. The arguments are integers.
- Failure of `fork` or `sigaction` is left out, because it is part of the process plumbing.
- When the rounds run out before every student has been reaped, the real teacher would block in `pause()` forever. The model stops and reports that not all students have exited.
- Supervisor.Dispatch3 and Supervisor.Dispatch4 do not return the overflow reports of their rounds. `Deliver` counts them, and `Wake` discards the count, just as the source's output is only text.
- `signals_received` in stage 2 is a `sig_atomic_t`. Its overflow is not modelled, because at most p times the number of students signals arrive.
- lab2_task2_stage1.c is not part of this model. Its logic is three checks that later stages repeat unchanged: the usage check (lab2_task2_stage1.c:9-12) and the range check on p and t (:18-21), both modelled by `ParseArgs`, and the probability check (:32-35), modelled by `ValidProbability` in `RunStudent`. Its `wait` loop at :45 only blocks until every child has exited.
- The `wait` loop at lab2_task2_stage2.c:81 only blocks until every child has exited, so it is not modelled.
