/** sem_open(), sem_unlink() and sem_timedwait() of chapter_53/posix_sem.c as functions of what they find, next
    to what POSIX.1-2017 lets them return, and exactly where the two differ. */
module PosixApi {
  import opened SemaphoreHistory

  const NAME_MAX := 255
  const SEM_VALUE_MAX := 0x7fff_ffff

  datatype Errno = EINVAL | ENAMETOOLONG | ENOENT | EEXIST | EAGAIN | ERANGE | ETIMEDOUT | EINTR

  /** `Blocks`: the call would not return in the current state. */
  datatype Status = Success | Fails(errno: Errno) | Blocks

  /** The checks of a name, which must have a leading slash. */
  function CheckName(name: string): Status {
    if name == "" || name[0] != '/' then Fails(EINVAL)
    else if |name| - 1 >= NAME_MAX then Fails(ENAMETOOLONG)
    else Success
  }

  // ---------------------------------------------------------------- sem_open() and sem_unlink()

  /** POSIX.1-2017, sem_open(): an unlinked semaphore is not found by its name, and a new one may take it. */
  function PosixOpen(t: Table, n: string, create: bool, excl: bool): Status {
    if n in t && !t[n].unlinked then (if create && excl then Fails(EEXIST) else Success)
    else if create then Success
    else Fails(ENOENT)
  }

  /** The process has the name open, and it has not been unlinked. */
  predicate HasOpen(t: Table, n: string, process: nat) {
    n in t && !t[n].unlinked && exists h | h in t[n].opens :: h.process == process
  }

  /** What sem_open() of POSIX.1-2017 may return to the process of `h`: the status above, and as long as the
      process has the name open, the address that it has already. */
  predicate PosixMayOpen(t: Table, n: string, create: bool, excl: bool, h: Handle, s: Status) {
    && s == PosixOpen(t, n, create, excl)
    && (s == Success && HasOpen(t, n, h.process) ==> forall g | g in t[n].opens && g.process == h.process :: g == h)
  }

  /** The status of this sem_open(), with a good name and a value up to SEM_VALUE_MAX; ERANGE comes from the
      System V limit `semvmx`. */
  function CodeOpen(t: Table, n: string, create: bool, excl: bool, value: nat, semvmx: nat): Status {
    if n in t then (if excl then Fails(EEXIST) else if t[n].unlinked then Fails(ENOENT) else Success)
    else if !create then Fails(ENOENT)
    else if value > semvmx then Fails(ERANGE)
    else Success
  }

  /** With its new address `h` it departs from POSIX exactly on creating a name that is unlinked but still open,
      on creating a new name with a value above the System V limit, and on opening a name that the process has
      open already. (Without O_CREAT the effect of O_EXCL is undefined in POSIX.) */
  lemma OpenVersusPosix(t: Table, n: string, create: bool, excl: bool, value: nat, semvmx: nat, h: Handle)
    requires (excl ==> create) && forall m | m in t :: h !in t[m].opens
    ensures PosixMayOpen(t, n, create, excl, h, CodeOpen(t, n, create, excl, value, semvmx))
            <==> !(create && if n in t then t[n].unlinked else value > semvmx) && (excl || !HasOpen(t, n, h.process))
  {
  }

  function PosixUnlink(t: Table, n: string): Status {
    if n in t && !t[n].unlinked then Success else Fails(ENOENT)
  }

  function CodeUnlink(t: Table, n: string): Status {
    if n in t then Success else Fails(ENOENT)
  }

  /** They differ exactly on a name that is unlinked already, but still open. */
  lemma UnlinkVersusPosix(t: Table, n: string)
    ensures CodeUnlink(t, n) == PosixUnlink(t, n) <==> !(n in t && t[n].unlinked)
  {
  }

  /** Created, unlinked while open, and now not to be created again, but to be unlinked again; and a value
      that System V does not take; and a name that the process opens again. */
  lemma NamesGoWrong()
    ensures var es := [Opened("s", Handle(7, 1), 5), Unlinked("s")];
            && IsHistory(es)
            && CodeOpen(Replay(es), "s", true, true, 5, 32767) == Fails(EEXIST)
            && CodeOpen(Replay(es), "s", true, false, 5, 32767) == Fails(ENOENT)
            && PosixOpen(Replay(es), "s", true, true) == PosixOpen(Replay(es), "s", true, false) == Success
            && CodeUnlink(Replay(es), "s") == Success && PosixUnlink(Replay(es), "s") == Fails(ENOENT)
    ensures CodeOpen(map[], "s", true, false, 32768, 32767) == Fails(ERANGE)
    ensures PosixOpen(map[], "s", true, false) == Success && 32768 <= SEM_VALUE_MAX
    ensures var es := [Opened("s", Handle(7, 1), 5)];
            && IsHistory(es) && CodeOpen(Replay(es), "s", false, false, 0, 32767) == Success
            && !PosixMayOpen(Replay(es), "s", false, false, Handle(7, 2), Success)
            && PosixMayOpen(Replay(es), "s", false, false, Handle(8, 2), Success)
  {
    var e0, e1 := Opened("s", Handle(7, 1), 5), Unlinked("s");
    Extend([], e0);
    assert [] + [e0] == [e0];
    Extend([e0], e1);
    assert [e0] + [e1] == [e0, e1];
  }

  // ---------------------------------------------------------------- deadlines

  const SECOND := 1_000_000_000

  /** struct timespec */
  datatype Time = Time(sec: int, nsec: int)

  predicate Normal(t: Time) {
    0 <= t.nsec < SECOND
  }

  function Nanos(t: Time): int {
    t.sec * SECOND + t.nsec
  }

  /** The test for a deadline that has passed. */
  predicate Passed(now: Time, deadline: Time) {
    now.sec > deadline.sec || (now.sec == deadline.sec && now.nsec >= deadline.nsec)
  }

  lemma PassedIsNanos(now: Time, deadline: Time)
    requires Normal(now) && Normal(deadline)
    ensures Passed(now, deadline) <==> Nanos(now) >= Nanos(deadline)
  {
    if now.sec > deadline.sec {
      assert (now.sec - deadline.sec) * SECOND >= SECOND;
    } else if now.sec < deadline.sec {
      assert (deadline.sec - now.sec) * SECOND >= SECOND;
    }
  }

  /** The argument of alarm(): what remains, rounded up to seconds. */
  function AlarmSeconds(now: Time, deadline: Time): int {
    var sec, nsec := deadline.sec - now.sec, deadline.nsec - now.nsec;
    var borrowed := if nsec < 0 then Time(sec - 1, nsec + SECOND) else Time(sec, nsec);
    borrowed.sec + if borrowed.nsec > 0 then 1 else 0
  }

  /** The alarm is never 0, which would mean none; it goes off at or after the deadline, but less than a
      second after it. */
  lemma AlarmCoversDeadline(now: Time, deadline: Time)
    requires Normal(now) && Normal(deadline) && !Passed(now, deadline)
    ensures AlarmSeconds(now, deadline) >= 1
    ensures 0 <= Nanos(now) + AlarmSeconds(now, deadline) * SECOND - Nanos(deadline) < SECOND
  {
    PassedIsNanos(now, deadline);
    var d, s := deadline.nsec - now.nsec, deadline.sec - now.sec;
    assert Nanos(deadline) - Nanos(now) == s * SECOND + d;
  }

  // ---------------------------------------------------------------- sem_timedwait()

  /** This sem_timedwait() up to the semop() that blocks, on a semaphore with this value. */
  function CodeTimedWait(value: nat, now: Time, deadline: Time): Status {
    if !Normal(deadline) then Fails(EINVAL)
    else if Passed(now, deadline) then Fails(ETIMEDOUT)
    else if value > 0 then Success
    else Blocks
  }

  /** The rest of it, once the blocking semop() has been interrupted. */
  function CodeInterrupted(value: nat, now: Time, deadline: Time): Status {
    if Passed(now, deadline) then Fails(ETIMEDOUT)
    else if value > 0 then Success
    else Fails(ETIMEDOUT)
  }

  /** How the blocking semop() ends: with the semaphore, or by a signal when the semaphore has this value; and
      the clock at that time. */
  datatype Wake = Acquired(now: Time) | Interrupted(value: nat, now: Time)

  /** The whole call; `wake` matters only if it blocks. */
  function CodeTimedCall(value: nat, now: Time, deadline: Time, wake: Wake): Status {
    match CodeTimedWait(value, now, deadline)
    case Blocks => if wake.Acquired? then Success else CodeInterrupted(wake.value, wake.now, deadline)
    case s => s
  }

  /** What that amounts to: EINVAL for a deadline out of form; otherwise success if and only if the call comes
      before the deadline and finds the semaphore free, or its wait ends with the semaphore, or is interrupted
      before the deadline with the semaphore free by then; and a timeout in all other cases. */
  lemma TimedCallIs(value: nat, now: Time, deadline: Time, wake: Wake)
    ensures CodeTimedCall(value, now, deadline, wake) ==
            if !(0 <= deadline.nsec < 1_000_000_000) then Fails(EINVAL)
            else if && (now.sec < deadline.sec || (now.sec == deadline.sec && now.nsec < deadline.nsec))
                    && (value > 0
                        || match wake
                           case Acquired(_) => true
                           case Interrupted(v, later) =>
                             v > 0
                             && (later.sec < deadline.sec || (later.sec == deadline.sec && later.nsec < deadline.nsec)))
            then Success
            else Fails(ETIMEDOUT)
  {
  }

  /** What sem_timedwait() of POSIX.1-2017 may do at the call. A semaphore that can be locked at once is never
      reported as timed out; the form of the deadline may be checked in any case, and must be before waiting. */
  predicate PosixMayAnswer(value: nat, now: Time, deadline: Time, s: Status) {
    match s
    case Success => value > 0
    case Fails(EINVAL) => !Normal(deadline)
    case Fails(ETIMEDOUT) => value == 0 && Normal(deadline) && Passed(now, deadline)
    case Blocks => value == 0 && Normal(deadline) && !Passed(now, deadline)
    case _ => false
  }

  /** What it may do at the end of a wait: the wait is over when the deadline passes, so the semaphore is only
      acquired before; and when a signal interrupts the wait, give up with EINTR, or go on as after the call. */
  predicate PosixMayWake(deadline: Time, wake: Wake, s: Status) {
    match wake
    case Acquired(now) => s == Success && !Passed(now, deadline)
    case Interrupted(value, now) => s == Fails(EINTR) || PosixMayAnswer(value, now, deadline, s)
  }

  predicate PosixMayCall(value: nat, now: Time, deadline: Time, wake: Wake, s: Status) {
    if PosixMayAnswer(value, now, deadline, Blocks) then PosixMayWake(deadline, wake, s)
    else PosixMayAnswer(value, now, deadline, s)
  }

  /** The answers that POSIX does not allow. A timeout on a semaphore that can be locked, when the deadline has
      passed at the call; or, at the end of a wait, the semaphore acquired after the deadline, as the alarm may
      go off almost a second late, or an interruption answered by a timeout although the deadline has passed
      and the semaphore can be locked, or neither. */
  predicate WrongAnswer(value: nat, now: Time, deadline: Time, wake: Wake) {
    && Normal(deadline)
    && if Nanos(now) >= Nanos(deadline) then value > 0
       else value == 0 && match wake
                          case Acquired(later) => Nanos(later) >= Nanos(deadline)
                          case Interrupted(v, later) => Nanos(later) >= Nanos(deadline) <==> v > 0
  }

  /** Over the whole call, the answer of sem_timedwait() is one that POSIX allows exactly apart from those. */
  lemma TimedWaitVersusPosix(value: nat, now: Time, deadline: Time, wake: Wake)
    requires Normal(now) && Normal(wake.now)
    ensures PosixMayCall(value, now, deadline, wake, CodeTimedCall(value, now, deadline, wake))
            <==> !WrongAnswer(value, now, deadline, wake)
  {
    if Normal(deadline) {
      PassedIsNanos(now, deadline);
      PassedIsNanos(wake.now, deadline);
    }
  }

  /** One input of each kind: a free semaphore after the deadline; a signal long before the deadline, with the
      semaphore still taken; the alarm, with the semaphore just posted; and a post between the deadline and the
      alarm, which is set for half a second after it. */
  lemma TimeoutsGoWrong()
    ensures var early, late, deadline := Time(100, 0), Time(300, 0), Time(200, 0);
            && CodeTimedCall(1, late, deadline, Acquired(late)) == Fails(ETIMEDOUT)
            && !PosixMayCall(1, late, deadline, Acquired(late), Fails(ETIMEDOUT))
            && CodeTimedCall(0, early, deadline, Interrupted(0, early)) == Fails(ETIMEDOUT)
            && !PosixMayCall(0, early, deadline, Interrupted(0, early), Fails(ETIMEDOUT))
            && CodeTimedCall(0, early, deadline, Interrupted(1, late)) == Fails(ETIMEDOUT)
            && !PosixMayCall(0, early, deadline, Interrupted(1, late), Fails(ETIMEDOUT))
    ensures var now, deadline, later := Time(100, 0), Time(100, 500_000_000), Time(100, 900_000_000);
            && Nanos(later) < Nanos(now) + AlarmSeconds(now, deadline) * SECOND
            && CodeTimedCall(0, now, deadline, Acquired(later)) == Success
            && !PosixMayCall(0, now, deadline, Acquired(later), Success)
  {
  }
}
