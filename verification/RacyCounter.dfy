/** Two threads incrementing a global without synchronisation, chapter_30/thread_incr.c: which final values
    of the counter are possible. Load, increment and store are separate steps; a schedule says which thread
    takes each step. */
module RacyCounter {
  import opened Basics

  datatype Position = Load | Increment | Store

  datatype Thread = Thread(pos: Position, loc: int, j: nat)

  datatype State = State(glob: int, threads: seq<Thread>)

  const START := State(0, [Thread(Load, 0, 0), Thread(Load, 0, 0)])

  predicate CanStep(loops: nat, s: State, t: nat) {
    t < |s.threads| && s.threads[t].j < loops
  }

  function Step(loops: nat, s: State, t: nat): State
    requires CanStep(loops, s, t)
  {
    var th := s.threads[t];
    match th.pos
    case Load => s.(threads := s.threads[t := th.(pos := Increment, loc := s.glob)])
    case Increment => s.(threads := s.threads[t := th.(pos := Store, loc := th.loc + 1)])
    case Store => s.(glob := th.loc, threads := s.threads[t := th.(pos := Load, j := th.j + 1)])
  }

  /** The schedule can be carried out from `s`, and ends in `s'`. */
  predicate Reaches(loops: nat, s: State, schedule: seq<nat>, s': State)
    decreases |schedule|
  {
    if schedule == [] then s == s'
    else CanStep(loops, s, schedule[0]) && Reaches(loops, Step(loops, s, schedule[0]), schedule[1..], s')
  }

  predicate Finished(loops: nat, s: State) {
    |s.threads| == 2 && s.threads[0].j == s.threads[1].j == loops
  }

  /** `v` is printed by some complete schedule. */
  ghost predicate Possible(loops: nat, v: int) {
    exists schedule, s :: Reaches(loops, START, schedule, s) && Finished(loops, s) && s.glob == v
  }

  // ---------------------------------------------------------------- bounds

  /** A thread has seen at least one store if it has made one, and no more than have been made. */
  predicate ThreadInv(th: Thread, stores: nat) {
    match th.pos
    case Load => true
    case Increment => Min(th.j, 1) <= th.loc <= stores
    case Store => Min(th.j, 1) + 1 <= th.loc <= stores + 1
  }

  /** The counter is at most the number of stores made; and the thread that stored last has made at least as
      many stores as the counter shows, up to two. */
  predicate Inv(s: State) {
    && |s.threads| == 2
    && var j0, j1 := s.threads[0].j, s.threads[1].j;
    && Min(2, Min(j0, j1)) <= s.glob <= j0 + j1
    && (j0 + j1 > 0 ==> s.glob > 0)
    && ThreadInv(s.threads[0], j0 + j1) && ThreadInv(s.threads[1], j0 + j1)
  }

  lemma StepKeepsInv(loops: nat, s: State, t: nat)
    requires Inv(s) && CanStep(loops, s, t)
    ensures Inv(Step(loops, s, t))
  {
  }

  lemma {:induction false} RunKeepsInv(loops: nat, s: State, schedule: seq<nat>, s': State)
    requires Inv(s) && Reaches(loops, s, schedule, s')
    ensures Inv(s')
    decreases |schedule|
  {
    hide Inv, Step;
    if schedule != [] {
      StepKeepsInv(loops, s, schedule[0]);
      RunKeepsInv(loops, Step(loops, s, schedule[0]), schedule[1..], s');
    }
  }

  // ---------------------------------------------------------------- schedules that reach every value between

  lemma {:induction false} Then(loops: nat, a: State, first: seq<nat>, b: State, second: seq<nat>, c: State)
    requires Reaches(loops, a, first, b) && Reaches(loops, b, second, c)
    ensures Reaches(loops, a, first + second, c)
    decreases |first|
  {
    if first == [] {
      assert first + second == second;
    } else {
      Then(loops, Step(loops, a, first[0]), first[1..], b, second, c);
      assert (first + second)[1..] == first[1..] + second;
    }
  }

  /** Thread `t` makes `k` rounds on its own, the other one standing still anywhere. */
  lemma {:induction false} Alone(loops: nat, s: State, t: nat, k: nat) returns (schedule: seq<nat>, s': State)
    requires |s.threads| == 2 && t < 2 && s.threads[t].pos == Load && s.threads[t].j + k <= loops
    ensures Reaches(loops, s, schedule, s')
    ensures s'.glob == s.glob + k && |s'.threads| == 2 && s'.threads[1 - t] == s.threads[1 - t]
    ensures s'.threads[t].pos == Load && s'.threads[t].j == s.threads[t].j + k
    decreases k
  {
    if k == 0 {
      schedule, s' := [], s;
    } else {
      var s3, rest := Round(loops, s, t);
      schedule, s' := Alone(loops, s3, t, k - 1);
      Then(loops, s, rest, s3, schedule, s');
      schedule := rest + schedule;
    }
  }

  lemma Round(loops: nat, s: State, t: nat) returns (s': State, schedule: seq<nat>)
    requires |s.threads| == 2 && t < 2 && s.threads[t].pos == Load && s.threads[t].j < loops
    ensures Reaches(loops, s, schedule, s')
    ensures s'.glob == s.glob + 1 && |s'.threads| == 2 && s'.threads[1 - t] == s.threads[1 - t]
    ensures s'.threads[t].pos == Load && s'.threads[t].j == s.threads[t].j + 1
  {
    var s1 := Step(loops, s, t);
    var s2 := Step(loops, s1, t);
    s' := Step(loops, s2, t);
    assert [t, t][1..] == [t] && [t, t, t][1..] == [t, t];
    assert Reaches(loops, s2, [t], s') && Reaches(loops, s1, [t, t], s');
    schedule := [t, t, t];
  }

  /** Thread `t` loads; the load goes stale while others run. */
  lemma Begin(loops: nat, s: State, t: nat) returns (s': State)
    requires |s.threads| == 2 && t < 2 && s.threads[t].pos == Load && s.threads[t].j < loops
    ensures Reaches(loops, s, [t], s')
    ensures s' == State(s.glob, s.threads[t := Thread(Increment, s.glob, s.threads[t].j)])
  {
    s' := Step(loops, s, t);
  }

  lemma End(loops: nat, s: State, t: nat) returns (s': State)
    requires |s.threads| == 2 && t < 2 && s.threads[t].pos == Increment && s.threads[t].j < loops
    ensures Reaches(loops, s, [t, t], s')
    ensures s'.glob == s.threads[t].loc + 1 && |s'.threads| == 2 && s'.threads[1 - t] == s.threads[1 - t]
    ensures s'.threads[t].pos == Load && s'.threads[t].j == s.threads[t].j + 1
  {
    var s1 := Step(loops, s, t);
    s' := Step(loops, s1, t);
    assert [t, t][1..] == [t];
    assert Reaches(loops, s1, [t], s');
  }

  /** `k` rounds in step: both load, both store, and one of the two updates is lost each time. */
  lemma {:induction false} InStep(loops: nat, s: State, k: nat) returns (schedule: seq<nat>, s': State)
    requires |s.threads| == 2 && s.threads[0].pos == s.threads[1].pos == Load
    requires s.threads[0].j == s.threads[1].j && s.threads[0].j + k <= loops
    ensures Reaches(loops, s, schedule, s') && s'.glob == s.glob + k && |s'.threads| == 2
    ensures s'.threads[0].pos == s'.threads[1].pos == Load
    ensures s'.threads[0].j == s'.threads[1].j == s.threads[0].j + k
    decreases k
  {
    if k == 0 {
      schedule, s' := [], s;
    } else {
      var s1 := Begin(loops, s, 0);
      var s2 := Begin(loops, s1, 1);
      var s3 := End(loops, s2, 0);
      var s4 := End(loops, s3, 1);
      Then(loops, s, [0], s1, [1], s2);
      Then(loops, s, [0] + [1], s2, [0, 0], s3);
      Then(loops, s, [0] + [1] + [0, 0], s3, [1, 1], s4);
      schedule, s' := InStep(loops, s4, k - 1);
      Then(loops, s, [0] + [1] + [0, 0] + [1, 1], s4, schedule, s');
      schedule := [0] + [1] + [0, 0] + [1, 1] + schedule;
    }
  }

  /** From `loops` upwards: lose one update in each of the first rounds. */
  lemma ReachHigh(loops: nat, v: nat) returns (schedule: seq<nat>, s: State)
    requires loops <= v <= 2 * loops
    ensures Reaches(loops, START, schedule, s) && Finished(loops, s) && s.glob == v
  {
    var k := 2 * loops - v;
    var a, s1 := InStep(loops, START, k);
    var b, s2 := Alone(loops, s1, 0, loops - k);
    var c, s3 := Alone(loops, s2, 1, loops - k);
    Then(loops, START, a, s1, b, s2);
    Then(loops, START, a + b, s2, c, s3);
    schedule, s := a + b + c, s3;
  }

  /** From 2 to `loops`: thread 0 wipes out all but the last round of thread 1 with a stale 0, and thread 1
      wipes out the last rounds of thread 0 with a stale v - 1. */
  lemma ReachLow(loops: nat, v: nat) returns (schedule: seq<nat>, s: State)
    requires 2 <= v <= loops
    ensures Reaches(loops, START, schedule, s) && Finished(loops, s) && s.glob == v
  {
    var s1 := Begin(loops, START, 0);
    var a, s2 := Alone(loops, s1, 1, loops - 1);
    var s3 := End(loops, s2, 0);
    var b, s4 := Alone(loops, s3, 0, v - 2);
    var s5 := Begin(loops, s4, 1);
    var c, s6 := Alone(loops, s5, 0, loops - (v - 1));
    var s7 := End(loops, s6, 1);
    Then(loops, START, [0], s1, a, s2);
    Then(loops, START, [0] + a, s2, [0, 0], s3);
    Then(loops, START, [0] + a + [0, 0], s3, b, s4);
    Then(loops, START, [0] + a + [0, 0] + b, s4, [1], s5);
    Then(loops, START, [0] + a + [0, 0] + b + [1], s5, c, s6);
    Then(loops, START, [0] + a + [0, 0] + b + [1] + c, s6, [1, 1], s7);
    schedule, s := [0] + a + [0, 0] + b + [1] + c + [1, 1], s7;
  }

  // ---------------------------------------------------------------- the theorem

  /** The possible final values are exactly those from 2 (from 1, with a single round) to 2 * loops. */
  lemma FinalValues(loops: nat, v: int)
    requires loops > 0
    ensures Possible(loops, v) <==> Min(loops, 2) <= v <= 2 * loops
  {
    if Possible(loops, v) {
      var schedule, s :| Reaches(loops, START, schedule, s) && Finished(loops, s) && s.glob == v;
      RunKeepsInv(loops, START, schedule, s);
    }
    if loops <= v <= 2 * loops {
      var schedule, s := ReachHigh(loops, v);
    } else if 2 <= v <= loops {
      var schedule, s := ReachLow(loops, v);
    }
  }
}
