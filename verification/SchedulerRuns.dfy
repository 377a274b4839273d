/**
 What holds over every run of the scheduler: any sequence of ticks and forks, in any
 interleaving.
 */
module SchedulerRuns {
  import opened Rust
  import opened Sequences
  import opened Arithmetic
  import opened Scheduler

  datatype Step = Tick | Fork

  function Apply(s: Schedule, step: Step): (s': Schedule)
    requires s.queue != []
    ensures s'.queue != []
  {
    match step
    case Tick => Ticked(s)
    case Fork => Forked(s)
  }

  /** The schedule after a run. */
  function After(s: Schedule, steps: seq<Step>): (s': Schedule)
    requires s.queue != []
    ensures s'.queue != []
  {
    if steps == [] then s
    else Apply(After(s, steps[..|steps| - 1]), steps[|steps| - 1])
  }

  function Count(steps: seq<Step>, step: Step): nat {
    if steps == [] then 0
    else Count(steps[..|steps| - 1], step) + if steps[|steps| - 1] == step then 1 else 0
  }

  /** The number of quanta that expire during a run: of ticks that find nothing remaining. */
  function Expiries(s: Schedule, steps: seq<Step>): nat
    requires s.queue != []
  {
    if steps == [] then 0
    else
      var before := steps[..|steps| - 1];
      Expiries(s, before) + if steps[|steps| - 1] == Tick && After(s, before).remaining == 0 then 1 else 0
  }

  /** The number of ticks of a run that find the given process at the front. */
  function FrontTicks(s: Schedule, steps: seq<Step>, id: nat): nat
    requires s.queue != []
  {
    if steps == [] then 0
    else
      var before := steps[..|steps| - 1];
      FrontTicks(s, before, id) + if steps[|steps| - 1] == Tick && After(s, before).queue[0].id == id then 1 else 0
  }

  /** A queue with the run states blanked out: who the processes are, and in what order. */
  function Tasks(queue: seq<Process>): (tasks: seq<Process>)
    ensures |tasks| == |queue|
  {
    seq(|queue|, i requires 0 <= i < |queue| => queue[i].(state := Stopped))
  }

  lemma FrontTask(queue: seq<Process>)
    requires queue != []
    ensures Tasks(queue)[0].id == Ids(queue)[0] == queue[0].id
  {
  }

  function Ticks(n: nat): (steps: seq<Step>)
    ensures |steps| == n && forall i :: 0 <= i < n ==> steps[i] == Tick
  {
    seq(n, _ => Tick)
  }

  // ------------------------------------------------------------------ the clock

  lemma ClockStep(s: Schedule, step: Step, used: nat)
    requires s.queue != [] && s.remaining == s.quantum - used % (s.quantum + 1)
    ensures var period, used' := s.quantum + 1, used + if step == Tick then 1 else 0;
            && Apply(s, step).quantum == s.quantum
            && Apply(s, step).remaining == s.quantum - used' % period
            && used' / period == used / period + if step == Tick && s.remaining == 0 then 1 else 0
  {
    DivModSucc(used, s.quantum + 1);
  }

  /** Ticks alone move the countdown; forks leave it alone. With `c` the part of the current
      quantum already used, the state of the clock is the quotient and remainder of ticks + c
      by quantum + 1. */
  lemma {:induction false} Clock(s: Schedule, steps: seq<Step>)
    requires s.queue != [] && s.remaining <= s.quantum
    ensures var period, used := s.quantum + 1, Count(steps, Tick) + s.quantum - s.remaining;
            && After(s, steps).quantum == s.quantum
            && After(s, steps).remaining == s.quantum - used % period
            && Expiries(s, steps) == used / period
  {
    var period, used := s.quantum + 1, Count(steps, Tick) + s.quantum - s.remaining;
    if steps == [] {
      DivModUnique(used, 0, s.quantum - s.remaining, period);
    } else {
      var before := steps[..|steps| - 1];
      hide Apply;
      Clock(s, before);
      ClockStep(After(s, before), steps[|steps| - 1], Count(before, Tick) + s.quantum - s.remaining);
    }
  }

  // ------------------------------------------------------- the timer interrupt

  /** The timer and the scheduler together. */
  datatype Machine = Machine(elapsed: u32, schedule: Schedule)

  function Handled(m: Machine, step: Step): (m': Machine)
    requires m.schedule.queue != []
    ensures m'.schedule.queue != []
  {
    match step
    case Tick => Machine((m.elapsed + 1) % TWO_POW_32, Ticked(m.schedule))
    case Fork => m.(schedule := Forked(m.schedule))
  }

  function Uptime(quantum: nat, steps: seq<Step>): (m: Machine)
    ensures m.schedule.queue != []
  {
    if steps == [] then Machine(0, Boot(quantum))
    else Handled(Uptime(quantum, steps[..|steps| - 1]), steps[|steps| - 1])
  }

  lemma HandledStep(elapsed: nat, s: Schedule, step: Step)
    requires s.queue != []
    ensures Handled(Machine(elapsed % TWO_POW_32, s), step) ==
            Machine((elapsed + if step == Tick then 1 else 0) % TWO_POW_32, Apply(s, step))
  {
    hide Ticked, Forked;
    DivModSucc(elapsed, TWO_POW_32);
  }

  lemma {:induction false} UptimeRuns(quantum: nat, steps: seq<Step>)
    ensures Uptime(quantum, steps) == Machine(Count(steps, Tick) % TWO_POW_32, After(Boot(quantum), steps))
  {
    if steps == [] {
    } else {
      hide Handled, Apply;
      var before := steps[..|steps| - 1];
      UptimeRuns(quantum, before);
      HandledStep(Count(before, Tick), After(Boot(quantum), before), steps[|steps| - 1]);
    }
  }

  /** Timer and scheduler stay in lock step: until the 32-bit clock wraps, its reading alone
      tells how much of the quantum remains and how many quanta have expired. */
  lemma LockStep(quantum: nat, steps: seq<Step>)
    requires Count(steps, Tick) < TWO_POW_32
    ensures var m := Uptime(quantum, steps);
            && m.elapsed == Count(steps, Tick)
            && m.schedule.remaining == quantum - m.elapsed % (quantum + 1)
            && Expiries(Boot(quantum), steps) == m.elapsed / (quantum + 1)
  {
    hide Uptime, After, Expiries, Count;
    UptimeRuns(quantum, steps);
    Clock(Boot(quantum), steps);
  }

  // ------------------------------------------------------------- process ids

  function Ids(queue: seq<Process>): (ids: seq<nat>)
    ensures |ids| == |queue|
  {
    seq(|queue|, i requires 0 <= i < |queue| => queue[i].id)
  }

  function FirstIds(n: nat): (ids: seq<nat>)
    ensures |ids| == n
  {
    seq(n, i => i + 1)
  }

  lemma SwitchedIds(queue: seq<Process>)
    requires queue != []
    ensures Ids(Switched(queue)) == Ids(queue)[1..] + [queue[0].id]
    ensures multiset(Ids(Switched(queue))) == multiset(Ids(queue))
  {
    assert Ids(Switched(queue)) == Ids(queue)[1..] + [queue[0].id];
    assert Ids(queue) == [queue[0].id] + Ids(queue)[1..];
  }

  /** The processes are numbered 1, 2, ..., |queue|, in some order. */
  predicate Numbered(queue: seq<Process>) {
    && multiset(Ids(queue)) == multiset(FirstIds(|queue|))
    && Distinct(Ids(queue))
    && forall i :: 0 <= i < |queue| ==> 1 <= Ids(queue)[i] <= |queue|
  }

  lemma ForkNumbers(s: Schedule)
    requires s.queue != [] && Numbered(s.queue)
    ensures Numbered(Forked(s).queue)
  {
    var queue := Forked(s).queue;
    assert Ids(queue) == Ids(s.queue) + [|s.queue| + 1];
    assert FirstIds(|queue|) == FirstIds(|s.queue|) + [|s.queue| + 1];
  }

  lemma SwitchNumbers(queue: seq<Process>)
    requires queue != [] && Numbered(queue)
    ensures Numbered(Switched(queue))
  {
    SwitchedIds(queue);
    FrontTask(queue);
    var ids := Ids(queue);
    assert Ids(Switched(queue)) == ids[1..] + [ids[0]];
  }

  /** The processes of a booted system are numbered in this way, and the next fork gets the
      next number, so no number is used twice. */
  lemma {:induction false} ProcessIds(quantum: nat, steps: seq<Step>)
    ensures var s := After(Boot(quantum), steps);
            && |s.queue| == 1 + Count(steps, Fork)
            && Numbered(s.queue)
            && ForkId(s) == Count(steps, Fork) + 2
  {
    if steps == [] {
      assert Ids(Boot(quantum).queue) == FirstIds(1);
    } else {
      var before, step := steps[..|steps| - 1], steps[|steps| - 1];
      ProcessIds(quantum, before);
      var s := After(Boot(quantum), before);
      if step == Fork {
        ForkNumbers(s);
      } else if s.remaining == 0 && |s.queue| >= 2 {
        SwitchNumbers(s.queue);
      }
    }
  }

  /** Every process is a copy of the first, registers and name and all, but for its number and
      its run state. */
  lemma {:induction false} AllCopies(quantum: nat, steps: seq<Step>, i: nat)
    requires i < |After(Boot(quantum), steps).queue|
    ensures var p := After(Boot(quantum), steps).queue[i];
            p.name == "kernel" && p.context == seq(18, _ => 0)
  {
    if steps == [] {
    } else {
      var before := steps[..|steps| - 1];
      var s := After(Boot(quantum), before);
      AllCopies(quantum, before, 0);
      AllCopies(quantum, before, if i < |s.queue| then i else 0);
      AllCopies(quantum, before, if i + 1 < |s.queue| then i + 1 else 0);
    }
  }

  // --------------------------------------------------------------- run states

  /** The ids of the processes that have been at the front at some moment of a run. */
  function EverFront(s: Schedule, steps: seq<Step>): set<nat>
    requires s.queue != []
  {
    {After(s, steps).queue[0].id} + if steps == [] then {} else EverFront(s, steps[..|steps| - 1])
  }

  lemma {:induction false} EverFrontKnown(quantum: nat, steps: seq<Step>, id: nat)
    requires id in EverFront(Boot(quantum), steps)
    ensures id <= |After(Boot(quantum), steps).queue|
  {
    ProcessIds(quantum, steps);
    FrontTask(After(Boot(quantum), steps).queue);
    if steps == [] || id == After(Boot(quantum), steps).queue[0].id {
    } else {
      EverFrontKnown(quantum, steps[..|steps| - 1], id);
    }
  }

  /** A forked child starts as a copy of the running front, so the front is not the only
      process marked Running: it is joined by exactly the processes that have never yet been
      at the front. */
  lemma {:induction false} RunStates(quantum: nat, steps: seq<Step>, i: nat)
    requires i < |After(Boot(quantum), steps).queue|
    ensures var p := After(Boot(quantum), steps).queue[i];
            p.state == Running <==> i == 0 || p.id !in EverFront(Boot(quantum), steps)
  {
    if steps == [] {
    } else {
      var before := steps[..|steps| - 1];
      var s, s' := After(Boot(quantum), before), After(Boot(quantum), steps);
      ProcessIds(quantum, before);
      ProcessIds(quantum, steps);
      if steps[|steps| - 1] == Fork {
        if i < |s.queue| {
          RunStates(quantum, before, i);
        } else {
          RunStates(quantum, before, 0);
          if s'.queue[i].id in EverFront(Boot(quantum), before) {
            EverFrontKnown(quantum, before, s'.queue[i].id);
          }
        }
        assert s'.queue[0] == s.queue[0];
      } else if s.remaining == 0 && |s.queue| >= 2 {
        if i < |s.queue| - 1 {
          RunStates(quantum, before, i + 1);
          assert s'.queue[i].id == s.queue[i + 1].id;
        } else {
          assert s'.queue[i] == s.queue[0].(state := Stopped);
        }
        assert Ids(s'.queue)[0] == s'.queue[0].id && Ids(s'.queue)[i] == s'.queue[i].id;
      } else {
        RunStates(quantum, before, i);
      }
    }
  }

  /** Without forks, each expiry stops one more process at the back of the queue. */
  lemma {:induction false} Settling(s: Schedule, n: nat, i: nat)
    requires |s.queue| >= 2
    requires 0 < i < |s.queue| && |s.queue| - Expiries(s, Ticks(n)) <= i
    ensures |After(s, Ticks(n)).queue| == |s.queue|
    ensures After(s, Ticks(n)).queue[i].state == Stopped
    ensures After(s, Ticks(n)).queue[0].state == Running
  {
    var before := Ticks(n)[..n - 1];
    assert before == Ticks(n - 1);
    TicksKeepLength(s, n - 1);
    var s' := After(s, before);
    if s'.remaining != 0 {
      Settling(s, n - 1, i);
    } else if i < |s.queue| - 1 {
      Settling(s, n - 1, i + 1);
    }
  }

  lemma {:induction false} TicksKeepLength(s: Schedule, n: nat)
    requires s.queue != []
    ensures |After(s, Ticks(n)).queue| == |s.queue|
  {
    if n == 0 {
    } else {
      assert Ticks(n)[..n - 1] == Ticks(n - 1);
      TicksKeepLength(s, n - 1);
    }
  }

  /** From any schedule whatever, once as many quanta have expired without a fork as there are
      other processes, the front is the only process marked Running. */
  lemma Convergence(s: Schedule, n: nat)
    requires |s.queue| >= 2
    requires Expiries(s, Ticks(n)) >= |s.queue| - 1
    ensures var queue := After(s, Ticks(n)).queue;
            |queue| == |s.queue| && forall i :: 0 <= i < |queue| ==> (queue[i].state == Running <==> i == 0)
  {
    TicksKeepLength(s, n);
    forall i | 0 < i < |s.queue|
      ensures After(s, Ticks(n)).queue[i].state == Stopped && After(s, Ticks(n)).queue[0].state == Running
    {
      Settling(s, n, i);
    }
    assert After(s, Ticks(n)).queue[1].state == Stopped;
  }

  // ----------------------------------------------------------------- rotation

  function RotateLeft<T>(s: seq<T>, k: nat): seq<T>
    requires k <= |s|
  {
    s[k..] + s[..k]
  }

  lemma RotateOnce<T>(s: seq<T>, m: nat)
    requires 0 < m <= |s|
    ensures var r := RotateLeft(s, m - 1);
            && r[0] == s[m - 1]
            && r[1..] + [r[0]] == RotateLeft(s, m)
            && s[..m] == s[..m - 1] + [s[m - 1]]
  {
  }

  lemma TicksSucc(s: Schedule, n: nat)
    requires s.queue != []
    ensures After(s, Ticks(n + 1)) == Ticked(After(s, Ticks(n)))
    ensures Expiries(s, Ticks(n + 1)) == Expiries(s, Ticks(n)) + if After(s, Ticks(n)).remaining == 0 then 1 else 0
  {
    assert Ticks(n + 1)[..n] == Ticks(n);
  }

  lemma SwitchedTasks(queue: seq<Process>)
    requires queue != []
    ensures Tasks(Switched(queue)) == Tasks(queue)[1..] + [Tasks(queue)[0]]
  {
  }

  lemma ExpiryRotates(s: Schedule, tasks: seq<Process>, k: nat)
    requires s.remaining == 0 && k < |tasks| && Tasks(s.queue) == RotateLeft(tasks, k)
    ensures Tasks(Ticked(s).queue) == RotateLeft(tasks, if k == |tasks| - 1 then 0 else k + 1)
  {
    assert |s.queue| == |tasks|;
    RotateOnce(tasks, k + 1);
    SwitchedTasks(s.queue);
    assert RotateLeft(tasks, |tasks|) == RotateLeft(tasks, 0);
  }

  /** The place in a queue of the given length that a number of rotations brings to the front. */
  function Turn(expiries: nat, length: nat): (k: nat)
    requires length > 0
    ensures k < length
  {
    expiries % length
  }

  lemma TurnSucc(expiries: nat, length: nat)
    requires length > 0
    ensures Turn(0, length) == 0
    ensures var k := Turn(expiries, length); Turn(expiries + 1, length) == if k == length - 1 then 0 else k + 1
  {
    DivModUnique(0, 0, 0, length);
    DivModSucc(expiries, length);
  }

  lemma TickRotates(s: Schedule, tasks: seq<Process>, expiries: nat)
    requires tasks != [] && Tasks(s.queue) == RotateLeft(tasks, Turn(expiries, |tasks|))
    ensures Tasks(Ticked(s).queue) == RotateLeft(tasks, Turn(expiries + if s.remaining == 0 then 1 else 0, |tasks|))
  {
    hide Tasks, RotateLeft, Turn;
    if s.remaining == 0 {
      TurnSucc(expiries, |tasks|);
      ExpiryRotates(s, tasks, Turn(expiries, |tasks|));
    }
  }

  /** Over a fork-free stretch the queue is the earlier queue rotated by the number of
      quanta that expired. */
  lemma {:induction false} Rotation(s: Schedule, n: nat)
    requires s.queue != []
    ensures Tasks(After(s, Ticks(n)).queue) == RotateLeft(Tasks(s.queue), Turn(Expiries(s, Ticks(n)), |s.queue|))
  {
    hide Switched, Turn;
    var tasks := Tasks(s.queue);
    if n == 0 {
      TurnSucc(0, |tasks|);
      assert RotateLeft(tasks, 0) == tasks;
    } else {
      hide *;
      TicksSucc(s, n - 1);
      Rotation(s, n - 1);
      TickRotates(After(s, Ticks(n - 1)), tasks, Expiries(s, Ticks(n - 1)));
    }
  }

  // --------------------------------------------------------- bounded waiting

  lemma AdvanceOnce(s: Schedule, step: Step, k: nat)
    requires |s.queue| >= 2 && (if step == Tick && s.remaining == 0 then 1 else 0) <= k < |s.queue|
    ensures var queue := Apply(s, step).queue;
            && |s.queue| <= |queue|
            && Tasks(queue)[k - if step == Tick && s.remaining == 0 then 1 else 0] == Tasks(s.queue)[k]
  {
  }

  /** Each expiry moves every process one place forward, except the one it sends to the back;
      forks only add behind them. */
  lemma {:induction false} Advance(s: Schedule, steps: seq<Step>, i: nat)
    requires |s.queue| >= 2
    requires Expiries(s, steps) <= i < |s.queue|
    ensures var queue := After(s, steps).queue;
            |s.queue| <= |queue| && Tasks(queue)[i - Expiries(s, steps)] == Tasks(s.queue)[i]
  {
    hide Apply, Tasks;
    if steps == [] {
    } else {
      var before := steps[..|steps| - 1];
      Advance(s, before, i);
      AdvanceOnce(After(s, before), steps[|steps| - 1], i - Expiries(s, before));
    }
  }

  /** The number of ticks after which the process at a place behind the front gets there. */
  function Wait(s: Schedule, i: nat): int {
    s.remaining + 1 + (i - 1) * (s.quantum + 1)
  }

  lemma WaitInQuanta(s: Schedule, i: nat, ticks: nat)
    requires s.remaining <= s.quantum && 1 <= i && ticks <= Wait(s, i)
    ensures var e := (ticks + s.quantum - s.remaining) / (s.quantum + 1);
            e <= i && (e == i <==> ticks == Wait(s, i))
  {
    var period, used := s.quantum + 1, ticks + s.quantum - s.remaining;
    assert Wait(s, i) + s.quantum - s.remaining == period * i;
    var e := used / period;
    assert used == period * e + used % period;
    if e > i {
      MulMonotonic(period, i + 1, e);
    } else if e == i {
      assert period * e == period * i;
    } else if used == period * i {
      DivModUnique(used, i, 0, period);
    }
  }

  lemma ExpiriesByWait(s: Schedule, steps: seq<Step>, i: nat)
    requires s.queue != [] && s.remaining <= s.quantum
    requires 1 <= i && Count(steps, Tick) <= Wait(s, i)
    ensures Expiries(s, steps) <= i && (Expiries(s, steps) == i <==> Count(steps, Tick) == Wait(s, i))
  {
    hide Expiries, Wait, After, Count;
    Clock(s, steps);
    WaitInQuanta(s, i, Count(steps, Tick));
  }

  lemma RemainingBounded(s: Schedule, steps: seq<Step>)
    requires s.queue != [] && s.remaining <= s.quantum
    ensures After(s, steps).remaining <= After(s, steps).quantum == s.quantum
  {
    hide Expiries, After;
    Clock(s, steps);
  }

  lemma AtFront(queue: seq<Process>, k: nat)
    requires k < |queue| && Distinct(Ids(queue))
    ensures queue[0].id == Tasks(queue)[k].id <==> k == 0
  {
    assert Ids(queue)[0] == queue[0].id && Ids(queue)[k] == Tasks(queue)[k].id;
  }

  /** A waiting process is at the front when its wait is over and not before, in any run that
      ends with the processes told apart by their numbers. */
  lemma WaitOver(s: Schedule, steps: seq<Step>, i: nat)
    requires 1 <= i < |s.queue| && s.remaining <= s.quantum
    requires Distinct(Ids(After(s, steps).queue))
    requires Count(steps, Tick) <= Wait(s, i)
    ensures After(s, steps).queue[0].id == s.queue[i].id <==> Count(steps, Tick) == Wait(s, i)
  {
    hide After, Expiries, Count, Wait, Tasks, Ids, Distinct;
    ExpiriesByWait(s, steps, i);
    Advance(s, steps, i);
    AtFront(After(s, steps).queue, i - Expiries(s, steps));
    TaskIds(s.queue, i);
    IdAt(s.queue, i);
  }

  /** However forks and ticks are interleaved, a waiting process stays behind the front until
      its moment comes, and is then at the front. */
  lemma BoundedWaiting(quantum: nat, history: seq<Step>, steps: seq<Step>, i: nat)
    requires 1 <= i < |After(Boot(quantum), history).queue|
    requires Count(steps, Tick) <= Wait(After(Boot(quantum), history), i)
    ensures var s := After(Boot(quantum), history);
            After(s, steps).queue[0].id == s.queue[i].id <==> Count(steps, Tick) == Wait(s, i)
  {
    hide After, Count, Wait, Distinct, Ids;
    RemainingBounded(Boot(quantum), history);
    AfterConcat(Boot(quantum), history, steps);
    ProcessIds(quantum, history + steps);
    WaitOver(After(Boot(quantum), history), steps, i);
  }

  lemma IdAt(queue: seq<Process>, i: nat)
    requires i < |queue|
    ensures Ids(queue)[i] == queue[i].id
  {
  }

  lemma {:induction false} AfterConcat(s: Schedule, a: seq<Step>, b: seq<Step>)
    requires s.queue != []
    ensures After(s, a + b) == After(After(s, a), b)
  {
    if b == [] {
      assert a + b == a;
    } else {
      assert (a + b)[..|a + b| - 1] == a + b[..|b| - 1];
      AfterConcat(s, a, b[..|b| - 1]);
    }
  }

  // ---------------------------------------------------------------- fair share

  lemma {:induction false} FrontTicksConcat(s: Schedule, a: seq<Step>, b: seq<Step>, id: nat)
    requires s.queue != []
    ensures FrontTicks(s, a + b, id) == FrontTicks(s, a, id) + FrontTicks(After(s, a), b, id)
  {
    if b == [] {
      assert a + b == a;
    } else {
      var c := b[..|b| - 1];
      assert (a + b)[..|a + b| - 1] == a + c;
      AfterConcat(s, a, c);
      FrontTicksConcat(s, a, c, id);
    }
  }

  lemma TicksSplit(s: Schedule, m: nat, n: nat, id: nat)
    requires s.queue != []
    ensures After(s, Ticks(m + n)) == After(After(s, Ticks(m)), Ticks(n))
    ensures FrontTicks(s, Ticks(m + n), id) == FrontTicks(s, Ticks(m), id) + FrontTicks(After(s, Ticks(m)), Ticks(n), id)
  {
    assert Ticks(m + n) == Ticks(m) + Ticks(n);
    AfterConcat(s, Ticks(m), Ticks(n));
    FrontTicksConcat(s, Ticks(m), Ticks(n), id);
  }

  /** Within a quantum the front keeps the processor. */
  lemma {:induction false} WithinQuantum(s: Schedule, n: nat, id: nat)
    requires s.queue != [] && n <= s.remaining
    ensures After(s, Ticks(n)) == s.(remaining := s.remaining - n)
    ensures FrontTicks(s, Ticks(n), id) == if s.queue[0].id == id then n else 0
  {
    if n == 0 {
    } else {
      assert Ticks(n)[..n - 1] == Ticks(n - 1);
      WithinQuantum(s, n - 1, id);
    }
  }

  /** The rest of a quantum and the tick that ends it. */
  lemma RestOfQuantum(s: Schedule, id: nat)
    requires |s.queue| >= 2
    ensures After(s, Ticks(s.remaining + 1)) == s.(queue := Switched(s.queue), remaining := s.quantum)
    ensures FrontTicks(s, Ticks(s.remaining + 1), id) == if s.queue[0].id == id then s.remaining + 1 else 0
  {
    WithinQuantum(s, s.remaining, id);
    assert Ticks(s.remaining + 1)[..s.remaining] == Ticks(s.remaining);
  }

  function Share(ids: seq<nat>, id: nat, quantum: nat): nat {
    if id in ids then quantum + 1 else 0
  }

  /** The ticks of a number of whole quanta, switching ticks included. */
  function WholeTicks(m: nat, quantum: nat): nat {
    m * (quantum + 1)
  }

  lemma WholeTicksSucc(m: nat, quantum: nat)
    ensures WholeTicks(m + 1, quantum) == WholeTicks(m, quantum) + quantum + 1
  {
  }

  lemma TaskIds(queue: seq<Process>, i: nat)
    requires i < |queue|
    ensures Tasks(queue)[i].id == Ids(queue)[i]
  {
  }

  /** Over whole quanta, each process that is reached is served for exactly one of them. */
  lemma {:induction false} WholeQuanta(s: Schedule, m: nat, id: nat)
    requires |s.queue| >= 2 && m <= |s.queue| && s.remaining == s.quantum
    requires Distinct(Ids(s.queue))
    ensures var s' := After(s, Ticks(WholeTicks(m, s.quantum)));
            && s'.quantum == s'.remaining == s.quantum
            && Tasks(s'.queue) == RotateLeft(Tasks(s.queue), m)
    ensures FrontTicks(s, Ticks(WholeTicks(m, s.quantum)), id) == Share(Ids(s.queue)[..m], id, s.quantum)
  {
    hide Tasks, Ids, Switched, Ticks, After, FrontTicks;
    var tasks, ids := Tasks(s.queue), Ids(s.queue);
    if m == 0 {
      WithinQuantum(s, 0, id);
      assert tasks == RotateLeft(tasks, 0);
    } else {
      WholeQuanta(s, m - 1, id);
      var served := WholeTicks(m - 1, s.quantum);
      WholeTicksSucc(m - 1, s.quantum);
      TicksSplit(s, served, s.quantum + 1, id);
      var s' := After(s, Ticks(served));
      RestOfQuantum(s', id);
      SwitchedTasks(s'.queue);
      RotateOnce(tasks, m);
      RotateOnce(ids, m);
      FrontTask(s'.queue);
      TaskIds(s.queue, m - 1);
      assert id in ids[..m] <==> id in ids[..m - 1] || id == ids[m - 1];
    }
  }

  lemma RotateBack<T>(s: seq<T>)
    requires s != []
    ensures var r, n := s[1..] + [s[0]], |s| - 1;
            && r[..n] == s[1..]
            && RotateLeft(r, n) == s
            && s == [s[0]] + s[1..]
  {
  }

  lemma OneShare(ids: seq<nat>, id: nat, quantum: nat)
    requires Distinct(ids) && id in ids
    ensures (if ids[0] == id then quantum + 1 else 0) + Share(ids[1..], id, quantum) == quantum + 1
  {
    assert ids == [ids[0]] + ids[1..];
  }

  /** The rest of the current quantum, then one whole quantum for each of the others: the
      queue is back in its order, with the first process at the front again. */
  lemma FullRound(s: Schedule, id: nat)
    requires |s.queue| >= 2
    requires Distinct(Ids(s.queue)) && id in Ids(s.queue)
    ensures var n := s.remaining + 1 + WholeTicks(|s.queue| - 1, s.quantum);
            var s' := After(s, Ticks(n));
            && s'.remaining == s'.quantum == s.quantum
            && Tasks(s'.queue) == Tasks(s.queue)
            && s'.queue[0].id == s.queue[0].id
            && FrontTicks(s, Ticks(n), id) == if s.queue[0].id == id then s.remaining + 1 else s.quantum + 1
  {
    hide Tasks, Ids, Switched, Ticks, After, FrontTicks, Share, Distinct, WholeTicks;
    var others, tasks, ids := |s.queue| - 1, Tasks(s.queue), Ids(s.queue);
    TicksSplit(s, s.remaining + 1, WholeTicks(others, s.quantum), id);
    RestOfQuantum(s, id);
    var s1 := After(s, Ticks(s.remaining + 1));
    SwitchedIds(s.queue);
    SwitchedDistinct(s.queue);
    SwitchedTasks(s.queue);
    WholeQuanta(s1, others, id);
    RotateBack(tasks);
    RotateBack(ids);
    OneShare(ids, id, s.quantum);
    var s2 := After(s1, Ticks(WholeTicks(others, s.quantum)));
    FrontTask(s.queue);
    FrontTask(s2.queue);
  }

  /** Round robin is fair: over any stretch of one quantum (and its switching tick) per queued
      process, from any point within a quantum, every process is at the front for exactly its
      share, and the queue comes back to the order it had. */
  lemma FairShare(s: Schedule, id: nat)
    requires |s.queue| >= 2 && s.remaining <= s.quantum
    requires Distinct(Ids(s.queue)) && id in Ids(s.queue)
    ensures var n := WholeTicks(|s.queue|, s.quantum);
            && FrontTicks(s, Ticks(n), id) == s.quantum + 1
            && Tasks(After(s, Ticks(n)).queue) == Tasks(s.queue)
            && After(s, Ticks(n)).remaining == s.remaining
  {
    hide Tasks, Ids, Ticks, After, FrontTicks, Distinct, WholeTicks;
    var round := s.remaining + 1 + WholeTicks(|s.queue| - 1, s.quantum);
    WholeTicksSucc(|s.queue| - 1, s.quantum);
    FullRound(s, id);
    // the part of the first quantum that was used up before
    TicksSplit(s, round, s.quantum - s.remaining, id);
    WithinQuantum(After(s, Ticks(round)), s.quantum - s.remaining, id);
  }

  /** So it is from every state of a booted system that has something to switch between. */
  lemma FairShareFromBoot(quantum: nat, history: seq<Step>, id: nat)
    requires |After(Boot(quantum), history).queue| >= 2
    requires 1 <= id <= |After(Boot(quantum), history).queue|
    ensures var s := After(Boot(quantum), history);
            && s.quantum == quantum
            && FrontTicks(s, Ticks(WholeTicks(|s.queue|, quantum)), id) == quantum + 1
            && Tasks(After(s, Ticks(WholeTicks(|s.queue|, quantum))).queue) == Tasks(s.queue)
  {
    hide After, FrontTicks, WholeTicks, Tasks;
    var s := After(Boot(quantum), history);
    RemainingBounded(Boot(quantum), history);
    ProcessIds(quantum, history);
    NumberedMeans(s.queue, id);
    FairShare(s, id);
  }

  lemma NumberedMeans(queue: seq<Process>, id: nat)
    requires Numbered(queue) && 1 <= id <= |queue|
    ensures Distinct(Ids(queue)) && id in Ids(queue)
  {
    assert FirstIds(|queue|)[id - 1] == id;
    assert id in multiset(FirstIds(|queue|));
  }

  lemma SwitchedDistinct(queue: seq<Process>)
    requires queue != [] && Distinct(Ids(queue))
    ensures Distinct(Ids(Switched(queue)))
  {
    SwitchedIds(queue);
    assert Ids(queue)[0] == queue[0].id;
  }
}
