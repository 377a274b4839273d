/**
 The round-robin scheduler, the timer, and the interrupt handler that drives both.

 The class works in place, as the kernel does; each method is tied to a function on
 `Schedule` values, about which SchedulerRuns.dfy proves what holds over whole runs.
 */
module Scheduler {
  import opened Rust

  datatype State = Running | Stopped

  /** `context` holds the saved registers, which nothing here reads. */
  datatype Process = Process(id: nat, context: seq<u64>, name: string, state: State)

  datatype Schedule = Schedule(queue: seq<Process>, quantum: nat, remaining: nat)

  /** The front process goes to the back and stops; the new front runs. */
  function Switched(queue: seq<Process>): (switched: seq<Process>)
    requires queue != []
    ensures |switched| == |queue|
  {
    var rotated := queue[1..] + [queue[0].(state := Stopped)];
    rotated[0 := rotated[0].(state := Running)]
  }

  function Ticked(s: Schedule): Schedule {
    if s.remaining == 0 then
      s.(queue := if |s.queue| >= 2 then Switched(s.queue) else s.queue, remaining := s.quantum)
    else
      s.(remaining := s.remaining - 1)
  }

  function ForkId(s: Schedule): nat {
    |s.queue| + 1
  }

  function Forked(s: Schedule): Schedule
    requires s.queue != []
  {
    s.(queue := s.queue + [s.queue[0].(id := ForkId(s))])
  }

  /** The schedule that `scheduler::initialize` leaves behind. */
  function Boot(quantum: nat): Schedule {
    Schedule([Kernel()], quantum, quantum)
  }

  function Kernel(): Process {
    Process(1, seq(18, _ => 0), "kernel", Running)
  }

  class Scheduler {
    var queue: seq<Process>
    const quantum: u32
    var remaining: u32

    ghost function View(): Schedule
      reads this
    {
      Schedule(queue, quantum, remaining)
    }

    constructor (quantum: u32)
      ensures View() == Schedule([], quantum, quantum)
    {
      this.queue := [];
      this.quantum := quantum;
      this.remaining := quantum;
    }

    method Add(process: Process)
      modifies this`queue
      ensures queue == old(queue) + [process]
    {
      queue := queue + [process];
    }

    /** `remaining - 1` cannot underflow: the other branch takes the zero. */
    method Tick()
      modifies this
      ensures View() == Ticked(old(View()))
    {
      if remaining == 0 {
        if |queue| >= 2 {
          Switch();
        }
        remaining := quantum;
      } else {
        remaining := remaining - 1;
      }
    }

    /** `Scheduler::schedule`, whose only caller has at least two processes. */
    method Switch()
      requires queue != []
      modifies this`queue
      ensures queue == Switched(old(queue))
    {
      var current := queue[0];
      queue := queue[1..];
      queue := queue + [current];
      var back := |queue| - 1;
      queue := queue[back := queue[back].(state := Stopped)];
      queue := queue[0 := queue[0].(state := Running)];
    }

    method Fork() returns (pid: Outcome<nat>)
      modifies this`queue
      ensures old(queue) == [] ==> pid == Panics && queue == old(queue)
      ensures old(queue) != [] ==> pid == Returns(ForkId(old(View()))) && View() == Forked(old(View()))
    {
      if queue == [] {
        return Panics;
      }
      var child := queue[0];
      child := child.(id := |queue| + 1);
      pid := Returns(child.id);
      Add(child);
    }
  }

  /** `SCHEDULER` after its lazy construction and `scheduler::initialize`. */
  method Initialize() returns (scheduler: Scheduler)
    ensures fresh(scheduler) && scheduler.View() == Boot(100)
  {
    scheduler := new Scheduler(100);
    scheduler.Add(Kernel());
  }

  class Timer {
    var elapsed: u32

    constructor ()
      ensures elapsed == 0
    {
      elapsed := 0;
    }

    /** An atomic `fetch_add`, which wraps instead of panicking. */
    method Increment()
      modifies this
      ensures elapsed == (old(elapsed) + 1) % TWO_POW_32
    {
      elapsed := (elapsed + 1) % TWO_POW_32;
    }
  }

  /** `timer_handler`: the clock first, then the scheduler. */
  method TimerHandler(timer: Timer, scheduler: Scheduler)
    modifies timer, scheduler
    ensures timer.elapsed == (old(timer.elapsed) + 1) % TWO_POW_32
    ensures scheduler.View() == Ticked(old(scheduler.View()))
  {
    timer.Increment();
    scheduler.Tick();
  }
}
