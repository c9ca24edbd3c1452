/**
 The parallel script validator (blockchain/scriptval.go): one dispatcher and several workers over unbuffered
 channels, as the steps they can take. The claims are about every interleaving.
 */
module ScriptValidator {
  import opened Bytes

  /** A worker waits for an item, checks one or offers its result, or has ended. */
  datatype Worker = Idle | Holding(item: nat) | Exited

  /** What Validate returns: nil, or the error of an item. */
  datatype Outcome = Passed | Failed(item: nat)

  /** How many items there are, which of them pass, and how many workers were started. */
  datatype Task = Task(items: nat, passes: nat -> bool, workers: nat)

  /** The quit channel is closed when there is an outcome. `reported` and `handedTo` are history. */
  datatype State = State(
    workers: seq<Worker>, current: nat, processed: nat, outcome: Option<Outcome>, reported: set<nat>,
    handedTo: seq<nat>)

  /** The dispatcher hands over the next item, receives a result, or a worker notices the closed quit channel. */
  datatype Step = Hand(w: nat) | Report(w: nat) | Quit(w: nat)

  /** How many workers Validate starts. */
  method WorkerCount(cpus: int, items: nat) returns (n: nat)
    requires items > 0
    ensures 1 <= n <= items
    ensures cpus > 0 ==> n == if 3 * cpus < items then 3 * cpus else items
  {
    var count := cpus * 3;
    if count <= 0 {
      count := 1;
    }
    if count > items {
      count := items;
    }
    n := count;
  }

  function Initial(t: Task): (s: State) {
    State(seq(t.workers, _ => Idle), 0, 0, if t.items == 0 then Some(Passed) else None, {}, [])
  }

  predicate Enabled(t: Task, s: State, step: Step) {
    match step
    case Hand(w) => w < |s.workers| && s.outcome.None? && s.current < t.items && s.workers[w].Idle?
    case Report(w) => w < |s.workers| && s.outcome.None? && s.workers[w].Holding?
    case Quit(w) => w < |s.workers| && s.outcome.Some? && !s.workers[w].Exited?
  }

  function Next(t: Task, s: State, step: Step): (s': State)
    requires Enabled(t, s, step)
  {
    match step
    case Hand(w) =>
      s.(workers := s.workers[w := Holding(s.current)], current := s.current + 1, handedTo := s.handedTo + [w])
    case Report(w) =>
      var i := s.workers[w].item;
      if t.passes(i) then
        s.(workers := s.workers[w := Idle], processed := s.processed + 1, reported := s.reported + {i},
           outcome := if s.processed + 1 == t.items then Some(Passed) else None)
      else
        s.(workers := s.workers[w := Exited], processed := s.processed + 1, reported := s.reported + {i},
           outcome := Some(Failed(i)))
    case Quit(w) =>
      // A worker whose item passed goes back to waiting first.
      if s.workers[w].Holding? && t.passes(s.workers[w].item) then
        s.(workers := s.workers[w := Idle])
      else
        s.(workers := s.workers[w := Exited])
  }

  // ----- what every step keeps -----

  ghost predicate IsTask(t: Task) {
    t.workers <= t.items && (t.items > 0 ==> t.workers > 0)
  }

  /** A held item is the worker's own, handed over and not reported. */
  ghost predicate HoldsOwn(s: State, w: nat)
    requires w < |s.workers|
  {
    s.workers[w].Holding? ==>
      var i := s.workers[w].item; i < |s.handedTo| && s.handedTo[i] == w && i !in s.reported
  }

  /** An item handed over was reported or is with the worker it was handed to. */
  ghost predicate Accounted(s: State, i: nat)
    requires i < |s.handedTo|
  {
    i in s.reported || (s.handedTo[i] < |s.workers| && s.workers[s.handedTo[i]] == Holding(i))
  }

  ghost predicate Bookkeeping(t: Task, s: State) {
    && |s.workers| == t.workers && |s.handedTo| == s.current <= t.items
    && |s.reported| == s.processed
    && (forall i :: i in s.reported ==> i < s.current)
    && (forall w {:trigger HoldsOwn(s, w)} :: 0 <= w < |s.workers| ==> HoldsOwn(s, w))
  }

  ghost predicate Running(t: Task, s: State) {
    && s.processed < t.items
    && (forall w :: 0 <= w < |s.workers| ==> !s.workers[w].Exited?)
    && (forall i {:trigger Accounted(s, i)} :: 0 <= i < |s.handedTo| ==> Accounted(s, i))
    && forall i :: i in s.reported ==> t.passes(i)
  }

  ghost predicate Inv(t: Task, s: State) {
    && Bookkeeping(t, s)
    && match s.outcome
       case None => Running(t, s)
       case Some(Passed) => forall i :: 0 <= i < t.items ==> t.passes(i)
       case Some(Failed(i)) => i < t.items && !t.passes(i)
  }

  lemma {:induction false} WholeRange(keys: set<nat>, n: nat)
    requires forall i :: i in keys ==> i < n
    ensures |keys| <= n
    ensures |keys| == n <==> forall i :: 0 <= i < n ==> i in keys
  {
    if n > 0 {
      var rest := keys - {n - 1};
      WholeRange(rest, n - 1);
      if n - 1 in keys {
        assert keys == rest + {n - 1};
      } else {
        assert keys == rest;
      }
    }
  }

  lemma HandKeeps(t: Task, s: State, w: nat)
    requires Inv(t, s) && Enabled(t, s, Hand(w))
    ensures Inv(t, Next(t, s, Hand(w)))
  {
    var s' := Next(t, s, Hand(w));
    forall v | 0 <= v < |s'.workers| ensures HoldsOwn(s', v) {
      assert HoldsOwn(s, v);
    }
    forall i | 0 <= i < |s'.handedTo| ensures Accounted(s', i) {
      if i < |s.handedTo| {
        assert Accounted(s, i);
      }
    }
  }

  /** The bookkeeping after a result came in, whatever it was. */
  lemma ReportBooks(t: Task, s: State, w: nat)
    requires Inv(t, s) && Enabled(t, s, Report(w))
    ensures Bookkeeping(t, Next(t, s, Report(w)))
    ensures s.workers[w].item < t.items
  {
    var s' := Next(t, s, Report(w));
    var i := s.workers[w].item;
    assert HoldsOwn(s, w);
    assert s'.reported == s.reported + {i} && s'.handedTo == s.handedTo;
    forall v | 0 <= v < |s'.workers| ensures HoldsOwn(s', v) {
      assert HoldsOwn(s, v);
      if v != w {
        assert s'.workers[v] == s.workers[v] && s.workers[v] != Holding(i);
      }
    }
  }

  lemma ReportKeeps(t: Task, s: State, w: nat)
    requires Inv(t, s) && Enabled(t, s, Report(w))
    ensures Inv(t, Next(t, s, Report(w)))
  {
    var s' := Next(t, s, Report(w));
    ReportBooks(t, s, w);
    if t.passes(s.workers[w].item) {
      WholeRange(s'.reported, t.items);
      forall i | 0 <= i < |s'.handedTo| ensures Accounted(s', i) {
        assert Accounted(s, i);
      }
    }
  }

  lemma QuitKeeps(t: Task, s: State, w: nat)
    requires Inv(t, s) && Enabled(t, s, Quit(w))
    ensures Inv(t, Next(t, s, Quit(w)))
  {
    var s' := Next(t, s, Quit(w));
    forall v | 0 <= v < |s'.workers| ensures HoldsOwn(s', v) {
      assert HoldsOwn(s, v);
    }
  }

  lemma StepKeeps(t: Task, s: State, step: Step)
    requires Inv(t, s) && Enabled(t, s, step)
    ensures Inv(t, Next(t, s, step))
  {
    match step
    case Hand(w) => HandKeeps(t, s, w);
    case Report(w) => ReportKeeps(t, s, w);
    case Quit(w) => QuitKeeps(t, s, w);
  }

  // ----- progress -----

  /** Before the outcome the dispatcher can always hand over an item or receive a result. */
  lemma NeverStuck(t: Task, s: State) returns (step: Step)
    requires IsTask(t) && Inv(t, s) && s.outcome.None?
    ensures Enabled(t, s, step) && !step.Quit?
  {
    if s.current < t.items {
      if s.workers[0].Idle? {
        step := Hand(0);
      } else {
        step := Report(0);
      }
    } else {
      WholeRange(s.reported, t.items);
      var i :| 0 <= i < t.items && i !in s.reported;
      assert Accounted(s, i);
      step := Report(s.handedTo[i]);
    }
  }

  function Rank(worker: Worker): (n: nat) {
    match worker
    case Idle => 1
    case Holding(_) => 2
    case Exited => 0
  }

  function Ranks(workers: seq<Worker>): (n: nat) {
    if workers == [] then 0 else Ranks(workers[..|workers| - 1]) + Rank(workers[|workers| - 1])
  }

  lemma {:induction false} RanksUpdate(workers: seq<Worker>, w: nat, worker: Worker)
    requires w < |workers|
    ensures Ranks(workers[w := worker]) == Ranks(workers) - Rank(workers[w]) + Rank(worker)
  {
    var last := |workers| - 1;
    if w == last {
      assert workers[w := worker][..last] == workers[..last];
    } else {
      assert workers[w := worker][..last] == workers[..last][w := worker];
      RanksUpdate(workers[..last], w, worker);
    }
  }

  /** How many steps are left at most. */
  function Remaining(t: Task, s: State): (n: int) {
    2 * (t.items - s.current) + Ranks(s.workers)
  }

  lemma StepDecreases(t: Task, s: State, step: Step)
    requires Inv(t, s) && Enabled(t, s, step)
    ensures 0 <= Remaining(t, Next(t, s, step)) < Remaining(t, s)
  {
    StepKeeps(t, s, step);
    RanksUpdate(s.workers, step.w, Next(t, s, step).workers[step.w]);
  }

  // ----- runs -----

  /** The state after a run of steps from the start, if each was enabled in turn. */
  function Run(t: Task, steps: seq<Step>): (s: Option<State>) {
    if steps == [] then
      Some(Initial(t))
    else
      var s := Run(t, steps[..|steps| - 1]);
      if s.Some? && Enabled(t, s.value, steps[|steps| - 1]) then Some(Next(t, s.value, steps[|steps| - 1])) else None
  }

  lemma {:induction false} IdleRanks(n: nat)
    ensures Ranks(seq(n, _ => Idle)) == n
  {
    if n > 0 {
      assert seq(n, _ => Idle)[..n - 1] == seq(n - 1, _ => Idle);
      IdleRanks(n - 1);
    }
  }

  /** Every run keeps the books and ends within two steps an item and one a worker. */
  lemma {:induction false} RunInv(t: Task, steps: seq<Step>, s: State)
    requires IsTask(t) && Run(t, steps) == Some(s)
    ensures Inv(t, s)
    ensures |steps| + Remaining(t, s) <= 2 * t.items + t.workers
  {
    if steps == [] {
      IdleRanks(t.workers);
    } else {
      var s0 := Run(t, steps[..|steps| - 1]).value;
      RunInv(t, steps[..|steps| - 1], s0);
      StepKeeps(t, s0, steps[|steps| - 1]);
      StepDecreases(t, s0, steps[|steps| - 1]);
    }
  }

  ghost predicate AllPass(t: Task) {
    forall i :: 0 <= i < t.items ==> t.passes(i)
  }

  /** In every interleaving Validate returns nil only if every item passed, and an error only of an item that failed. */
  lemma OutcomeIsRight(t: Task, steps: seq<Step>, s: State)
    requires IsTask(t) && Run(t, steps) == Some(s)
    ensures s.outcome == Some(Passed) ==> AllPass(t)
    ensures s.outcome.Some? && s.outcome.value.Failed? ==>
      s.outcome.value.item < t.items && !t.passes(s.outcome.value.item)
    ensures |steps| <= 2 * t.items + t.workers
  {
    RunInv(t, steps, s);
  }

  /** A run that can go no further has returned, exactly as the sequential check would, and every worker has ended. */
  lemma ParallelIsSequential(t: Task, steps: seq<Step>, s: State)
    requires IsTask(t) && Run(t, steps) == Some(s) && forall step :: !Enabled(t, s, step)
    ensures s.outcome.Some?
    ensures s.outcome == Some(Passed) <==> AllPass(t)
    ensures |s.workers| == t.workers && forall w :: 0 <= w < t.workers ==> s.workers[w] == Exited
  {
    RunInv(t, steps, s);
    if s.outcome.None? {
      var step := NeverStuck(t, s);
    }
    OutcomeIsRight(t, steps, s);
    forall w | 0 <= w < t.workers ensures s.workers[w] == Exited {
      assert !Enabled(t, s, Quit(w));
    }
  }

  /** Each item is handed over at most once: a worker holds only what was handed to it, and no other holds the same. */
  lemma OneWorkerPerItem(t: Task, steps: seq<Step>, s: State, v: nat, w: nat)
    requires IsTask(t) && Run(t, steps) == Some(s) && v < |s.workers| && w < |s.workers|
    requires s.workers[v].Holding? && s.workers[v] == s.workers[w]
    ensures v == w && s.workers[v].item < s.current && s.workers[v].item !in s.reported
  {
    RunInv(t, steps, s);
    assert HoldsOwn(s, v) && HoldsOwn(s, w);
  }
}
