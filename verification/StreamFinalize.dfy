/** Counting and finalising a streamed response body (src/mitm/flow/dispatcher.rs), over every
    interleaving of polls, drop and the spawned commit task. */
module StreamFinalize {
  import opened Wrappers

  /** What a poll of the inner body can yield; only the length of data matters here. */
  datatype PollResult = DataFrame(length: nat) | TrailersFrame | Pending | Failed | Ended

  /** The steps of a run: the owner polls or drops the body, the runtime runs the commit task. */
  datatype Step = Poll(result: PollResult) | DropBody | RunCommit

  /** What the commit task records. */
  datatype Commit = Commit(size: int, interrupted: bool)

  const USIZE := 0x1_0000_0000_0000_0000
  const I64_LIMIT := 0x8000_0000_0000_0000

  /** An atomic counter wraps around. */
  function AddWrapping(a: nat, b: nat): nat {
    (a + b) % USIZE
  }

  /** `as i64`. */
  function AsI64(n: nat): int {
    if n % USIZE < I64_LIMIT then n % USIZE else n % USIZE - USIZE
  }

  class Finalizer {
    var streamedBytes: nat
    var finalized: bool
    /** The spawned task that has not run yet, with the flag it captured. */
    var task: Option<bool>
    var commits: seq<Commit>

    constructor ()
      ensures AsState(true) == INITIAL
    {
      streamedBytes, finalized, task, commits := 0, false, None, [];
    }

    ghost function AsState(alive: bool): State
      reads this
    {
      State(streamedBytes, finalized, task, commits, alive)
    }

    method AddStreamedBytes(length: nat)
      modifies `streamedBytes
      ensures streamedBytes == AddWrapping(old(streamedBytes), length)
    {
      streamedBytes := AddWrapping(streamedBytes, length);
    }

    /** Only the first call starts a task. */
    method Finalize(interrupted: bool)
      modifies `finalized, `task
      ensures finalized
      ensures task == if old(finalized) then old(task) else Some(interrupted)
    {
      var was := finalized;
      finalized := true;
      if was {
        return;
      }
      task := Some(interrupted);
    }

    method RunTask()
      requires task.Some?
      modifies `task, `commits
      ensures task == None && commits == old(commits) + [Commit(AsI64(streamedBytes), old(task).value)]
    {
      commits := commits + [Commit(AsI64(streamedBytes), task.value)];
      task := None;
    }
  }

  class StreamingCaptureBody {
    const finalize: Finalizer
    ghost var alive: bool

    constructor (finalize: Finalizer)
      ensures this.finalize == finalize && alive
    {
      this.finalize, alive := finalize, true;
    }

    method PollFrame(inner: PollResult) returns (forwarded: PollResult)
      requires alive
      modifies finalize
      ensures forwarded == inner
      ensures finalize.AsState(alive) == Next(old(finalize.AsState(alive)), Poll(inner))
    {
      match inner {
        case DataFrame(length) => finalize.AddStreamedBytes(length);
        case TrailersFrame =>
        case Ended => finalize.Finalize(false);
        case Failed => finalize.Finalize(true);
        case Pending =>
      }
      forwarded := inner;
    }

    method Drop()
      requires alive
      modifies this, finalize
      ensures !alive && finalize.AsState(alive) == Next(old(finalize.AsState(alive)), DropBody)
    {
      finalize.Finalize(true);
      alive := false;
    }

    /** Any run of steps that is possible at all takes the shared state where the transition system
        takes it. */
    method Run(steps: seq<Step>)
      requires finalize.AsState(alive) == INITIAL && StateAfter(steps).Some?
      modifies this, finalize
      ensures StateAfter(steps) == Some(finalize.AsState(alive))
    {
      assert steps[..0] == [];
      for i := 0 to |steps|
        invariant StateAfter(steps[..i]) == Some(finalize.AsState(alive))
      {
        PrefixIsPossible(steps, i + 1);
        assert steps[..i + 1][..i] == steps[..i];
        match steps[i] {
          case Poll(result) => var _ := PollFrame(result);
          case DropBody => Drop();
          case RunCommit => finalize.RunTask();
        }
      }
      assert steps[..|steps|] == steps;
    }
  }

  // ----- the transition system

  datatype State = State(
    streamedBytes: nat, finalized: bool, task: Option<bool>, commits: seq<Commit>, alive: bool)

  const INITIAL := State(0, false, None, [], true)

  predicate IsEnabled(s: State, step: Step) {
    match step
    case Poll(_) => s.alive
    case DropBody => s.alive
    case RunCommit => s.task.Some?
  }

  function Finalized(s: State, interrupted: bool): State {
    if s.finalized then s else s.(finalized := true, task := Some(interrupted))
  }

  function Next(s: State, step: Step): State
    requires IsEnabled(s, step)
  {
    match step
    case Poll(DataFrame(n)) => s.(streamedBytes := AddWrapping(s.streamedBytes, n))
    case Poll(Ended) => Finalized(s, false)
    case Poll(Failed) => Finalized(s, true)
    case Poll(_) => s
    case DropBody => Finalized(s, true).(alive := false)
    case RunCommit => s.(task := None, commits := s.commits + [Commit(AsI64(s.streamedBytes), s.task.value)])
  }

  /** The state after a run, if every step of it was possible. */
  function StateAfter(steps: seq<Step>): Option<State> {
    if steps == [] then Some(INITIAL)
    else
      var n := |steps| - 1;
      match StateAfter(steps[..n])
      case None => None
      case Some(s) => if IsEnabled(s, steps[n]) then Some(Next(s, steps[n])) else None
  }

  lemma {:induction false} PrefixIsPossible(steps: seq<Step>, n: nat)
    requires n <= |steps| && StateAfter(steps).Some?
    ensures StateAfter(steps[..n]).Some?
    decreases |steps|
  {
    if n < |steps| {
      PrefixIsPossible(steps[..|steps| - 1], n);
      assert steps[..|steps| - 1][..n] == steps[..n];
    } else {
      assert steps[..n] == steps;
    }
  }

  // ----- what a run looked like

  predicate IsTerminal(step: Step) {
    step == DropBody || step == Poll(Ended) || step == Poll(Failed)
  }

  /** The first step that asks for finalisation. */
  function FirstTerminal(steps: seq<Step>): (r: Option<nat>)
    ensures r.Some? ==> r.value < |steps| && IsTerminal(steps[r.value])
    ensures r.Some? ==> forall i :: 0 <= i < r.value ==> !IsTerminal(steps[i])
    ensures r.None? <==> forall i :: 0 <= i < |steps| ==> !IsTerminal(steps[i])
  {
    if steps == [] then None
    else
      var n := |steps| - 1;
      match FirstTerminal(steps[..n])
      case Some(i) => Some(i)
      case None => if IsTerminal(steps[n]) then Some(n) else None
  }

  /** The step that commits; there is at most one. */
  function FirstCommit(steps: seq<Step>): (r: Option<nat>)
    ensures r.Some? ==> r.value < |steps| && steps[r.value] == RunCommit
    ensures r.None? <==> RunCommit !in steps
  {
    if steps == [] then None
    else
      var n := |steps| - 1;
      match FirstCommit(steps[..n])
      case Some(i) => Some(i)
      case None =>
        assert steps == steps[..n] + [steps[n]];
        if steps[n] == RunCommit then Some(n) else None
  }

  function DataLength(step: Step): nat {
    if step.Poll? && step.result.DataFrame? then step.result.length else 0
  }

  /** The bytes forwarded in a run. */
  function Forwarded(steps: seq<Step>): nat {
    if steps == [] then 0 else Forwarded(steps[..|steps| - 1]) + DataLength(steps[|steps| - 1])
  }

  /** What one step at the end adds. */
  predicate EndsCleanly(steps: seq<Step>) {
    FirstTerminal(steps).Some? && steps[FirstTerminal(steps).value] == Poll(Ended)
  }

  /** The commit recorded the bytes forwarded before it, which came behind the first terminal step. */
  predicate IsCommitOf(c: Commit, steps: seq<Step>) {
    && FirstTerminal(steps).Some? && FirstCommit(steps).Some?
    && FirstTerminal(steps).value < FirstCommit(steps).value
    && c == Commit(AsI64(Forwarded(steps[..FirstCommit(steps).value])), !EndsCleanly(steps))
  }

  /** What every reachable state looks like. */
  ghost predicate Invariant(s: State, steps: seq<Step>) {
    && s.streamedBytes == Forwarded(steps) % USIZE
    && (s.finalized <==> FirstTerminal(steps).Some?)
    && (s.alive <==> DropBody !in steps)
    && (!s.finalized ==> s.task.None? && s.commits == [] && FirstCommit(steps).None?)
    && (s.finalized ==>
          if s.task.Some? then s.commits == [] && FirstCommit(steps).None? && s.task.value == !EndsCleanly(steps)
          else |s.commits| == 1 && IsCommitOf(s.commits[0], steps))
  }

  lemma TerminalSnoc(steps: seq<Step>, step: Step)
    ensures FirstTerminal(steps + [step]) ==
            if FirstTerminal(steps).Some? then FirstTerminal(steps)
            else if IsTerminal(step) then Some(|steps|) else None
    ensures Forwarded(steps + [step]) == Forwarded(steps) + DataLength(step)
    ensures FirstTerminal(steps).Some? ==> (EndsCleanly(steps + [step]) <==> EndsCleanly(steps))
  {
    assert (steps + [step])[..|steps|] == steps;
  }

  lemma CommitSnoc(steps: seq<Step>, step: Step)
    ensures FirstCommit(steps + [step]) ==
            if FirstCommit(steps).Some? then FirstCommit(steps)
            else if step == RunCommit then Some(|steps|) else None
  {
    assert (steps + [step])[..|steps|] == steps;
  }

  lemma PrefixStays(steps: seq<Step>, step: Step, k: nat)
    requires k <= |steps|
    ensures (steps + [step])[..k] == steps[..k]
  {
  }

  lemma ModTwice(a: nat, b: nat)
    ensures (a % USIZE + b) % USIZE == (a + b) % USIZE
  {
  }

  lemma StepKeeps(s: State, steps: seq<Step>, step: Step)
    requires Invariant(s, steps) && IsEnabled(s, step)
    ensures Invariant(Next(s, step), steps + [step])
  {
    hide FirstTerminal, FirstCommit, Forwarded;
    TerminalSnoc(steps, step);
    CommitSnoc(steps, step);
    PrefixStays(steps, step, FirstCommit(steps).GetOr(|steps|));
    assert steps[..|steps|] == steps;
    ModTwice(Forwarded(steps), DataLength(step));
    if !s.finalized && IsTerminal(step) {
      assert (steps + [step])[|steps|] == step;
    }
  }

  lemma {:induction false} ReachableStates(steps: seq<Step>)
    requires StateAfter(steps).Some?
    ensures Invariant(StateAfter(steps).value, steps)
  {
    if steps != [] {
      var n := |steps| - 1;
      ReachableStates(steps[..n]);
      StepKeeps(StateAfter(steps[..n]).value, steps[..n], steps[n]);
      assert steps[..n] + [steps[n]] == steps;
    }
  }

  /** How many finalisations a run has started. */
  function Started(s: State): nat {
    |s.commits| + if s.task.Some? then 1 else 0
  }

  /** Over every run, at most one finalisation is started, and exactly one once the body is dropped. */
  lemma FinalizedExactlyOnce(steps: seq<Step>)
    requires StateAfter(steps).Some?
    ensures Started(StateAfter(steps).value) == if FirstTerminal(steps).Some? then 1 else 0
    ensures DropBody in steps ==> Started(StateAfter(steps).value) == 1
  {
    ReachableStates(steps);
    if DropBody in steps {
      var i :| 0 <= i < |steps| && steps[i] == DropBody;
      assert IsTerminal(steps[i]);
    }
  }

  /** The flag is false exactly when the end of the body was seen before any error or drop. */
  lemma InterruptedFlag(steps: seq<Step>)
    requires StateAfter(steps).Some?
    ensures var s := StateAfter(steps).value;
      && (s.task.Some? ==> s.task.value == !EndsCleanly(steps))
      && (s.commits != [] ==> s.commits[0].interrupted == !EndsCleanly(steps))
  {
    ReachableStates(steps);
  }

  lemma {:induction false} ForwardedSplit(steps: seq<Step>, j: nat)
    requires j <= |steps|
    ensures Forwarded(steps[..j]) <= Forwarded(steps)
    ensures Forwarded(steps[..j]) == Forwarded(steps) <==> forall i :: j <= i < |steps| ==> DataLength(steps[i]) == 0
    decreases |steps|
  {
    if j < |steps| {
      var n := |steps| - 1;
      ForwardedSplit(steps[..n], j);
      assert steps[..n][..j] == steps[..j];
      assert forall i :: j <= i < n ==> steps[..n][i] == steps[i];
    } else {
      assert steps[..j] == steps;
    }
  }

  /** Part of a total is recorded as that total only if it is all of it and fits. */
  lemma RecordedInFull(part: nat, total: nat)
    requires part <= total
    ensures AsI64(part) == total <==> part == total && total < I64_LIMIT
  {
  }

  /** The commit records what was forwarded before it. That is everything exactly when no data comes
      behind the commit and the total fits a signed 64-bit number. */
  lemma CommittedExactly(steps: seq<Step>)
    requires StateAfter(steps).Some? && StateAfter(steps).value.commits != []
    ensures FirstCommit(steps).Some?
    ensures var k, size := FirstCommit(steps).value, StateAfter(steps).value.commits[0].size;
      && size == AsI64(Forwarded(steps[..k]))
      && (size == Forwarded(steps) <==>
          Forwarded(steps) < I64_LIMIT && forall i :: k < i < |steps| ==> DataLength(steps[i]) == 0)
  {
    hide Forwarded, FirstTerminal, FirstCommit, StateAfter, AsI64;
    ReachableStates(steps);
    var k := FirstCommit(steps).value;
    ForwardedSplit(steps, k);
    RecordedInFull(Forwarded(steps[..k]), Forwarded(steps));
    assert DataLength(steps[k]) == 0;
  }

  /** Nothing is forwarded behind the first terminal step. */
  predicate QuietAfterTerminal(steps: seq<Step>) {
    FirstTerminal(steps).Some? ==> forall i :: FirstTerminal(steps).value < i < |steps| ==> DataLength(steps[i]) == 0
  }

  /** In particular the committed size is the number of bytes forwarded if nothing is forwarded behind
      the first terminal step. */
  lemma CommittedSize(steps: seq<Step>)
    requires StateAfter(steps).Some? && StateAfter(steps).value.commits != []
    requires QuietAfterTerminal(steps)
    ensures StateAfter(steps).value.commits[0].size == AsI64(Forwarded(steps))
    ensures Forwarded(steps) < I64_LIMIT ==> StateAfter(steps).value.commits[0].size == Forwarded(steps)
  {
    ReachableStates(steps);
    ForwardedSplit(steps, FirstCommit(steps).value);
  }

  /** Bytes forwarded behind the end may be missing from the committed size: it depends on when the
      commit task runs. */
  lemma LateDataIsUncounted()
    ensures var steps := [Poll(Ended), RunCommit, Poll(DataFrame(5)), DropBody];
      && StateAfter(steps).Some?
      && StateAfter(steps).value.commits == [Commit(0, false)]
      && Forwarded(steps) == 5
  {
    var steps := [Poll(Ended), RunCommit, Poll(DataFrame(5)), DropBody];
    assert steps[..0] == [];
    assert steps[..1] == steps[..0] + [steps[0]];
    StateSnoc(steps[..0], steps[0]);
    assert steps[..2] == steps[..1] + [steps[1]];
    StateSnoc(steps[..1], steps[1]);
    assert steps[..3] == steps[..2] + [steps[2]];
    StateSnoc(steps[..2], steps[2]);
    assert steps == steps[..3] + [steps[3]];
    StateSnoc(steps[..3], steps[3]);
  }

  lemma StateSnoc(steps: seq<Step>, step: Step)
    ensures StateAfter(steps + [step]) ==
            match StateAfter(steps)
            case None => None
            case Some(s) => if IsEnabled(s, step) then Some(Next(s, step)) else None
    ensures Forwarded(steps + [step]) == Forwarded(steps) + DataLength(step)
  {
    assert (steps + [step])[..|steps|] == steps;
  }
}
