/**
 The start gate: a mutex, one condition variable shared by the waiting readers
 and the opener, and the fields `total`, `ready` and `open`.  Each lock, unlock,
 wait, broadcast and protected access is one step; a sleeper may also wake up
 spuriously.
 */
module StartGate {
  import opened Wrappers

  datatype Thread = Waiter(i: nat) | Opener

  /** Where a reader is in `gate_wait`.  `Woken` is inside `pthread_cond_wait`,
      about to take the mutex again. */
  datatype WaiterPc = Away | Counting | Waking | Testing | Asleep | Woken | Leaving | Through

  /** Where the main thread is in `gate_open`, or in `gate_open_after_created`
      if it enters through `Lowering`. */
  datatype OpenerPc = Outside | Lowering | Checking | Sleeping | Roused | Announcing | Exiting | Done

  /** `waiters` has one entry for each reader created so far. */
  datatype State = State(
    waiters: seq<WaiterPc>,
    opener: OpenerPc,
    holder: Option<Thread>,
    total: nat,
    ready: nat,
    open: bool)

  /** `Create` makes one more reader; `Open` and `OpenCreated` are the main
      thread's steps, the latter entering `gate_open_after_created`. */
  datatype Step = Create | Wait(i: nat) | Open | OpenCreated | Spurious(t: Thread)

  function Init(total: nat): State {
    State([], Outside, None, total, 0, false)
  }

  ghost predicate Enabled(s: State, step: Step) {
    match step
    case Create => s.opener.Outside? && |s.waiters| < s.total
    case Wait(i) =>
      i < |s.waiters| &&
      match s.waiters[i] {
        case Away => s.holder.None?
        case Woken => s.holder.None?
        case Asleep => false
        case Through => false
        case _ => true
      }
    case Open =>
      match s.opener {
        case Outside => s.holder.None? && |s.waiters| == s.total
        case Roused => s.holder.None?
        case Sleeping => false
        case Done => false
        case _ => true
      }
    case OpenCreated => s.opener.Outside? && s.holder.None?
    case Spurious(Waiter(i)) => i < |s.waiters| && s.waiters[i].Asleep?
    case Spurious(Opener) => s.opener.Sleeping?
  }

  /** `pthread_cond_broadcast`: every sleeper leaves the condition variable. */
  function Broadcast(s: State): State {
    s.(waiters := seq(|s.waiters|, i requires 0 <= i < |s.waiters| =>
                    if s.waiters[i].Asleep? then Woken else s.waiters[i]),
       opener := if s.opener.Sleeping? then Roused else s.opener)
  }

  function ApplyWait(s: State, i: nat): State
    requires i < |s.waiters|
  {
    match s.waiters[i]
    case Away => s.(waiters := s.waiters[i := Counting], holder := Some(Waiter(i)))
    case Counting =>
      s.(waiters := s.waiters[i := if s.ready + 1 == s.total then Waking else Testing], ready := s.ready + 1)
    case Waking => Broadcast(s.(waiters := s.waiters[i := Testing]))
    case Testing =>
      if s.open then s.(waiters := s.waiters[i := Leaving])
      else s.(waiters := s.waiters[i := Asleep], holder := None)
    case Woken => s.(waiters := s.waiters[i := Testing], holder := Some(Waiter(i)))
    case Leaving => s.(waiters := s.waiters[i := Through], holder := None)
    case Asleep => s
    case Through => s
  }

  function ApplyOpen(s: State): State {
    match s.opener
    case Outside => s.(opener := Checking, holder := Some(Opener))
    case Lowering => s.(opener := Checking, total := |s.waiters|)
    case Checking =>
      if s.ready < s.total then s.(opener := Sleeping, holder := None)
      else s.(opener := Announcing, open := true)
    case Roused => s.(opener := Checking, holder := Some(Opener))
    case Announcing => Broadcast(s.(opener := Exiting))
    case Exiting => s.(opener := Done, holder := None)
    case Sleeping => s
    case Done => s
  }

  function Apply(s: State, step: Step): State
    requires Enabled(s, step)
  {
    match step
    case Create => s.(waiters := s.waiters + [Away])
    case Wait(i) => ApplyWait(s, i)
    case Open => ApplyOpen(s)
    case OpenCreated => s.(opener := Lowering, holder := Some(Opener))
    case Spurious(Waiter(i)) => s.(waiters := s.waiters[i := Woken])
    case Spurious(Opener) => s.(opener := Roused)
  }

  // ----- The invariant ------------------------------------------------------

  predicate Inside(pc: WaiterPc) {
    pc.Counting? || pc.Waking? || pc.Testing? || pc.Leaving?
  }

  predicate OpenerInside(pc: OpenerPc) {
    pc.Lowering? || pc.Checking? || pc.Announcing? || pc.Exiting?
  }

  predicate HasCounted(pc: WaiterPc) {
    !pc.Away? && !pc.Counting?
  }

  /** How many readers have passed the increment of `ready`. */
  function Counted(ws: seq<WaiterPc>): nat {
    if ws == [] then 0
    else Counted(ws[..|ws| - 1]) + if HasCounted(ws[|ws| - 1]) then 1 else 0
  }

  lemma {:induction false} CountedUpdate(ws: seq<WaiterPc>, i: nat, pc: WaiterPc)
    requires i < |ws|
    ensures Counted(ws[i := pc]) ==
            Counted(ws) - (if HasCounted(ws[i]) then 1 else 0) + (if HasCounted(pc) then 1 else 0)
  {
    var n := |ws| - 1;
    if i < n {
      assert ws[i := pc][..n] == ws[..n][i := pc];
      CountedUpdate(ws[..n], i, pc);
    } else {
      assert ws[i := pc][..n] == ws[..n];
    }
  }

  lemma {:induction false} CountedSame(ws: seq<WaiterPc>, ws': seq<WaiterPc>)
    requires |ws| == |ws'| && forall i :: 0 <= i < |ws| ==> HasCounted(ws[i]) == HasCounted(ws'[i])
    ensures Counted(ws) == Counted(ws')
  {
    if ws != [] {
      CountedSame(ws[..|ws| - 1], ws'[..|ws| - 1]);
    }
  }

  /** `Counted` is the number of readers exactly when none is before its
      increment. */
  lemma {:induction false} CountedAll(ws: seq<WaiterPc>)
    ensures Counted(ws) <= |ws|
    ensures Counted(ws) == |ws| <==> forall i :: 0 <= i < |ws| ==> HasCounted(ws[i])
  {
    if ws != [] {
      CountedAll(ws[..|ws| - 1]);
    }
  }

  /** The mutex is held by exactly the thread that is between lock and unlock. */
  ghost predicate Exclusive(s: State) {
    && (forall i :: 0 <= i < |s.waiters| ==> (Inside(s.waiters[i]) <==> s.holder == Some(Waiter(i))))
    && (OpenerInside(s.opener) <==> s.holder == Some(Opener))
    && (s.holder.Some? && s.holder.value.Waiter? ==> s.holder.value.i < |s.waiters|)
  }

  ghost predicate Tally(s: State) {
    && s.ready == Counted(s.waiters)
    && |s.waiters| <= s.total
    && (!s.opener.Outside? && !s.opener.Lowering? ==> |s.waiters| == s.total)
    && (s.open <==> s.opener.Announcing? || s.opener.Exiting? || s.opener.Done?)
    && (s.open ==> s.ready == s.total)
  }

  /** No wakeup is lost: a sleeper whose condition holds is about to be woken by
      the thread inside the mutex. */
  ghost predicate NoLostWakeup(s: State) {
    && (s.opener.Sleeping? && s.ready >= s.total ==>
          exists i :: 0 <= i < |s.waiters| && s.waiters[i].Waking?)
    && (forall i :: 0 <= i < |s.waiters| && s.waiters[i].Asleep? && s.open ==> s.opener.Announcing?)
    && (forall i :: 0 <= i < |s.waiters| && (s.waiters[i].Leaving? || s.waiters[i].Through?) ==> s.open)
  }

  ghost predicate Inv(s: State) {
    Exclusive(s) && Tally(s) && NoLostWakeup(s)
  }

  lemma InitInv(total: nat)
    ensures Inv(Init(total))
  {
  }

  lemma WaitKeepsInv(s: State, i: nat)
    requires Inv(s) && Enabled(s, Wait(i))
    ensures Inv(Apply(s, Wait(i)))
  {
    WaitKeepsTally(s, i);
    WaitKeepsWakeups(s, i);
    WaitKeepsExclusive(s, i);
  }

  lemma WaitKeepsExclusive(s: State, i: nat)
    requires Exclusive(s) && Enabled(s, Wait(i))
    ensures Exclusive(ApplyWait(s, i))
  {
    var t := ApplyWait(s, i);
    forall j | 0 <= j < |t.waiters| ensures Inside(t.waiters[j]) <==> t.holder == Some(Waiter(j)) {
      assert Inside(s.waiters[j]) <==> s.holder == Some(Waiter(j));
      assert j != i ==> (Inside(t.waiters[j]) <==> Inside(s.waiters[j]));
    }
  }

  lemma WaitKeepsTally(s: State, i: nat)
    requires Tally(s) && Enabled(s, Wait(i))
    ensures Tally(ApplyWait(s, i))
  {
    var t := ApplyWait(s, i);
    var mid := s.waiters[i := t.waiters[i]];
    CountedUpdate(s.waiters, i, mid[i]);
    CountedSame(mid, t.waiters);
    CountedAll(t.waiters);
    CountedAll(s.waiters);
  }

  lemma WaitKeepsWakeups(s: State, i: nat)
    requires Exclusive(s) && NoLostWakeup(s) && Enabled(s, Wait(i))
    requires s.open ==> s.opener.Announcing? || s.opener.Exiting? || s.opener.Done?
    ensures NoLostWakeup(ApplyWait(s, i))
  {
    var t := ApplyWait(s, i);
    if t.opener.Sleeping? && t.ready >= t.total && s.ready < s.total {
      assert t.waiters[i].Waking?;
    }
  }

  lemma OpenKeepsInv(s: State)
    requires Inv(s) && Enabled(s, Open)
    ensures Inv(Apply(s, Open))
  {
    var t := ApplyOpen(s);
    CountedSame(s.waiters, t.waiters);
    CountedAll(s.waiters);
  }

  /** Every step keeps the invariant. */
  lemma StepKeepsInv(s: State, step: Step)
    requires Inv(s) && Enabled(s, step)
    ensures Inv(Apply(s, step))
  {
    match step
    case Create =>
      assert (s.waiters + [Away])[..|s.waiters|] == s.waiters;
    case Wait(i) => WaitKeepsInv(s, i);
    case Open => OpenKeepsInv(s);
    case OpenCreated =>
    case Spurious(t) => SpuriousKeepsInv(s, t);
  }

  lemma SpuriousKeepsInv(s: State, t: Thread)
    requires Inv(s) && Enabled(s, Spurious(t))
    ensures Inv(Apply(s, Spurious(t)))
  {
    if t.Waiter? {
      CountedUpdate(s.waiters, t.i, Woken);
      var s' := Apply(s, Spurious(t));
      assert forall j :: 0 <= j < |s.waiters| && s.waiters[j].Waking? ==> s'.waiters[j].Waking?;
    }
  }

  // ----- What every execution guarantees --------------------------------------

  ghost predicate StepAt(ex: seq<State>, steps: seq<Step>, i: nat)
    requires i < |steps| && i + 1 < |ex|
  {
    Enabled(ex[i], steps[i]) && ex[i + 1] == Apply(ex[i], steps[i])
  }

  ghost predicate Execution(ex: seq<State>, steps: seq<Step>) {
    && |ex| == |steps| + 1
    && ex[0] == Init(ex[0].total)
    && forall i :: 0 <= i < |steps| ==> StepAt(ex, steps, i)
  }

  lemma {:induction false} ReachableInv(ex: seq<State>, steps: seq<Step>, k: nat)
    requires Execution(ex, steps) && k < |ex|
    ensures Inv(ex[k])
  {
    if k == 0 {
      InitInv(ex[0].total);
    } else {
      ReachableInv(ex, steps, k - 1);
      assert StepAt(ex, steps, k - 1);
      StepKeepsInv(ex[k - 1], steps[k - 1]);
    }
  }

  /** In every run, with or without a lowered `total`: no reader is past the gate
      before it opens, and once it is open every created reader has arrived. */
  lemma NobodyPassesEarly(ex: seq<State>, steps: seq<Step>, k: nat)
    requires Execution(ex, steps) && k < |ex|
    ensures forall i :: 0 <= i < |ex[k].waiters| && ex[k].waiters[i].Through? ==> ex[k].open
    ensures ex[k].open ==>
              && ex[k].ready == ex[k].total == |ex[k].waiters|
              && forall i :: 0 <= i < |ex[k].waiters| ==> HasCounted(ex[k].waiters[i])
  {
    ReachableInv(ex, steps, k);
    CountedAll(ex[k].waiters);
  }

  /** In every run, whenever the mutex is free, whoever sleeps on the condition
      variable waits for something that does not hold. */
  lemma SleepersAreJustified(ex: seq<State>, steps: seq<Step>, k: nat)
    requires Execution(ex, steps) && k < |ex| && ex[k].holder.None?
    ensures ex[k].opener.Sleeping? ==> ex[k].ready < ex[k].total
    ensures forall i :: 0 <= i < |ex[k].waiters| && ex[k].waiters[i].Asleep? ==> !ex[k].open
  {
    ReachableInv(ex, steps, k);
  }

  /** A broadcast wakes whoever sleeps, and apart from spurious wakeups nothing else
      wakes anybody. */
  lemma WakeupsAreBroadcasts(s: State, step: Step)
    requires Enabled(s, step)
    ensures var t := Apply(s, step);
            if (step.Wait? && s.waiters[step.i].Waking?) || (step.Open? && s.opener.Announcing?) then
              !t.opener.Sleeping? && forall j :: 0 <= j < |t.waiters| ==> !t.waiters[j].Asleep?
            else if !step.Spurious? then
              && (s.opener.Sleeping? ==> t.opener.Sleeping?)
              && forall j :: 0 <= j < |s.waiters| && s.waiters[j].Asleep? ==> t.waiters[j].Asleep?
            else
              forall j :: 0 <= j < |s.waiters| && s.waiters[j].Asleep? && step.t != Waiter(j) ==> t.waiters[j].Asleep?
  {
  }

  lemma WakingStep(s: State, step: Step, i: nat)
    requires Inv(s) && Enabled(s, step) && i < |Apply(s, step).waiters| && Apply(s, step).waiters[i].Waking?
    requires i < |s.waiters| && s.waiters[i].Waking? ==> s.ready == s.total
    ensures Apply(s, step).ready == Apply(s, step).total
  {
    assert i < |s.waiters| && Inside(s.waiters[i]) ==> s.holder == Some(Waiter(i));
  }

  /** In every run it is only the last of all readers whose arrival wakes the others. */
  lemma {:induction false} WakesOnlyWhenFull(ex: seq<State>, steps: seq<Step>, k: nat, i: nat)
    requires Execution(ex, steps) && k < |ex| && i < |ex[k].waiters| && ex[k].waiters[i].Waking?
    ensures ex[k].ready == ex[k].total
  {
    if k > 0 {
      hide Inv;
      hide Enabled;
      hide Apply;
      ReachableInv(ex, steps, k - 1);
      assert StepAt(ex, steps, k - 1);
      var s := ex[k - 1];
      if i < |s.waiters| && s.waiters[i].Waking? {
        WakesOnlyWhenFull(ex, steps, k - 1, i);
      }
      WakingStep(s, steps[k - 1], i);
    }
  }

  /** A thread that has a step other than a spurious wakeup. */
  ghost predicate CanMove(s: State) {
    Enabled(s, Open) || exists i :: 0 <= i < |s.waiters| && Enabled(s, Wait(i))
  }

  /** The gate never deadlocks: once the main thread has entered and no created
      reader is still away, some thread can move until all are through. */
  lemma NoDeadlock(s: State)
    requires Inv(s) && !s.opener.Outside?
    requires forall i :: 0 <= i < |s.waiters| ==> !s.waiters[i].Away?
    ensures CanMove(s) || (s.opener.Done? && forall i :: 0 <= i < |s.waiters| ==> s.waiters[i].Through?)
  {
    CountedAll(s.waiters);
    if s.holder.Some? && s.holder.value.Waiter? {
      assert Enabled(s, Wait(s.holder.value.i));
    } else if i: nat :| i < |s.waiters| && s.waiters[i].Woken? && s.holder.None? {
      assert Enabled(s, Wait(i));
    }
  }
}
