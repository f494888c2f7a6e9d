/**
 The clock readings behind the booked times: what the RNIC books is what the clock
 showed after each dequeue.  From that the bandwidth gate is stated on the clock alone.
 */
module SweepTiming {
  import opened Wrappers
  import opened DistinctIds
  import Q = MpscProtocol
  import L = LinkTimeline
  import opened SweepModel
  import opened SweepSafety
  import opened SweepTheorems

  /** A step of the RNIC with which `mpsc_dequeue` returns a node. */
  ghost predicate Dequeues(s: State, a: Action) {
    a.Rnic? && s.rnic.Dequeuing? && Q.ConsumeOutcome(true, s.q).Returned?
  }

  /** A step of the RNIC that reads the clock. */
  ghost predicate ReadsClock(s: State, a: Action, id: nat) {
    a.Rnic? && s.rnic == Got(id)
  }

  /** What one step does to the records of the RNIC and to the clock. */
  ghost predicate Recorded(s: State, a: Action, t: State) {
    && t.clock >= s.clock
    && s.popped <= t.popped && s.nows <= t.nows
    && (t.popped != s.popped <==> Dequeues(s, a)) && |t.popped| <= |s.popped| + 1
    && (t.nows != s.nows ==>
          s.rnic.Booking? && t.nows == s.nows + [s.rnic.now]
          && |s.popped| == |s.nows| + 1 && s.popped[|s.nows|] == s.rnic.id)
    && (t.rnic.Booking? ==>
          && t.nows == s.nows && t.popped == s.popped
          && if ReadsClock(s, a, t.rnic.id) then t.rnic.now == s.clock else t.rnic == s.rnic)
    && (s.rnic.Got? ==> |s.popped| == |s.nows| + 1)
  }

  lemma StepRecords(cfg: Config, s: State, a: Action)
    requires Inv(cfg, s) && Enabled(cfg, s, a)
    ensures Recorded(s, a, Apply(cfg, s, a))
  {
    hide Nodes;
    hide Booked;
    hide Gated;
    hide Gates;
    hide Totals;
    match a
    case Rnic =>
      NextBooked(cfg, s);
      DequeuesItem(cfg, s);
      RnicRecords(cfg, s);
    case Reader(i) =>
    case Main =>
    case Tick(_) =>
    case Spurious(_) =>
  }

  /** The node in the RNIC's hands is the one whose time is booked next. */
  lemma NextBooked(cfg: Config, s: State)
    requires Inv(cfg, s)
    ensures s.rnic.Got? || s.rnic.Booking? ==> |s.popped| == |s.nows| + 1 && s.popped[|s.nows|] == s.rnic.id
  {
    hide Nodes;
    hide Booked;
    hide Gated;
    hide Gates;
    hide Totals;
  }

  lemma RnicRecords(cfg: Config, s: State)
    requires Sized(cfg, s)
    requires s.rnic.Got? || s.rnic.Booking? ==> |s.popped| == |s.nows| + 1 && s.popped[|s.nows|] == s.rnic.id
    requires Q.ConsumeOutcome(true, s.q).Returned? ==> Q.ConsumeOutcome(true, s.q).node.Item?
    ensures Recorded(s, Rnic, ApplyRnic(cfg, s))
  {
    hide Q.ApplyConsume;
    hide Q.ConsumeOutcome;
    hide L.Book;
  }

  lemma DequeuesItem(cfg: Config, s: State)
    requires Inv(cfg, s)
    ensures Q.ConsumeOutcome(true, s.q).Returned? ==> Q.ConsumeOutcome(true, s.q).node.Item?
  {
    hide Served;
    hide Booked;
    hide Gated;
    hide Gates;
    hide Totals;
    hide Nodes;
    DequeueKeepsNodes(cfg.n, s.q, s.readers, s.popped);
  }

  /** So does every step of a run. */
  lemma RunRecords(cfg: Config, ex: seq<State>, acts: seq<Action>, i: nat)
    requires Execution(cfg, ex, acts) && i < |acts|
    ensures |ex| == |acts| + 1 && Recorded(ex[i], acts[i], ex[i + 1])
  {
    hide Inv;
    hide Recorded;
    ReachableInv(cfg, ex, acts, i);
    assert StepAt(cfg, ex, acts, i);
    StepRecords(cfg, ex[i], acts[i]);
  }

  lemma RunLength(cfg: Config, ex: seq<State>, acts: seq<Action>)
    requires Execution(cfg, ex, acts)
    ensures |ex| == |acts| + 1
  {
  }

  lemma {:induction false} ClockMonotone(cfg: Config, ex: seq<State>, acts: seq<Action>, i: nat, j: nat)
    requires Execution(cfg, ex, acts) && i <= j < |ex|
    ensures ex[i].clock <= ex[j].clock && ex[i].popped <= ex[j].popped && ex[i].nows <= ex[j].nows
  {
    RunLength(cfg, ex, acts);
    hide Execution;
    if i < j {
      ClockMonotone(cfg, ex, acts, i, j - 1);
      RunRecords(cfg, ex, acts, j - 1);
    }
  }

  /** A time about to be booked was read from the clock after the dequeue. */
  lemma {:induction false} BookingReading(cfg: Config, ex: seq<State>, acts: seq<Action>, t: nat) returns (j: nat)
    requires Execution(cfg, ex, acts) && t < |ex| && ex[t].rnic.Booking?
    ensures j < t && ReadsClock(ex[j], acts[j], ex[t].rnic.id) && ex[j].clock == ex[t].rnic.now
    ensures ex[j].popped == ex[t].popped && ex[j].nows == ex[t].nows
  {
    if t == 0 {
      StartsIdle(cfg, ex, acts);
      assert false;
    }
    RunLength(cfg, ex, acts);
    hide Execution;
    RunRecords(cfg, ex, acts, t - 1);
    if ReadsClock(ex[t - 1], acts[t - 1], ex[t].rnic.id) {
      j := t - 1;
    } else {
      j := BookingReading(cfg, ex, acts, t - 1);
    }
  }

  lemma StartsIdle(cfg: Config, ex: seq<State>, acts: seq<Action>)
    requires Execution(cfg, ex, acts)
    ensures ex[0].rnic.NotStarted? && ex[0].popped == [] && ex[0].nows == []
  {
  }

  /** The k-th booked time is the clock reading with which the RNIC left the k-th
      dequeue, and it is no later than now. */
  lemma {:induction false} ReadingOf(cfg: Config, ex: seq<State>, acts: seq<Action>, t: nat, k: nat) returns (j: nat)
    requires Execution(cfg, ex, acts) && t < |ex| && k < |ex[t].nows|
    ensures |ex[t].nows| <= |ex[t].popped|
    ensures j < t && ReadsClock(ex[j], acts[j], ex[t].popped[k]) && ex[j].clock == ex[t].nows[k] <= ex[t].clock
    ensures |ex[j].nows| == k && |ex[j].popped| == k + 1
  {
    RecordsLength(cfg, ex, acts, t);
    if t == 0 {
      StartsIdle(cfg, ex, acts);
      assert false;
    }
    RunLength(cfg, ex, acts);
    hide Execution;
    RunRecords(cfg, ex, acts, t - 1);
    if k < |ex[t - 1].nows| {
      RecordsLength(cfg, ex, acts, t - 1);
      j := ReadingOf(cfg, ex, acts, t - 1, k);
    } else {
      j := BookingReading(cfg, ex, acts, t - 1);
      ClockMonotone(cfg, ex, acts, j, t);
    }
  }

  lemma RecordsLength(cfg: Config, ex: seq<State>, acts: seq<Action>, t: nat)
    requires Execution(cfg, ex, acts) && t < |ex|
    ensures |ex[t].nows| <= |ex[t].popped|
  {
    ReachableInv(cfg, ex, acts, t);
    hide Nodes;
    hide Gated;
    hide Gates;
    hide Totals;
  }

  lemma {:induction false} NothingPopped(cfg: Config, ex: seq<State>, acts: seq<Action>, d: nat)
    requires Execution(cfg, ex, acts) && d <= |acts|
    requires forall i :: 0 <= i < d ==> !Dequeues(ex[i], acts[i])
    ensures ex[d].popped == []
  {
    if d == 0 {
      StartsIdle(cfg, ex, acts);
    } else {
      RunLength(cfg, ex, acts);
      hide Execution;
      hide Dequeues;
      NothingPopped(cfg, ex, acts, d - 1);
      RunRecords(cfg, ex, acts, d - 1);
    }
  }

  /** Every deadline is the closed form of the link over the clock readings. */
  lemma DeadlineClosedForm(cfg: Config, ex: seq<State>, acts: seq<Action>, t: nat, k: nat)
    requires Execution(cfg, ex, acts) && t < |ex| && k < |ex[t].nows|
    ensures |ex[t].nows| <= |ex[t].popped| && ex[t].popped[k] < |ex[t].expire|
    ensures L.IsCompletion(ex[t].nows, cfg.service, k, ex[t].expire[ex[t].popped[k]])
  {
    ReachableInv(cfg, ex, acts, t);
    var s := ex[t];
    hide Nodes;
    hide Served;
    hide Gated;
    hide Gates;
    hide Totals;
    hide L.Run;
    hide L.IsCompletion;
    L.CompletionClosedForm(s.nows[..k + 1], cfg.service);
    L.PrefixCompletion(s.nows, cfg.service, k, s.expire[s.popped[k]]);
  }

  // ----- The readers' stamps --------------------------------------------------------

  predicate PastStamp(s: State, i: nat) {
    i < |s.readers| && !s.readers[i].Unborn? && !s.readers[i].Stamping?
  }

  predicate StampsNow(s: State, a: Action, i: nat) {
    i < |s.readers| && a == Reader(i) && s.readers[i].Stamping?
  }

  /** The RNIC has booked the request of reader `i`. */
  predicate HasBooked(s: State, i: nat) {
    |s.nows| <= |s.popped| && i in s.popped[..|s.nows|]
  }

  lemma StaysBooked(s: State, t: State, i: nat)
    requires s.popped <= t.popped && s.nows <= t.nows && |t.nows| <= |t.popped| && HasBooked(s, i)
    ensures HasBooked(t, i)
  {
    var k :| 0 <= k < |s.nows| && s.popped[k] == i;
    assert t.popped[..|t.nows|][k] == i;
  }

  lemma JustBooked(s: State, t: State)
    requires s.popped <= t.popped && |t.nows| == |s.nows| + 1 <= |t.popped| && |s.nows| < |s.popped|
    ensures HasBooked(t, s.popped[|s.nows|])
  {
    assert t.popped[..|t.nows|][|s.nows|] == s.popped[|s.nows|];
  }

  /** A deadline changes only when its reader stamps it and when the RNIC books it. */
  lemma ExpireStep(cfg: Config, s: State, a: Action, i: nat)
    requires Sized(cfg, s) && Enabled(cfg, s, a) && i < cfg.n
    ensures var t := Apply(cfg, s, a);
            && |t.expire| == |s.expire| == cfg.n
            && (StampsNow(s, a, i) ==> t.expire[i] == s.clock)
            && (!StampsNow(s, a, i) && t.expire[i] != s.expire[i] ==> s.rnic.Booking? && s.rnic.id == i && a.Rnic?)
            && (PastStamp(t, i) ==> PastStamp(s, i) || StampsNow(s, a, i))
            && (a.Rnic? && s.rnic.Booking? ==> t.nows == s.nows + [s.rnic.now] && t.popped == s.popped)
  {
    hide Q.ApplyConsume;
    hide Q.ConsumeOutcome;
    hide Q.Enabled;
    hide Q.ApplyBegin;
    hide Q.ApplySwap;
    hide Q.ApplyLink;
    hide G.Enabled;
    hide G.ApplyWait;
    hide G.ApplyOpen;
    hide L.Book;
  }

  lemma StampStep(cfg: Config, s: State, a: Action, i: nat)
    requires Inv(cfg, s) && Enabled(cfg, s, a) && i < cfg.n
    requires var t := Apply(cfg, s, a); PastStamp(t, i) && !HasBooked(t, i) && |t.nows| <= |t.popped|
    ensures |s.expire| == |Apply(cfg, s, a).expire| == cfg.n
    ensures if StampsNow(s, a, i) then Apply(cfg, s, a).expire[i] == s.clock
            else PastStamp(s, i) && !HasBooked(s, i) && Apply(cfg, s, a).expire[i] == s.expire[i]
  {
    var t := Apply(cfg, s, a);
    StepRecords(cfg, s, a);
    NextBooked(cfg, s);
    BookedLength(cfg, s);
    ExpireStep(cfg, s, a, i);
    hide Inv;
    hide Enabled;
    hide Apply;
    hide PastStamp;
    hide StampsNow;
    hide HasBooked;
    if HasBooked(s, i) { StaysBooked(s, t, i); }
    if t.expire[i] != s.expire[i] && !StampsNow(s, a, i) { JustBooked(s, t); }
  }

  lemma BookedLength(cfg: Config, s: State)
    requires Inv(cfg, s)
    ensures |s.nows| <= |s.popped| && |s.expire| == |s.readers| == cfg.n
  {
    hide Nodes;
    hide Served;
    hide Gates;
    hide Totals;
  }

  /** The same, of a step of a run. */
  lemma StampStepAt(cfg: Config, ex: seq<State>, acts: seq<Action>, j: nat, i: nat)
    requires Execution(cfg, ex, acts) && j < |acts| && i < cfg.n
    requires j + 1 < |ex| && PastStamp(ex[j + 1], i) && !HasBooked(ex[j + 1], i)
    ensures |ex[j].expire| == |ex[j + 1].expire| == cfg.n
    ensures if StampsNow(ex[j], acts[j], i) then ex[j + 1].expire[i] == ex[j].clock
            else PastStamp(ex[j], i) && !HasBooked(ex[j], i) && ex[j + 1].expire[i] == ex[j].expire[i]
  {
    hide PastStamp;
    hide StampsNow;
    hide HasBooked;
    hide Inv;
    hide Apply;
    hide Enabled;
    ReachableInv(cfg, ex, acts, j);
    RecordsLength(cfg, ex, acts, j + 1);
    assert StepAt(cfg, ex, acts, j);
    hide Execution;
    StampStep(cfg, ex[j], acts[j], i);
  }

  /** Until its request is booked a reader's deadline is what the clock showed when it
      stamped the request. */
  lemma {:induction false} StampReading(cfg: Config, ex: seq<State>, acts: seq<Action>, t: nat, i: nat)
    returns (j: nat)
    requires Execution(cfg, ex, acts) && t < |ex| && i < cfg.n && PastStamp(ex[t], i) && !HasBooked(ex[t], i)
    ensures j < t && j < |acts| && StampsNow(ex[j], acts[j], i)
    ensures i < |ex[t].expire| && ex[t].expire[i] == ex[j].clock
  {
    RunLength(cfg, ex, acts);
    NobodyStamped(cfg, ex, acts, i);
    hide *;
    j := t - 1;
    StampStepAt(cfg, ex, acts, j, i);
    if !StampsNow(ex[j], acts[j], i) {
      j := StampReading(cfg, ex, acts, j, i);
    }
  }

  lemma NobodyStamped(cfg: Config, ex: seq<State>, acts: seq<Action>, i: nat)
    requires Execution(cfg, ex, acts)
    ensures !PastStamp(ex[0], i)
  {
  }

  /** The bandwidth gate on the clock alone: from the step of the first dequeue that
      returns a node, at least n service times pass before the gate is open. */
  lemma GateBoundsBandwidth(cfg: Config, ex: seq<State>, acts: seq<Action>, d: nat, k: nat)
    requires Execution(cfg, ex, acts) && cfg.n > 0
    requires d < |acts| && Dequeues(ex[d], acts[d]) && forall i :: 0 <= i < d ==> !Dequeues(ex[i], acts[i])
    requires k < |ex| && ex[k].g.open
    ensures ex[k].clock >= ex[d].clock + cfg.n as real * cfg.service
  {
    GateOpensLate(cfg, ex, acts, k);
    var j := ReadingOf(cfg, ex, acts, k, 0);
    NothingPopped(cfg, ex, acts, d);
    if j < d { ClockMonotone(cfg, ex, acts, j, d); }
    hide Execution;
    assert d <= j;
    ClockMonotone(cfg, ex, acts, d, j);
  }

  /** Some dequeue has returned a node before the gate opens. */
  lemma {:induction false} FirstDequeue(cfg: Config, ex: seq<State>, acts: seq<Action>, k: nat) returns (d: nat)
    requires Execution(cfg, ex, acts) && k < |ex| && ex[k].popped != []
    ensures d < k && Dequeues(ex[d], acts[d]) && forall i :: 0 <= i < d ==> !Dequeues(ex[i], acts[i])
  {
    if k == 0 {
      StartsIdle(cfg, ex, acts);
      assert false;
    }
    RunLength(cfg, ex, acts);
    hide Execution;
    RunRecords(cfg, ex, acts, k - 1);
    if ex[k - 1].popped != [] {
      d := FirstDequeue(cfg, ex, acts, k - 1);
    } else {
      d := k - 1;
      NoEarlier(cfg, ex, acts, d);
    }
  }

  lemma NoEarlier(cfg: Config, ex: seq<State>, acts: seq<Action>, d: nat)
    requires Execution(cfg, ex, acts) && d < |ex| && ex[d].popped == []
    ensures forall i :: 0 <= i < d ==> !Dequeues(ex[i], acts[i])
  {
    RunLength(cfg, ex, acts);
    hide Execution;
    forall i | 0 <= i < d ensures !Dequeues(ex[i], acts[i]) {
      RunRecords(cfg, ex, acts, i);
      ClockMonotone(cfg, ex, acts, i + 1, d);
      hide Dequeues;
    }
  }

  /** The reading for the k-th dequeue lies between the return of that dequeue and now. */
  lemma ReadingBetween(cfg: Config, ex: seq<State>, acts: seq<Action>, d: nat, t: nat, k: nat)
    requires Execution(cfg, ex, acts) && t < |ex| && k < |ex[t].nows|
    requires d < |acts| && Dequeues(ex[d], acts[d]) && |ex[d].popped| == k
    ensures ex[d].clock <= ex[t].nows[k] <= ex[t].clock
  {
    var j := ReadingOf(cfg, ex, acts, t, k);
    if j < d { ClockMonotone(cfg, ex, acts, j, d); }
    RunLength(cfg, ex, acts);
    hide Execution;
    assert d <= j;
    ClockMonotone(cfg, ex, acts, d, j);
  }

  /** When the gate is open some dequeue has returned a node, and n service times have
      passed since the first one that did. */
  lemma BandwidthGate(cfg: Config, ex: seq<State>, acts: seq<Action>, k: nat) returns (d: nat)
    requires Execution(cfg, ex, acts) && cfg.n > 0 && k < |ex| && ex[k].g.open
    ensures d < k && d < |acts| && Dequeues(ex[d], acts[d]) && forall i :: 0 <= i < d ==> !Dequeues(ex[i], acts[i])
    ensures ex[k].clock >= ex[d].clock + cfg.n as real * cfg.service
  {
    RunLength(cfg, ex, acts);
    GateOpensLate(cfg, ex, acts, k);
    RecordsLength(cfg, ex, acts, k);
    d := FirstDequeue(cfg, ex, acts, k);
    GateBoundsBandwidth(cfg, ex, acts, d, k);
  }
}
