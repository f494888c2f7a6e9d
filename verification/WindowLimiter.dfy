/**
 The link model of `test2-rdma-fin.c`: a limiter that admits requests window by
 window.  A request carries the time its reader stamped, so arrivals need not be
 in dequeue order.  Times are reals in nanoseconds.
 */
module WindowLimiter {
  import opened Wrappers
  import opened Spans

  const MIB: int := 0x10_0000
  const KIB: int := 0x400

  /** Requests admitted per window. */
  const SLOTS: nat := 100

  /** It is the link's bytes per second over the zone size, per thousand, in integer
      arithmetic. */
  lemma SlotsFromConfiguration()
    ensures SLOTS == 12500 * MIB / (128 * KIB) / 1000
  {
  }

  /** The current window ends at `ntime`; `stime` is its start plus one service time
      for each request admitted to it. */
  datatype Link = Link(ntime: real, stime: real, lag: real)

  /** A window opens when the link is idle, or when the current one is used up. */
  predicate OpensIdle(l: Link, arrival: real) {
    l.ntime < arrival
  }

  predicate OpensNext(l: Link, arrival: real, delta: real) {
    l.ntime >= arrival && l.ntime < l.stime + delta
  }

  function WindowStart(l: Link, arrival: real): real {
    if OpensIdle(l, arrival) then arrival else l.ntime
  }

  /** The link after admitting a request, and the request's deadline. */
  function Admit(l: Link, arrival: real, delta: real): (Link, real) {
    if OpensIdle(l, arrival) || OpensNext(l, arrival, delta) then
      var start := WindowStart(l, arrival);
      (Link(start + Span(SLOTS, delta), start + delta, start - arrival),
       if OpensIdle(l, arrival) then arrival + 2000.0 else start + 1000.0)
    else
      (l.(stime := l.stime + delta),
       arrival + 1000.0 + if arrival < l.ntime && l.lag > 0.0 then l.lag else 0.0)
  }

  /** One rate-limiting window: when it starts and how many requests it admitted. */
  datatype Window = Window(start: real, used: nat)

  /** The windows and the link after a run, beginning with a zeroed `struct nic` and
      whatever `lag` an earlier sweep left. */
  function Run(arrivals: seq<real>, delta: real, lag: real): (seq<Window>, Link) {
    if arrivals == [] then ([], Link(0.0, 0.0, lag))
    else
      var k := |arrivals| - 1;
      var (ws, l) := Run(arrivals[..k], delta, lag);
      (Track(ws, l, arrivals[k], delta), Admit(l, arrivals[k], delta).0)
  }

  /** The windows after one more request. */
  function Track(ws: seq<Window>, l: Link, a: real, delta: real): seq<Window> {
    if OpensIdle(l, a) || OpensNext(l, a, delta) || ws == [] then ws + [Window(WindowStart(l, a), 1)]
    else ws[|ws| - 1 := ws[|ws| - 1].(used := ws[|ws| - 1].used + 1)]
  }

  function TotalUsed(ws: seq<Window>): nat {
    if ws == [] then 0 else TotalUsed(ws[..|ws| - 1]) + ws[|ws| - 1].used
  }

  predicate Arrivals(arrivals: seq<real>, delta: real, lag: real) {
    delta > 0.0 && lag >= 0.0 && forall i :: 0 <= i < |arrivals| ==> arrivals[i] > 0.0
  }

  /** Windows never overlap and none admits more than its hundred requests. */
  ghost predicate Windows(ws: seq<Window>, delta: real) {
    && (forall i :: 0 <= i < |ws| ==> 1 <= ws[i].used <= SLOTS)
    && (forall i :: 0 <= i < |ws| - 1 ==> ws[i].start + Span(SLOTS, delta) <= ws[i + 1].start)
  }

  /** The link's fields describe the latest window. */
  ghost predicate Describes(ws: seq<Window>, l: Link, delta: real) {
    && ws != []
    && l.ntime == ws[|ws| - 1].start + Span(SLOTS, delta)
    && l.stime == ws[|ws| - 1].start + Span(ws[|ws| - 1].used, delta)
  }

  lemma {:induction false} TotalUsedStep(ws: seq<Window>, w: Window)
    ensures TotalUsed(ws + [w]) == TotalUsed(ws) + w.used
    ensures ws != [] ==> TotalUsed(ws[|ws| - 1 := w]) == TotalUsed(ws) - ws[|ws| - 1].used + w.used
  {
    assert (ws + [w])[..|ws|] == ws;
    if ws != [] {
      assert ws[|ws| - 1 := w][..|ws| - 1] == ws[..|ws| - 1];
    }
  }

  /** Opening a window after the latest one. */
  lemma OpenKeepsWindows(ws: seq<Window>, l: Link, a: real, delta: real)
    requires delta > 0.0 && Windows(ws, delta) && (ws != [] ==> Describes(ws, l, delta))
    requires OpensIdle(l, a) || OpensNext(l, a, delta)
    ensures Windows(ws + [Window(WindowStart(l, a), 1)], delta)
    ensures Describes(ws + [Window(WindowStart(l, a), 1)], Admit(l, a, delta).0, delta)
  {
    SpanStep(0, delta);
    hide Span;
  }

  /** Admitting one more request to a window that is not used up. */
  lemma FillKeepsWindows(ws: seq<Window>, l: Link, a: real, delta: real)
    requires delta > 0.0 && Windows(ws, delta) && Describes(ws, l, delta)
    requires !OpensIdle(l, a) && !OpensNext(l, a, delta)
    ensures var w := ws[|ws| - 1];
            var ws' := ws[|ws| - 1 := w.(used := w.used + 1)];
            Windows(ws', delta) && Describes(ws', Admit(l, a, delta).0, delta)
  {
    var w := ws[|ws| - 1];
    SpanStep(w.used, delta);
    SpanCompare(SLOTS, w.used + 1, delta);
    hide Span;
  }

  /** In every run the windows are disjoint, each admits between one and a hundred
      requests, and together they admit all of them; the first starts with the first
      arrival. */
  lemma {:induction false} WindowsDisjointAndBounded(arrivals: seq<real>, delta: real, lag: real)
    requires Arrivals(arrivals, delta, lag)
    ensures var (ws, l) := Run(arrivals, delta, lag);
            && Windows(ws, delta) && l.lag >= 0.0
            && TotalUsed(ws) == |arrivals|
            && (arrivals == [] ==> ws == [] && l.ntime == 0.0)
            && (arrivals != [] ==> Describes(ws, l, delta) && ws[0].start == arrivals[0])
  {
    if arrivals != [] {
      var k := |arrivals| - 1;
      var (ws, l) := Run(arrivals[..k], delta, lag);
      WindowsDisjointAndBounded(arrivals[..k], delta, lag);
      assert Run(arrivals, delta, lag) == (Track(ws, l, arrivals[k], delta), Admit(l, arrivals[k], delta).0);
      TrackKeepsWindows(ws, l, arrivals[k], delta);
      hide Windows;
      hide Describes;
      hide Track;
      hide Admit;
      hide TotalUsed;
    }
  }

  lemma TrackKeepsWindows(ws: seq<Window>, l: Link, a: real, delta: real)
    requires delta > 0.0 && a > 0.0 && l.lag >= 0.0 && Windows(ws, delta)
    requires if ws == [] then l.ntime == 0.0 else Describes(ws, l, delta)
    ensures var ws' := Track(ws, l, a, delta);
            && Windows(ws', delta) && Describes(ws', Admit(l, a, delta).0, delta)
            && Admit(l, a, delta).0.lag >= 0.0
            && TotalUsed(ws') == TotalUsed(ws) + 1
            && ws'[0].start == (if ws == [] then a else ws[0].start)
  {
    hide Span;
    if OpensIdle(l, a) || OpensNext(l, a, delta) {
      OpenKeepsWindows(ws, l, a, delta);
      TotalUsedStep(ws, Window(WindowStart(l, a), 1));
    } else {
      FillKeepsWindows(ws, l, a, delta);
      var w := ws[|ws| - 1];
      TotalUsedStep(ws, w.(used := w.used + 1));
    }
  }

  lemma {:induction false} UsedBound(ws: seq<Window>, delta: real)
    requires Windows(ws, delta)
    ensures TotalUsed(ws) <= SLOTS * |ws|
  {
    if ws != [] { UsedBound(ws[..|ws| - 1], delta); }
  }

  lemma {:induction false} SpanBound(ws: seq<Window>, delta: real)
    requires Windows(ws, delta) && ws != [] && delta > 0.0
    ensures ws[|ws| - 1].start + Span(SLOTS, delta) >= ws[0].start + Span(SLOTS * |ws|, delta)
  {
    var m := |ws| - 1;
    if m > 0 {
      SpanBound(ws[..m], delta);
      SpanAdd(SLOTS * m, SLOTS, delta);
      assert ws[m - 1].start + Span(SLOTS, delta) <= ws[m].start;
    }
  }

  /** Rate bound: after n requests the link is reserved for at least a hundred
      service times per started hundred of requests. */
  lemma RateBound(arrivals: seq<real>, delta: real, lag: real)
    requires Arrivals(arrivals, delta, lag) && arrivals != []
    ensures Run(arrivals, delta, lag).1.ntime
            >= arrivals[0] + Span(SLOTS * ((|arrivals| + SLOTS - 1) / SLOTS), delta)
  {
    hide Run;
    var (ws, l) := Run(arrivals, delta, lag);
    WindowsDisjointAndBounded(arrivals, delta, lag);
    UsedBound(ws, delta);
    SpanBound(ws, delta);
    hide Windows;
    hide Describes;
    hide TotalUsed;
    hide Run;
    hide Span;
    SpanGrows(SLOTS * ((|arrivals| + SLOTS - 1) / SLOTS), SLOTS * |ws|, delta);
  }

  /** Every deadline lies at least a microsecond after its request's stamp; the
      request that opens a follow-on window completes a microsecond into it. */
  lemma DeadlineFloor(arrivals: seq<real>, delta: real, lag: real, a: real)
    requires Arrivals(arrivals, delta, lag) && a > 0.0
    ensures var l := Run(arrivals, delta, lag).1;
            var expire := Admit(l, a, delta).1;
            && expire >= a + 1000.0
            && (OpensNext(l, a, delta) ==> expire == l.ntime + 1000.0)
  {
    WindowsDisjointAndBounded(arrivals, delta, lag);
    hide Run;
    hide Span;
    hide Windows;
  }

  /** The deadline of request `k`. */
  function Deadline(arrivals: seq<real>, delta: real, lag: real, k: nat): real
    requires k < |arrivals|
  {
    Admit(Run(arrivals[..k], delta, lag).1, arrivals[k], delta).1
  }

  lemma RunNext(arrivals: seq<real>, k: nat, delta: real, lag: real)
    requires k < |arrivals|
    ensures Run(arrivals[..k + 1], delta, lag).1
            == Admit(Run(arrivals[..k], delta, lag).1, arrivals[k], delta).0
  {
    assert arrivals[..k + 1][..k] == arrivals[..k];
  }

  // ----- Which deadline each request gets -----------------------------------------

  function Deadlines(arrivals: seq<real>, delta: real, lag: real): (r: seq<real>)
    ensures |r| == |arrivals|
  {
    seq(|arrivals|, k requires 0 <= k < |arrivals| => Deadline(arrivals, delta, lag, k))
  }

  lemma DeadlinesPrefix(arrivals: seq<real>, delta: real, lag: real, n: nat)
    requires n <= |arrivals|
    ensures Deadlines(arrivals, delta, lag)[..n] == Deadlines(arrivals[..n], delta, lag)
  {
    forall k | 0 <= k < n ensures Deadline(arrivals, delta, lag, k) == Deadline(arrivals[..n], delta, lag, k) {
      assert arrivals[..n][..k] == arrivals[..k];
    }
  }

  /** How many requests the windows before number `j` have admitted. */
  function Before(ws: seq<Window>, j: nat): nat
    requires j <= |ws|
  {
    TotalUsed(ws[..j])
  }

  function End(w: Window, delta: real): real {
    w.start + Span(SLOTS, delta)
  }

  /** A window, its requests from number `first` on, and their deadlines.  If the first of
      them was stamped after the window before had ended, the window starts with its stamp
      and the request takes two microseconds.  If not, the window before is full, this one
      starts where that one ends, and the request completes a microsecond into it.  The
      others were stamped before the window's end, and each is held as long as the first
      one was, unless it was stamped at the very end, plus a microsecond. */
  ghost predicate Story(arrivals: seq<real>, deadlines: seq<real>, first: nat, w: Window, before: Option<Window>,
                        delta: real)
    requires |deadlines| == |arrivals|
  {
    && 1 <= w.used && first + w.used <= |arrivals|
    && (if before.None? || arrivals[first] > End(before.value, delta) then
          w.start == arrivals[first] && deadlines[first] == arrivals[first] + 2000.0
        else
          before.value.used == SLOTS && w.start == End(before.value, delta) && deadlines[first] == w.start + 1000.0)
    && forall k :: first < k < first + w.used ==>
         Joins(arrivals[k], deadlines[k], w, w.start - arrivals[first], delta)
  }

  /** That is so of window `j`. */
  ghost predicate Explained(arrivals: seq<real>, deadlines: seq<real>, ws: seq<Window>, j: nat, delta: real)
    requires j < |ws| && |deadlines| == |arrivals|
  {
    Story(arrivals, deadlines, Before(ws, j), ws[j], Previous(ws, j), delta)
  }

  function Previous(ws: seq<Window>, j: nat): Option<Window>
    requires j <= |ws|
  {
    if j == 0 then None else Some(ws[j - 1])
  }

  /** A request that was admitted to an open window. */
  predicate Joins(stamp: real, deadline: real, w: Window, held: real, delta: real) {
    && stamp <= End(w, delta)
    && deadline == stamp + 1000.0 + if stamp < End(w, delta) then held else 0.0
  }

  /** The link remembers how long the first request of the latest window was held. */
  ghost predicate Remembers(arrivals: seq<real>, ws: seq<Window>, l: Link) {
    && ws != [] && Before(ws, |ws| - 1) < |arrivals|
    && l.lag == ws[|ws| - 1].start - arrivals[Before(ws, |ws| - 1)]
  }

  lemma BeforeNext(ws: seq<Window>, j: nat)
    requires j < |ws|
    ensures Before(ws, j + 1) == Before(ws, j) + ws[j].used && Before(ws, |ws|) == TotalUsed(ws)
  {
    assert ws[..j + 1][..j] == ws[..j];
    assert ws[..|ws|] == ws;
  }

  /** Later requests do not change what has been said about a window. */
  lemma StaysExplained(a: seq<real>, ds: seq<real>, ws: seq<Window>, a': seq<real>, ds': seq<real>,
                       ws': seq<Window>, j: nat, delta: real)
    requires |a| == |ds| && |a'| == |ds'| && a <= a' && ds <= ds'
    requires j < |ws| && j < |ws'| && ws[..j + 1] == ws'[..j + 1]
    requires Explained(a, ds, ws, j, delta)
    ensures Explained(a', ds', ws', j, delta)
  {
    assert ws[j] == ws[..j + 1][j] == ws'[..j + 1][j] == ws'[j];
    if j > 0 { assert ws[j - 1] == ws[..j + 1][j - 1] == ws'[..j + 1][j - 1] == ws'[j - 1]; }
    assert ws[..j] == ws[..j + 1][..j] == ws'[..j + 1][..j] == ws'[..j];
    StoryStays(a, ds, a', ds', Before(ws, j), ws[j], Previous(ws, j), delta);
    hide Story;
    hide TotalUsed;
  }

  lemma StoryStays(a: seq<real>, ds: seq<real>, a': seq<real>, ds': seq<real>, first: nat, w: Window,
                   before: Option<Window>, delta: real)
    requires |a| == |ds| && |a'| == |ds'| && a <= a' && ds <= ds'
    requires Story(a, ds, first, w, before, delta)
    ensures Story(a', ds', first, w, before, delta)
  {
    hide End;
    hide Joins;
    forall k | first < k < first + w.used ensures Joins(a'[k], ds'[k], w, w.start - a'[first], delta) {
      assert Joins(a[k], ds[k], w, w.start - a[first], delta);
    }
  }

  lemma OpensExplained(a: seq<real>, ds: seq<real>, ws: seq<Window>, l: Link, stamp: real, delta: real)
    requires delta > 0.0 && stamp > 0.0 && |a| == |ds| && TotalUsed(ws) == |a|
    requires Windows(ws, delta) && if ws == [] then l.ntime == 0.0 else Describes(ws, l, delta)
    requires OpensIdle(l, stamp) || OpensNext(l, stamp, delta)
    ensures var (l', d) := Admit(l, stamp, delta);
            var ws' := ws + [Window(WindowStart(l, stamp), 1)];
            Explained(a + [stamp], ds + [d], ws', |ws|, delta) && Remembers(a + [stamp], ws', l')
  {
    var ws' := ws + [Window(WindowStart(l, stamp), 1)];
    assert ws'[..|ws|] == ws;
    if ws != [] {
      SpanStep(ws[|ws| - 1].used, delta);
      SpanCompare(ws[|ws| - 1].used + 1, SLOTS + 1, delta);
      SpanStep(SLOTS, delta);
      if OpensNext(l, stamp, delta) { FullWindow(ws[|ws| - 1].used, delta); }
    }
    hide Span;
    hide TotalUsed;
  }

  lemma FullWindow(used: nat, delta: real)
    requires delta > 0.0 && used <= SLOTS && Span(SLOTS, delta) < Span(used + 1, delta)
    ensures used == SLOTS
  {
    SpanCompare(SLOTS, used + 1, delta);
    if used + 1 <= SLOTS { SpanGrows(used + 1, SLOTS, delta); }
  }

  lemma FillsExplained(a: seq<real>, ds: seq<real>, ws: seq<Window>, l: Link, stamp: real, delta: real)
    requires delta > 0.0 && |a| == |ds| && TotalUsed(ws) == |a| && ws != []
    requires Windows(ws, delta) && Describes(ws, l, delta) && Remembers(a, ws, l) && l.lag >= 0.0
    requires !OpensIdle(l, stamp) && !OpensNext(l, stamp, delta)
    requires Explained(a, ds, ws, |ws| - 1, delta)
    ensures var (l', d) := Admit(l, stamp, delta);
            var w := ws[|ws| - 1];
            var ws' := ws[|ws| - 1 := w.(used := w.used + 1)];
            Explained(a + [stamp], ds + [d], ws', |ws| - 1, delta) && Remembers(a + [stamp], ws', l')
  {
    var m, w := |ws| - 1, ws[|ws| - 1];
    var w' := w.(used := w.used + 1);
    var ws' := ws[m := w'];
    assert ws'[..m] == ws[..m] && ws'[m] == w' && Previous(ws', m) == Previous(ws, m);
    BeforeNext(ws, m);
    JoinerDeadline(l, w, stamp, l.lag, delta);
    hide Admit;
    hide Windows;
    hide Story;
    hide Joins;
    hide TotalUsed;
    StoryFills(a, ds, Before(ws, m), w, w', Previous(ws, m), stamp, Admit(l, stamp, delta).1, delta);
  }

  lemma JoinerDeadline(l: Link, w: Window, stamp: real, held: real, delta: real)
    requires l.ntime == End(w, delta) && l.lag == held >= 0.0
    requires !OpensIdle(l, stamp) && !OpensNext(l, stamp, delta)
    ensures Joins(stamp, Admit(l, stamp, delta).1, w, held, delta) && Admit(l, stamp, delta).0.lag == held
  {
  }

  lemma StoryFills(a: seq<real>, ds: seq<real>, first: nat, w: Window, w': Window, before: Option<Window>,
                   stamp: real, d: real, delta: real)
    requires |a| == |ds| == first + w.used && w' == w.(used := w.used + 1)
    requires Story(a, ds, first, w, before, delta) && Joins(stamp, d, w, w.start - a[first], delta)
    ensures Story(a + [stamp], ds + [d], first, w', before, delta)
  {
    hide Span;
    var a', ds' := a + [stamp], ds + [d];
    forall k | first < k < first + w'.used ensures Joins(a'[k], ds'[k], w', w'.start - a'[first], delta) {
      if k < |a| { assert Joins(a[k], ds[k], w, w.start - a[first], delta); }
    }
  }

  lemma RunStep(arrivals: seq<real>, delta: real, lag: real)
    requires arrivals != []
    ensures var k := |arrivals| - 1;
            var (ws, l) := Run(arrivals[..k], delta, lag);
            && Run(arrivals, delta, lag) == (Track(ws, l, arrivals[k], delta), Admit(l, arrivals[k], delta).0)
            && arrivals == arrivals[..k] + [arrivals[k]]
            && Deadlines(arrivals, delta, lag)
               == Deadlines(arrivals[..k], delta, lag) + [Admit(l, arrivals[k], delta).1]
  {
    var k := |arrivals| - 1;
    DeadlinesPrefix(arrivals, delta, lag, k);
    assert Deadlines(arrivals, delta, lag)[k] == Deadline(arrivals, delta, lag, k);
    hide Admit;
    hide Track;
  }

  /** In every run every window and the deadlines of its requests are as explained. */
  lemma {:induction false} EveryDeadline(arrivals: seq<real>, delta: real, lag: real)
    requires Arrivals(arrivals, delta, lag)
    ensures var (ws, l) := Run(arrivals, delta, lag);
            && (forall j :: 0 <= j < |ws| ==>
                  Explained(arrivals, Deadlines(arrivals, delta, lag), ws, j, delta))
            && (arrivals != [] ==> Remembers(arrivals, ws, l))
  {
    if arrivals != [] {
      var k := |arrivals| - 1;
      var (ws, l) := Run(arrivals[..k], delta, lag);
      var a, ds := arrivals[..k], Deadlines(arrivals[..k], delta, lag);
      EveryDeadline(a, delta, lag);
      WindowsDisjointAndBounded(a, delta, lag);
      RunStep(arrivals, delta, lag);
      ExplainedStep(a, ds, ws, l, arrivals[k], delta);
      hide Run;
      hide Deadlines;
      hide Explained;
      hide Remembers;
      hide Track;
      hide Admit;
    }
  }

  lemma ExplainedStep(a: seq<real>, ds: seq<real>, ws: seq<Window>, l: Link, stamp: real, delta: real)
    requires delta > 0.0 && stamp > 0.0 && |a| == |ds| && TotalUsed(ws) == |a| && Windows(ws, delta) && l.lag >= 0.0
    requires if ws == [] then l.ntime == 0.0 else Describes(ws, l, delta) && Remembers(a, ws, l)
    requires forall j :: 0 <= j < |ws| ==> Explained(a, ds, ws, j, delta)
    ensures var (l', d) := Admit(l, stamp, delta);
            var ws' := Track(ws, l, stamp, delta);
            && (forall j :: 0 <= j < |ws'| ==> Explained(a + [stamp], ds + [d], ws', j, delta))
            && Remembers(a + [stamp], ws', l')
  {
    var (l', d) := Admit(l, stamp, delta);
    var ws' := Track(ws, l, stamp, delta);
    if OpensIdle(l, stamp) || OpensNext(l, stamp, delta) {
      OpensExplained(a, ds, ws, l, stamp, delta);
    } else {
      FillsExplained(a, ds, ws, l, stamp, delta);
    }
    hide Explained;
    hide Remembers;
    hide Admit;
    hide Span;
    hide TotalUsed;
    forall j | 0 <= j < |ws'| - 1 ensures Explained(a + [stamp], ds + [d], ws', j, delta) {
      assert ws[..j + 1] == ws'[..j + 1];
      StaysExplained(a, ds, ws, a + [stamp], ds + [d], ws', j, delta);
    }
  }

  lemma ServedAsExplained(arrivals: seq<real>, delta: real, lag: real, expires: seq<real>)
    requires Arrivals(arrivals, delta, lag) && |expires| == |arrivals|
    requires forall k :: 0 <= k < |arrivals| ==> expires[k] == Deadline(arrivals, delta, lag, k)
    ensures var ws := Run(arrivals, delta, lag).0;
            forall j :: 0 <= j < |ws| ==> Explained(arrivals, expires, ws, j, delta)
  {
    EveryDeadline(arrivals, delta, lag);
    assert expires == Deadlines(arrivals, delta, lag);
    hide Deadline;
    hide Run;
    hide Explained;
  }

  /** The window of request `k`. */
  lemma {:induction false} WindowOf(ws: seq<Window>, k: nat) returns (j: nat)
    requires k < TotalUsed(ws)
    ensures j < |ws| && Before(ws, j) <= k < Before(ws, j) + ws[j].used
  {
    var m := |ws| - 1;
    BeforeNext(ws, m);
    if k >= Before(ws, m) {
      j := m;
    } else {
      j := WindowOf(ws[..m], k);
      assert ws[..m][..j] == ws[..j];
    }
  }

  /** When the stamps are in dequeue order, the requests of a window complete no earlier
      than a microsecond after its start. */
  lemma StoryFloor(a: seq<real>, ds: seq<real>, first: nat, w: Window, before: Option<Window>, delta: real, k: nat)
    requires delta > 0.0 && |ds| == |a| && Story(a, ds, first, w, before, delta) && first <= k < first + w.used
    requires forall i, j :: 0 <= i < j < |a| ==> a[i] <= a[j]
    ensures ds[k] >= w.start + 1000.0
  {
    SpanGrows(0, SLOTS, delta);
    assert Span(0, delta) == 0.0;
    hide Span;
    if first < k {
      assert Joins(a[k], ds[k], w, w.start - a[first], delta);
      assert a[first] <= a[k];
    }
  }

  lemma DeadlineInWindow(arrivals: seq<real>, delta: real, lag: real, k: nat) returns (j: nat)
    requires Arrivals(arrivals, delta, lag) && k < |arrivals|
    requires forall i, i' :: 0 <= i < i' < |arrivals| ==> arrivals[i] <= arrivals[i']
    ensures var ws := Run(arrivals, delta, lag).0;
            && j < |ws| && Before(ws, j) <= k < Before(ws, j) + ws[j].used
            && Deadline(arrivals, delta, lag, k) >= ws[j].start + 1000.0
  {
    var ws, ds := Run(arrivals, delta, lag).0, Deadlines(arrivals, delta, lag);
    hide Run;
    hide Before;
    hide Deadline;
    hide Story;
    WindowsDisjointAndBounded(arrivals, delta, lag);
    EveryDeadline(arrivals, delta, lag);
    j := WindowOf(ws, k);
    assert Explained(arrivals, ds, ws, j, delta);
    StoryFloor(arrivals, ds, Before(ws, j), ws[j], Previous(ws, j), delta, k);
  }

  /** `struct nic` and the global `lag`. */
  class Nic {
    var ntime: real
    var stime: real
    var lag: real

    function View(): Link
      reads this
    {
      Link(ntime, stime, lag)
    }

    constructor (lag: real)
      ensures View() == Link(0.0, 0.0, lag)
    {
      this.ntime, this.stime, this.lag := 0.0, 0.0, lag;
    }

    /** The per-request part of the RNIC loop; `expireTime` starts as the stamp. */
    method AdmitRequest(reqStime: real, delta: real) returns (expireTime: real)
      modifies this
      ensures (View(), expireTime) == Admit(old(View()), reqStime, delta)
    {
      expireTime := reqStime;
      hide Span;
      if ntime < reqStime {
        lag := 0.0;
        stime := reqStime;
        ntime := stime + Span(SLOTS, delta);
        expireTime := expireTime + 1000.0;
      } else if ntime < stime + delta {
        lag := ntime - reqStime;
        stime := ntime;
        ntime := stime + Span(SLOTS, delta);
        expireTime := expireTime + lag;
      } else if reqStime < ntime && lag > 0.0 {
        expireTime := expireTime + lag;
      }
      expireTime := expireTime + 1000.0;
      stime := stime + delta;
    }

    /** The RNIC loop over the stamps of the requests it dequeues. */
    method Serve(arrivals: seq<real>, delta: real) returns (expires: seq<real>)
      requires ntime == 0.0 && stime == 0.0 && Arrivals(arrivals, delta, lag)
      modifies this
      ensures View() == Run(arrivals, delta, old(lag)).1
      ensures |expires| == |arrivals|
      ensures forall k :: 0 <= k < |arrivals| ==> expires[k] == Deadline(arrivals, delta, old(lag), k)
      ensures forall k :: 0 <= k < |arrivals| ==> expires[k] >= arrivals[k] + 1000.0
      ensures var ws := Run(arrivals, delta, old(lag)).0;
              forall j :: 0 <= j < |ws| ==> Explained(arrivals, expires, ws, j, delta)
    {
      assert View() == Run(arrivals[..0], delta, lag).1;
      hide Admit;
      hide Run;
      expires := [];
      var done := 0;
      while done < |arrivals|
        invariant 0 <= done <= |arrivals| && |expires| == done
        invariant View() == Run(arrivals[..done], delta, old(lag)).1
        invariant forall k :: 0 <= k < done ==> expires[k] == Deadline(arrivals, delta, old(lag), k)
      {
        RunNext(arrivals, done, delta, old(lag));
        var expire := AdmitRequest(arrivals[done], delta);
        assert expire == Deadline(arrivals, delta, old(lag), done);
        expires := expires + [expire];
        done := done + 1;
      }
      assert arrivals[..done] == arrivals;
      forall k | 0 <= k < |arrivals| ensures expires[k] >= arrivals[k] + 1000.0 {
        DeadlineFloor(arrivals[..k], delta, old(lag), arrivals[k]);
      }
      ServedAsExplained(arrivals, delta, old(lag), expires);
    }
  }
}
