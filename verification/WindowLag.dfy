/**
 The link model of `test2-rdma2.c`: one-millisecond windows, a `lag` carried from
 request to request, and an RNIC that holds each completion until its deadline.
 Every call of `now_ns` takes the next reading of an ascending clock.  Times are
 reals in nanoseconds.
 */
module WindowLag {
  import opened Wrappers
  import opened Spans
  import opened Word64

  const WINDOW: real := 1000000.0

  datatype Link = Link(ntime: real, stime: real, lag: real)

  /** What the RNIC did with one request: its clock reading, the lag it left and the
      deadline it stamped. */
  datatype Entry = Entry(now: real, lag: real, expire: real)

  /** The link after a request dequeued at `now`. */
  function Admit(l: Link, now: real, delta: real): Link {
    if l.ntime < now then Link(now + WINDOW, now + delta, 0.0)
    else if l.ntime < l.stime + delta then Link(l.ntime + WINDOW, l.ntime + 2.0 * delta, l.ntime - now)
    else l.(stime := l.stime + delta)
  }

  /** How long the request is held. */
  function Hold(l: Link, now: real, delta: real): real {
    if l.ntime < now then 0.0
    else if l.ntime < l.stime + delta then l.ntime - now
    else if now < l.ntime && l.lag > 0.0 then l.lag
    else 0.0
  }

  predicate Ascending(readings: seq<real>) {
    forall i, j :: 0 <= i < j < |readings| ==> readings[i] <= readings[j]
  }

  /** The window in force ends at most a window length after `clock`, and the lag is
      at most a window length. */
  predicate Bounded(l: Link, clock: real) {
    l.ntime <= clock + WINDOW && 0.0 <= l.lag <= WINDOW
  }

  /** One request keeps the bound, if the clock has passed its deadline before the
      next request is looked at. */
  lemma AdmitKeepsBound(l: Link, clock: real, now: real, delta: real, later: real)
    requires Bounded(l, clock) && clock <= now
    requires later >= now + Hold(l, now, delta) && later >= now
    ensures 0.0 <= Hold(l, now, delta) <= WINDOW
    ensures Bounded(Admit(l, now, delta), later)
  {
  }

  /** Without the busy-wait the bound fails: three requests at the same instant, with
      a service time of 600 microseconds, leave a lag of two milliseconds. */
  lemma BusyWaitIsNeeded()
    ensures var l0 := Link(1.0, 0.0, 0.0);
            var l1 := Admit(l0, 1.0, 600000.0);
            var l2 := Admit(l1, 1.0, 600000.0);
            var l3 := Admit(l2, 1.0, 600000.0);
            Bounded(l0, 1.0) && l3.lag == 2.0 * WINDOW && Hold(l2, 1.0, 600000.0) == 2.0 * WINDOW
  {
  }

  /** `links[k]` is the link before request `k` of `log`. */
  ghost predicate LogOk(log: seq<Entry>, links: seq<Link>, delta: real, k: nat)
    requires k < |log| && k + 1 < |links|
  {
    && links[k + 1] == Admit(links[k], log[k].now, delta)
    && log[k].lag == links[k + 1].lag
    && log[k].expire == log[k].now + Hold(links[k], log[k].now, delta)
  }

  /** Neither the carried lag nor a request's delay exceeds a millisecond. */
  ghost predicate Punctual(e: Entry) {
    0.0 <= e.lag <= WINDOW && 0.0 <= e.expire - e.now <= WINDOW
  }

  /** A whole run: the link after each request, and every request punctual. */
  ghost predicate RunOk(log: seq<Entry>, links: seq<Link>, delta: real) {
    |links| == |log| + 1 && forall k :: 0 <= k < |log| ==> LogOk(log, links, delta, k) && Punctual(log[k])
  }

  lemma RunGrows(log: seq<Entry>, links: seq<Link>, e: Entry, l: Link, delta: real)
    requires RunOk(log, links, delta) && Punctual(e)
    requires l == Admit(links[|log|], e.now, delta) && e.lag == l.lag
    requires e.expire == e.now + Hold(links[|log|], e.now, delta)
    ensures RunOk(log + [e], links + [l], delta)
  {
    hide Admit;
    hide Hold;
    hide Punctual;
    var log', links' := log + [e], links + [l];
    forall k | 0 <= k < |log'| ensures LogOk(log', links', delta, k) && Punctual(log'[k]) {
      if k < |log| { assert LogOk(log, links, delta, k); }
    }
  }

  // ----- The windows --------------------------------------------------------------

  /** A window of one millisecond: its start, the requests it admitted, and whether it was
      opened behind another one. */
  datatype Window = Window(start: real, used: nat, behind: bool)

  function End(w: Window): real {
    w.start + WINDOW
  }

  /** The service times a window has given away; opening behind another costs one more. */
  function Spent(w: Window): nat {
    w.used + if w.behind then 1 else 0
  }

  function TotalUsed(ws: seq<Window>): nat {
    if ws == [] then 0 else TotalUsed(ws[..|ws| - 1]) + ws[|ws| - 1].used
  }

  function Previous(ws: seq<Window>, j: nat): Option<Window>
    requires j <= |ws|
  {
    if j == 0 then None else Some(ws[j - 1])
  }

  /** A request that was admitted to an open window: it is held for exactly the lag the
      window was opened with, unless it comes at the very end. */
  predicate Joins(e: Entry, w: Window, lag: real) {
    && e.now <= End(w) && e.lag == lag
    && e.expire == e.now + if e.now < End(w) then lag else 0.0
  }

  /** The request that opens a window, after a time `end` up to which the link was taken.
      Coming later it is not held, and the window starts with it.  Coming earlier it is
      held until `end`, where the window starts; that happens only when the time before
      was used up. */
  predicate Opens(e: Entry, w: Window, end: real, usedUp: bool) {
    if e.now > end then
      !w.behind && w.start == e.now && e.lag == 0.0 && e.expire == e.now
    else
      w.behind && usedUp && w.start == end && e.lag == end - e.now && e.expire == end
  }

  /** A window gives away no more service times than it has room for, but one request in
      any case. */
  predicate Fits(w: Window, delta: real) {
    w.used == 1 || (w.used > 1 && Span(Spent(w), delta) <= WINDOW)
  }

  /** Until when the link was taken before a window: to the end of the window before, or
      to the clock reading at the start of the thread. */
  function TakenUntil(before: Option<Window>, start: real): real {
    if before.None? then start else End(before.value)
  }

  /** Whether that time had no room for another request. */
  predicate UsedUp(before: Option<Window>, start: real, free: nat, delta: real) {
    if before.None? then start < Span(free + 1, delta) else WINDOW < Span(Spent(before.value) + 1, delta)
  }

  /** A window and its requests, from number `first` on. */
  ghost predicate Story(log: seq<Entry>, first: nat, w: Window, before: Option<Window>, start: real, free: nat,
                        delta: real)
  {
    && Fits(w, delta) && first + w.used <= |log|
    && Opens(log[first], w, TakenUntil(before, start), UsedUp(before, start, free, delta))
    && forall k :: first < k < first + w.used ==> Joins(log[k], w, log[first].lag)
  }

  /** The story of window `j`. */
  ghost predicate StoryAt(log: seq<Entry>, start: real, free: nat, ws: seq<Window>, j: nat, delta: real)
    requires j < |ws|
  {
    Story(log, free + TotalUsed(ws[..j]), ws[j], Previous(ws, j), start, free, delta)
  }

  /** The first `free` requests come at the very clock reading with which the thread
      started; they belong to no window and are not held. */
  ghost predicate FreePart(log: seq<Entry>, start: real, lag: real, free: nat, delta: real) {
    && free <= |log| && (free > 0 ==> Span(free, delta) <= start)
    && forall k :: 0 <= k < free ==> log[k] == Entry(start, lag, start)
  }

  /** All requests of a run: the free ones, then window after window. */
  ghost predicate Explains(log: seq<Entry>, start: real, lag: real, free: nat, ws: seq<Window>, delta: real) {
    && FreePart(log, start, lag, free, delta)
    && free + TotalUsed(ws) == |log|
    && forall j :: 0 <= j < |ws| ==> StoryAt(log, start, free, ws, j, delta)
  }

  /** The link's fields describe the latest window. */
  ghost predicate Describes(log: seq<Entry>, start: real, lag: real, free: nat, ws: seq<Window>, l: Link, delta: real) {
    if ws == [] then l == Link(start, Span(free, delta), lag)
    else
      var w, first := ws[|ws| - 1], free + TotalUsed(ws[..|ws| - 1]);
      && l.ntime == End(w) && l.stime == w.start + Span(Spent(w), delta)
      && first < |log| && l.lag == log[first].lag >= 0.0
  }

  lemma StoryStays(log: seq<Entry>, log': seq<Entry>, first: nat, w: Window, before: Option<Window>, start: real,
                   free: nat, delta: real)
    requires log <= log' && Story(log, first, w, before, start, free, delta)
    ensures Story(log', first, w, before, start, free, delta)
  {
    hide Joins;
    hide Span;
    forall k | first < k < first + w.used ensures Joins(log'[k], w, log'[first].lag) {
      assert Joins(log[k], w, log[first].lag);
    }
  }

  /** A request that opens a window. */
  lemma OpensWindow(l: Link, e: Entry, end: real, usedUp: bool, delta: real)
    requires l.ntime == end && (usedUp <==> l.ntime < l.stime + delta)
    requires l.ntime < e.now || l.ntime < l.stime + delta
    requires e.lag == Admit(l, e.now, delta).lag && e.expire == e.now + Hold(l, e.now, delta)
    ensures var l' := Admit(l, e.now, delta);
            var w := Window(if end < e.now then e.now else end, 1, !(end < e.now));
            && Opens(e, w, end, usedUp) && Fits(w, delta)
            && l'.ntime == End(w) && l'.stime == w.start + Span(Spent(w), delta) && l'.lag == e.lag >= 0.0
  {
    assert Span(1, delta) == delta && Span(2, delta) == 2.0 * delta;
    hide Span;
  }

  /** A request that joins one. */
  lemma JoinsWindow(l: Link, e: Entry, w: Window, lag: real, delta: real)
    requires delta > 0.0 && w.used >= 1
    requires l.ntime == End(w) && l.stime == w.start + Span(Spent(w), delta) && l.lag == lag >= 0.0
    requires l.ntime >= e.now && l.ntime >= l.stime + delta
    requires e.lag == Admit(l, e.now, delta).lag && e.expire == e.now + Hold(l, e.now, delta)
    ensures var l' := Admit(l, e.now, delta);
            var w' := w.(used := w.used + 1);
            && Joins(e, w', lag) && Fits(w', delta)
            && l'.ntime == End(w') && l'.stime == w'.start + Span(Spent(w'), delta) && l'.lag == lag
  {
    SpanStep(Spent(w), delta);
    hide Span;
  }

  /** What one more request adds to the windows. */
  lemma ExplainsOneMore(log: seq<Entry>, start: real, lag: real, free: nat, ws: seq<Window>, l: Link, e: Entry,
                        delta: real)
    returns (free': nat, ws': seq<Window>)
    requires delta > 0.0 && lag >= 0.0 && e.now >= start
    requires Explains(log, start, lag, free, ws, delta) && Describes(log, start, lag, free, ws, l, delta)
    requires e.lag == Admit(l, e.now, delta).lag && e.expire == e.now + Hold(l, e.now, delta)
    ensures Explains(log + [e], start, lag, free', ws', delta)
    ensures Describes(log + [e], start, lag, free', ws', Admit(l, e.now, delta), delta)
  {
    if l.ntime < e.now || l.ntime < l.stime + delta {
      free' := free;
      ws' := OneMoreOpens(log, start, lag, free, ws, l, e, delta);
    } else if ws == [] {
      free', ws' := free + 1, [];
      OneMoreFree(log, start, lag, free, l, e, delta);
    } else {
      free' := free;
      ws' := OneMoreJoins(log, start, lag, free, ws, l, e, delta);
    }
  }

  lemma OneMoreFree(log: seq<Entry>, start: real, lag: real, free: nat, l: Link, e: Entry, delta: real)
    requires lag >= 0.0 && e.now >= start && l.ntime >= e.now && l.ntime >= l.stime + delta
    requires Explains(log, start, lag, free, [], delta) && Describes(log, start, lag, free, [], l, delta)
    requires e.lag == Admit(l, e.now, delta).lag && e.expire == e.now + Hold(l, e.now, delta)
    ensures Explains(log + [e], start, lag, free + 1, [], delta)
    ensures Describes(log + [e], start, lag, free + 1, [], Admit(l, e.now, delta), delta)
  {
    SpanStep(free, delta);
    hide Span;
  }

  lemma OneMoreOpens(log: seq<Entry>, start: real, lag: real, free: nat, ws: seq<Window>, l: Link,
                     e: Entry, delta: real)
    returns (ws': seq<Window>)
    requires delta > 0.0 && (l.ntime < e.now || l.ntime < l.stime + delta)
    requires Explains(log, start, lag, free, ws, delta) && Describes(log, start, lag, free, ws, l, delta)
    requires e.lag == Admit(l, e.now, delta).lag && e.expire == e.now + Hold(l, e.now, delta)
    ensures Explains(log + [e], start, lag, free, ws', delta)
    ensures Describes(log + [e], start, lag, free, ws', Admit(l, e.now, delta), delta)
  {
    hide *;
    var w := Window(if l.ntime < e.now then e.now else l.ntime, 1, !(l.ntime < e.now));
    ws' := ws + [w];
    LinkUsedUp(log, start, lag, free, ws, l, delta);
    OpensWindow(l, e, l.ntime, UsedUp(Previous(ws, |ws|), start, free, delta), delta);
    ExplainsLength(log, start, lag, free, ws, delta);
    StoryBegins(log, w, Previous(ws, |ws|), start, free, e, delta);
    StoryIsAt(log + [e], start, free, ws, ws', w, delta);
    WindowsStay(log, log + [e], start, lag, free, ws, ws', |ws|, delta);
    Assemble(log + [e], start, lag, free, ws', delta);
    LatestDescribed(log + [e], start, lag, free, ws', Admit(l, e.now, delta), delta);
  }

  lemma StoryBegins(log: seq<Entry>, w: Window, before: Option<Window>, start: real, free: nat, e: Entry, delta: real)
    requires w.used == 1 && Fits(w, delta)
    requires Opens(e, w, TakenUntil(before, start), UsedUp(before, start, free, delta))
    ensures Story(log + [e], |log|, w, before, start, free, delta)
  {
    hide Opens;
    hide UsedUp;
    hide Fits;
  }

  /** A window put behind the windows `ws` in `ws'`. */
  lemma StoryIsAt(log: seq<Entry>, start: real, free: nat, ws: seq<Window>, ws': seq<Window>, w: Window, delta: real)
    requires ws' == ws + [w]
    requires Story(log, free + TotalUsed(ws), w, Previous(ws, |ws|), start, free, delta)
    ensures ws'[..|ws|] == ws == ws[..|ws|] && StoryAt(log, start, free, ws', |ws|, delta)
  {
    assert ws'[..|ws|] == ws == ws[..|ws|];
    SamePrevious(ws, ws', |ws|);
    hide Story;
    hide TotalUsed;
  }

  lemma SamePrevious(ws: seq<Window>, ws': seq<Window>, j: nat)
    requires j <= |ws| && j <= |ws'| && ws[..j] == ws'[..j]
    ensures Previous(ws, j) == Previous(ws', j)
  {
    if j > 0 { assert ws[j - 1] == ws[..j][j - 1] == ws'[..j][j - 1] == ws'[j - 1]; }
  }

  lemma ExplainsLength(log: seq<Entry>, start: real, lag: real, free: nat, ws: seq<Window>, delta: real)
    requires Explains(log, start, lag, free, ws, delta)
    ensures free + TotalUsed(ws) == |log|
  {
  }

  lemma ExplainsWindow(log: seq<Entry>, start: real, lag: real, free: nat, ws: seq<Window>, j: nat, delta: real)
    requires Explains(log, start, lag, free, ws, delta) && j < |ws|
    ensures StoryAt(log, start, free, ws, j, delta)
  {
  }

  /** The latest window's story completes the explanation. */
  lemma Assemble(log: seq<Entry>, start: real, lag: real, free: nat, ws: seq<Window>, delta: real)
    requires ws != [] && FreePart(log, start, lag, free, delta)
    requires free + TotalUsed(ws[..|ws| - 1]) + ws[|ws| - 1].used == |log|
    requires forall j :: 0 <= j < |ws| ==> StoryAt(log, start, free, ws, j, delta)
    ensures Explains(log, start, lag, free, ws, delta)
  {
    TotalUsedLast(ws);
    hide StoryAt;
    hide FreePart;
    hide TotalUsed;
  }

  lemma LatestDescribed(log: seq<Entry>, start: real, lag: real, free: nat, ws: seq<Window>, l: Link, delta: real)
    requires ws != [] && free + TotalUsed(ws[..|ws| - 1]) < |log|
    requires var w := ws[|ws| - 1];
             && l.ntime == End(w) && l.stime == w.start + Span(Spent(w), delta)
             && l.lag == log[free + TotalUsed(ws[..|ws| - 1])].lag >= 0.0
    ensures Describes(log, start, lag, free, ws, l, delta)
  {
    hide Span;
  }

  lemma LinkUsedUp(log: seq<Entry>, start: real, lag: real, free: nat, ws: seq<Window>, l: Link, delta: real)
    requires Describes(log, start, lag, free, ws, l, delta)
    ensures l.ntime == TakenUntil(Previous(ws, |ws|), start)
    ensures UsedUp(Previous(ws, |ws|), start, free, delta) <==> l.ntime < l.stime + delta
  {
    SpanStep(free, delta);
    if ws != [] { SpanStep(Spent(ws[|ws| - 1]), delta); }
    hide Span;
  }

  lemma OneMoreJoins(log: seq<Entry>, start: real, lag: real, free: nat, ws: seq<Window>, l: Link,
                     e: Entry, delta: real)
    returns (ws': seq<Window>)
    requires delta > 0.0 && ws != [] && l.ntime >= e.now && l.ntime >= l.stime + delta
    requires Explains(log, start, lag, free, ws, delta) && Describes(log, start, lag, free, ws, l, delta)
    requires e.lag == Admit(l, e.now, delta).lag && e.expire == e.now + Hold(l, e.now, delta)
    ensures Explains(log + [e], start, lag, free, ws', delta)
    ensures Describes(log + [e], start, lag, free, ws', Admit(l, e.now, delta), delta)
  {
    hide *;
    var m, w := |ws| - 1, ws[|ws| - 1];
    var w' := w.(used := w.used + 1);
    var rest := ws[..m];
    ws' := rest + [w'];
    var first := free + TotalUsed(rest);
    ExplainsLength(log, start, lag, free, ws, delta);
    TotalUsedLast(ws);
    LatestWindow(log, start, lag, free, ws, l, delta);
    LatestStory(log, start, lag, free, ws, delta);
    JoinsWindow(l, e, w, log[first].lag, delta);
    StoryGrows(log, first, w, w', Previous(rest, m), start, free, e, delta);
    StoryIsAt(log + [e], start, free, rest, ws', w', delta);
    WindowsStay(log, log + [e], start, lag, free, ws, ws', m, delta);
    Assemble(log + [e], start, lag, free, ws', delta);
    LatestDescribed(log + [e], start, lag, free, ws', Admit(l, e.now, delta), delta);
  }

  lemma LatestStory(log: seq<Entry>, start: real, lag: real, free: nat, ws: seq<Window>, delta: real)
    requires ws != [] && Explains(log, start, lag, free, ws, delta)
    ensures var m, rest, w := |ws| - 1, ws[..|ws| - 1], ws[|ws| - 1];
            && Story(log, free + TotalUsed(rest), w, Previous(rest, m), start, free, delta)
            && w.used >= 1 && free + TotalUsed(rest) + w.used <= |log|
  {
    var m, rest := |ws| - 1, ws[..|ws| - 1];
    assert StoryAt(log, start, free, ws, m, delta);
    SamePrevious(ws, rest, m);
    hide Opens;
    hide Joins;
    hide TotalUsed;
  }

  lemma TotalUsedLast(ws: seq<Window>)
    requires ws != []
    ensures TotalUsed(ws) == TotalUsed(ws[..|ws| - 1]) + ws[|ws| - 1].used
  {
  }

  lemma LatestWindow(log: seq<Entry>, start: real, lag: real, free: nat, ws: seq<Window>, l: Link, delta: real)
    requires ws != [] && Describes(log, start, lag, free, ws, l, delta)
    ensures free + TotalUsed(ws[..|ws| - 1]) < |log|
    ensures var w := ws[|ws| - 1];
            && l.ntime == End(w) && l.stime == w.start + Span(Spent(w), delta)
            && l.lag == log[free + TotalUsed(ws[..|ws| - 1])].lag >= 0.0
  {
  }

  lemma StoryGrows(log: seq<Entry>, first: nat, w: Window, w': Window, before: Option<Window>, start: real, free: nat,
                   e: Entry, delta: real)
    requires Story(log, first, w, before, start, free, delta) && first + w.used == |log|
    requires w' == w.(used := w.used + 1) && Fits(w', delta) && Joins(e, w', log[first].lag)
    ensures Story(log + [e], first, w', before, start, free, delta)
  {
    hide Span;
    hide UsedUp;
    var log' := log + [e];
    forall k | first < k < first + w'.used ensures Joins(log'[k], w', log'[first].lag) {
      if k < |log| { assert Joins(log[k], w, log[first].lag); }
    }
  }

  /** The first `n` windows and the free requests keep their explanation. */
  lemma WindowsStay(log: seq<Entry>, log': seq<Entry>, start: real, lag: real, free: nat, ws: seq<Window>,
                    ws': seq<Window>, n: nat, delta: real)
    requires log <= log' && n <= |ws| && n <= |ws'| && ws[..n] == ws'[..n]
    requires Explains(log, start, lag, free, ws, delta)
    ensures FreePart(log', start, lag, free, delta)
    ensures forall j :: 0 <= j < n ==> StoryAt(log', start, free, ws', j, delta)
  {
    hide Span;
    hide Story;
    hide TotalUsed;
    forall j | 0 <= j < n ensures StoryAt(log', start, free, ws', j, delta) {
      assert StoryAt(log, start, free, ws, j, delta);
      assert ws[j] == ws[..n][j] == ws'[..n][j] == ws'[j];
      if j > 0 { assert ws[j - 1] == ws[..n][j - 1] == ws'[..n][j - 1] == ws'[j - 1]; }
      assert ws[..j] == ws[..n][..j] == ws'[..n][..j] == ws'[..j];
      StoryStays(log, log', free + TotalUsed(ws[..j]), ws[j], Previous(ws, j), start, free, delta);
    }
  }

  /** Every run is a sequence of windows. */
  lemma {:induction false} EveryWindow(log: seq<Entry>, links: seq<Link>, delta: real, n: nat)
    returns (free: nat, ws: seq<Window>)
    requires delta > 0.0 && |links| == |log| + 1 && n <= |log|
    requires links[0].stime == 0.0 && links[0].lag >= 0.0
    requires forall k :: 0 <= k < |log| ==> LogOk(log, links, delta, k) && log[k].now >= links[0].ntime
    ensures Explains(log[..n], links[0].ntime, links[0].lag, free, ws, delta)
    ensures Describes(log[..n], links[0].ntime, links[0].lag, free, ws, links[n], delta)
  {
    hide *;
    if n == 0 {
      free, ws := 0, [];
      NothingYet(log[..0], links[0], delta);
    } else {
      free, ws := EveryWindow(log, links, delta, n - 1);
      LogStep(log, links, delta, n - 1);
      var l := links[0];
      free, ws := ExplainsOneMore(log[..n - 1], l.ntime, l.lag, free, ws, links[n - 1], log[n - 1], delta);
      assert log[..n] == log[..n - 1] + [log[n - 1]];
    }
  }

  lemma NothingYet(log: seq<Entry>, l: Link, delta: real)
    requires log == [] && l.stime == 0.0
    ensures Explains(log, l.ntime, l.lag, 0, [], delta) && Describes(log, l.ntime, l.lag, 0, [], l, delta)
  {
    assert Span(0, delta) == 0.0;
  }

  lemma LogStep(log: seq<Entry>, links: seq<Link>, delta: real, k: nat)
    requires k < |log| && k + 1 < |links| && LogOk(log, links, delta, k)
    ensures links[k + 1] == Admit(links[k], log[k].now, delta)
    ensures log[k].lag == Admit(links[k], log[k].now, delta).lag
    ensures log[k].expire == log[k].now + Hold(links[k], log[k].now, delta)
  {
  }

  /** There are such windows. */
  ghost predicate Limited(log: seq<Entry>, start: real, lag: real, delta: real) {
    exists free: nat, ws: seq<Window> :: Explains(log, start, lag, free, ws, delta)
  }

  lemma RunIsLimited(log: seq<Entry>, links: seq<Link>, delta: real)
    requires delta > 0.0 && RunOk(log, links, delta)
    requires links[0].stime == 0.0 && links[0].lag >= 0.0
    requires forall k :: 0 <= k < |log| ==> log[k].now >= links[0].ntime
    ensures Limited(log, links[0].ntime, links[0].lag, delta)
  {
    var free, ws := EveryWindow(log, links, delta, |log|);
    assert log[..|log|] == log;
    hide Explains;
    hide Describes;
  }

  // ----- The rate -----------------------------------------------------------------

  /** The most requests a window admits: as many service times as fit in a millisecond,
      one less if it was opened behind another, but at least one. */
  function Most(delta: real, behind: bool): nat
    requires delta > 0.0
  {
    var room := (WINDOW / delta).Floor - if behind then 1 else 0;
    if room < 1 then 1 else room
  }

  lemma RoomFor(k: nat, delta: real)
    requires delta > 0.0 && Span(k, delta) <= WINDOW
    ensures k <= (WINDOW / delta).Floor
  {
    var room := WINDOW / delta;
    assert room * delta == WINDOW;
    if k as real > room {
      assert k as real * delta > room * delta;
    }
  }

  lemma FitsMost(w: Window, delta: real)
    requires delta > 0.0 && Fits(w, delta)
    ensures w.used <= Most(delta, w.behind) <= Most(delta, false)
  {
    if w.used > 1 { RoomFor(Spent(w), delta); }
    hide Span;
  }

  /** Windows follow one another without overlap. */
  lemma {:induction false} StartsApart(log: seq<Entry>, start: real, lag: real, free: nat, ws: seq<Window>,
                                       delta: real, j: nat)
    requires Explains(log, start, lag, free, ws, delta) && j < |ws|
    ensures ws[j].start >= ws[0].start + j as real * WINDOW && ws[0].start >= start
  {
    assert StoryAt(log, start, free, ws, j, delta);
    if j > 0 {
      StartsApart(log, start, lag, free, ws, delta, j - 1);
      assert j as real == (j - 1) as real + 1.0;
    }
    hide Explains;
    hide Joins;
    hide Span;
  }

  lemma {:induction false} UsedAtMost(ws: seq<Window>, cap: nat)
    requires forall j :: 0 <= j < |ws| ==> ws[j].used <= cap
    ensures TotalUsed(ws) <= |ws| * cap
  {
    if ws != [] {
      UsedAtMost(ws[..|ws| - 1], cap);
      assert |ws| * cap == (|ws| - 1) * cap + cap;
    }
  }

  lemma {:induction false} WindowOf(ws: seq<Window>, k: nat) returns (j: nat)
    requires k < TotalUsed(ws)
    ensures j < |ws| && TotalUsed(ws[..j]) <= k < TotalUsed(ws[..j]) + ws[j].used
  {
    var m := |ws| - 1;
    if k >= TotalUsed(ws[..m]) {
      j := m;
    } else {
      j := WindowOf(ws[..m], k);
      assert ws[..m][..j] == ws[..j];
    }
  }

  /** Each request is dequeued no earlier than the deadline of the one before. */
  ghost predicate Waits(log: seq<Entry>) {
    && (forall k :: 0 <= k < |log| ==> log[k].expire >= log[k].now)
    && forall k :: 0 <= k < |log| - 1 ==> log[k].expire <= log[k + 1].now
  }

  lemma {:induction false} WaitsLonger(log: seq<Entry>, i: nat, k: nat)
    requires Waits(log) && i < k < |log|
    ensures log[i].expire <= log[k].now
  {
    if i < k - 1 { WaitsLonger(log, i, k - 1); }
  }

  /** Since the RNIC waits out each deadline, no request of a window completes before the
      window starts. */
  lemma DeadlineInWindow(log: seq<Entry>, start: real, lag: real, free: nat, ws: seq<Window>, delta: real,
                         j: nat, k: nat)
    requires Explains(log, start, lag, free, ws, delta) && Waits(log) && j < |ws| && k < |log|
    requires free + TotalUsed(ws[..j]) <= k < free + TotalUsed(ws[..j]) + ws[j].used
    ensures log[k].expire >= ws[j].start
  {
    assert StoryAt(log, start, free, ws, j, delta);
    var first := free + TotalUsed(ws[..j]);
    if first < k { WaitsLonger(log, first, k); }
    hide Explains;
    hide Joins;
    hide Span;
  }

  /** The rate: after the free requests, request number k completes no earlier than one
      millisecond after the first window's start for every `Most` requests before it. */
  lemma RateBound(log: seq<Entry>, start: real, lag: real, free: nat, ws: seq<Window>, delta: real, k: nat)
    requires delta > 0.0 && Explains(log, start, lag, free, ws, delta) && Waits(log) && free <= k < |log|
    ensures ws != [] && ws[0].start >= start
    ensures log[k].expire >= ws[0].start + ((k - free) / Most(delta, false)) as real * WINDOW
  {
    ExplainsLength(log, start, lag, free, ws, delta);
    var cap := Most(delta, false);
    var j := WindowOf(ws, k - free);
    forall i | 0 <= i < |ws| ensures ws[i].used <= cap {
      assert StoryAt(log, start, free, ws, i, delta);
      FitsMost(ws[i], delta);
    }
    DeadlineInWindow(log, start, lag, free, ws, delta, j, k);
    StartsApart(log, start, lag, free, ws, delta, j);
    hide *;
    WindowNumber(ws, j, k - free, cap);
  }

  lemma WindowNumber(ws: seq<Window>, j: nat, k: nat, cap: nat)
    requires cap > 0 && j < |ws| && k < TotalUsed(ws[..j]) + ws[j].used
    requires forall i :: 0 <= i < |ws| ==> ws[i].used <= cap
    ensures (k / cap) as real * WINDOW <= j as real * WINDOW
  {
    UsedAtMost(ws[..j], cap);
    QuotientAtMost(k, j, cap);
    hide *;
    WindowsApart(k / cap, j);
  }

  lemma QuotientAtMost(k: nat, j: nat, cap: nat)
    requires cap > 0 && k < j * cap + cap
    ensures k / cap <= j
  {
    PartsOf(k, cap);
    AtNext(j, cap);
    AtBefore(j + 1, k / cap, cap);
    hide At;
  }

  lemma WindowsApart(i: nat, j: nat)
    requires i <= j
    ensures i as real * WINDOW <= j as real * WINDOW
  {
  }

  /** One sweep: where its requests and windows lie in time, and the lag it starts and
      ends with. */
  ghost predicate SweepOk(log: seq<Entry>, readings: seq<real>, lag: real, lag': real, delta: real)
    requires readings != []
  {
    && (forall k :: 0 <= k < |log| ==> log[k].now in readings)
    && Waits(log)
    && (delta > 0.0 ==> Limited(log, readings[0], lag, delta))
    && lag' == if log == [] then lag else log[|log| - 1].lag
  }

  lemma NoRun(links: seq<Link>, delta: real)
    requires |links| == 1
    ensures RunOk([], links, delta) && Waits([])
  {
  }

  lemma SweepIs(log: seq<Entry>, links: seq<Link>, readings: seq<real>, lag: real, delta: real)
    requires readings != [] && RunOk(log, links, delta) && Waits(log) && links[0].lag == lag
    requires forall k :: 0 <= k < |log| ==> log[k].now in readings
    requires delta > 0.0 ==> Limited(log, readings[0], lag, delta)
    ensures SweepOk(log, readings, lag, links[|log|].lag, delta)
    ensures forall k :: 0 <= k < |log| ==> Punctual(log[k])
  {
    hide Limited;
    if log != [] { assert LogOk(log, links, delta, |log| - 1); }
  }

  /** The fields of `struct nic` and the global `lag`, which outlives the sweeps. */
  class Rnic {
    var ntime: real
    var stime: real
    var lag: real

    function View(): Link
      reads this
    {
      Link(ntime, stime, lag)
    }

    constructor ()
      ensures View() == Link(0.0, 0.0, 0.0)
    {
      ntime, stime, lag := 0.0, 0.0, 0.0;
    }

    /** The link arithmetic for one request dequeued at `now`. */
    method AdmitRequest(now: real, delta: real) returns (expireTime: real)
      modifies this
      ensures View() == Admit(old(View()), now, delta)
      ensures expireTime == now + Hold(old(View()), now, delta)
    {
      var reqStime := now;
      expireTime := now;
      if ntime < reqStime {
        lag := 0.0;
        stime := reqStime;
        ntime := stime + 1000000.0;
      } else if ntime < stime + delta {
        lag := ntime - reqStime;
        stime := ntime;
        ntime := stime + 1000000.0;
        expireTime := expireTime + lag;
        stime := stime + delta;
      } else if reqStime < ntime && lag > 0.0 {
        expireTime := expireTime + lag;
      }
      stime := stime + delta;
    }

    /** Read the clock until it reaches the deadline; `held` is false if the
        readings run out first. */
    method BusyWait(readings: seq<real>, used: nat, expireTime: real) returns (used': nat, held: bool)
      requires used <= |readings|
      ensures used <= used' <= |readings|
      ensures held ==> used < used' && readings[used' - 1] >= expireTime
      ensures held ==> forall i :: used <= i < used' - 1 ==> readings[i] < expireTime
      ensures !held ==> used' == |readings| && forall i :: used <= i < used' ==> readings[i] < expireTime
    {
      used', held := used, false;
      while used' < |readings|
        invariant used <= used' <= |readings|
        invariant forall i :: used <= i < used' ==> readings[i] < expireTime
      {
        used' := used' + 1;
        if readings[used' - 1] >= expireTime {
          return used', true;
        }
      }
    }

    /** `rnic_thread` for one sweep on a zeroed `struct nic`.  It stops early only
        when the clock readings run out. */
    method RnicThread(readings: seq<real>, numReaders: nat, delta: real)
      returns (log: seq<Entry>, links: seq<Link>, used: nat)
      requires Ascending(readings) && readings != []
      requires ntime == 0.0 && stime == 0.0 && 0.0 <= lag <= WINDOW
      modifies this
      ensures 0.0 <= lag <= WINDOW
      ensures 0 < used <= |readings| && |log| <= numReaders && (used < |readings| ==> |log| == numReaders)
      ensures forall k :: 0 <= k < |log| ==> log[k].now in readings
      ensures RunOk(log, links, delta) && Waits(log)
      ensures links[0] == Link(readings[0], 0.0, old(lag)) && links[|log|] == View()
      ensures delta > 0.0 ==> Limited(log, readings[0], old(lag), delta)
    {
      hide LogOk;
      hide RunOk;
      hide Limited;
      ntime := readings[0];
      used := 1;
      log, links := [], [View()];
      NoRun(links, delta);
      while |log| < numReaders && used < |readings|
        invariant 0 < used <= |readings| && |log| <= numReaders
        invariant RunOk(log, links, delta) && Waits(log) && |links| == |log| + 1
        invariant links[0] == Link(readings[0], 0.0, old(lag)) && links[|log|] == View()
        invariant 0.0 <= lag <= WINDOW
        invariant used < |readings| ==> Bounded(View(), readings[used - 1])
        invariant log != [] && used < |readings| ==> log[|log| - 1].expire <= readings[used - 1]
        invariant forall k :: 0 <= k < |log| ==> log[k].now in readings && log[k].now >= readings[0]
        decreases |readings| - used
      {
        ghost var clock := readings[used - 1];
        var now := readings[used];
        ghost var before := View();
        var expireTime := AdmitRequest(now, delta);
        AdmitKeepsBound(before, clock, now, delta, expireTime);
        RunGrows(log, links, Entry(now, lag, expireTime), View(), delta);
        hide Hold;
        hide Admit;
        log := log + [Entry(now, lag, expireTime)];
        links := links + [View()];
        var held;
        used, held := BusyWait(readings, used + 1, expireTime);
        if held {
          AdmitKeepsBound(before, clock, now, delta, readings[used - 1]);
        }
      }
      if delta > 0.0 {
        RunIsLimited(log, links, delta);
      }
    }

    /** Sweep after sweep, each on a fresh `struct nic`.  The lag with which one sweep ends
        is the one the next starts with; every sweep has its windows and waits out its
        deadlines, and the carried lag and every delay stay within a millisecond. */
    method Sweeps(clocks: seq<seq<real>>, numReaders: nat, delta: real)
      returns (logs: seq<seq<Entry>>, ghost lags: seq<real>)
      requires 0.0 <= lag <= WINDOW
      requires forall i :: 0 <= i < |clocks| ==> clocks[i] != [] && Ascending(clocks[i])
      modifies this
      ensures |logs| == |clocks| && |lags| == |clocks| + 1 && lags[0] == old(lag) && lags[|clocks|] == lag
      ensures forall i :: 0 <= i < |lags| ==> 0.0 <= lags[i] <= WINDOW
      ensures forall i, k :: 0 <= i < |logs| && 0 <= k < |logs[i]| ==> Punctual(logs[i][k])
      ensures forall i :: 0 <= i < |logs| ==> SweepOk(logs[i], clocks[i], lags[i], lags[i + 1], delta)
    {
      hide SweepOk;
      hide RunOk;
      logs, lags := [], [lag];
      for i := 0 to |clocks|
        invariant |logs| == i && |lags| == i + 1 && lags[0] == old(lag) && lags[i] == lag
        invariant forall j :: 0 <= j <= i ==> 0.0 <= lags[j] <= WINDOW
        invariant forall j, k :: 0 <= j < i && 0 <= k < |logs[j]| ==> Punctual(logs[j][k])
        invariant forall j :: 0 <= j < i ==> SweepOk(logs[j], clocks[j], lags[j], lags[j + 1], delta)
      {
        ntime, stime := 0.0, 0.0;
        var log, links, _ := RnicThread(clocks[i], numReaders, delta);
        SweepIs(log, links, clocks[i], lags[i], delta);
        logs, lags := logs + [log], lags + [lag];
      }
    }
  }
}
