/**
 The serialized link of the RNIC thread: requests are booked back to back on one
 timeline.  Times are reals in nanoseconds.
 */
module LinkTimeline {

  /** `ntime` is when the link is next free (0 until it has carried anything),
      `stime` when the latest transfer starts, `lag` the idle gap before it. */
  datatype Link = Link(ntime: real, stime: real, lag: real)

  const FRESH := Link(0.0, 0.0, 0.0)

  /** Book a request that arrives at `now` and occupies the link for `service`. */
  function Book(l: Link, now: real, service: real): Link {
    var free := if l.ntime == 0.0 then now else l.ntime;
    var lag := if now > free then now - free else 0.0;
    var start := if now > free then now else free;
    Link(start + service, start, lag)
  }

  /** The link after all requests in `nows` have been booked in order. */
  function Run(nows: seq<real>, service: real): Link {
    if nows == [] then FRESH
    else Book(Run(nows[..|nows| - 1], service), nows[|nows| - 1], service)
  }

  /** What the source assumes of its clock and its configuration. */
  predicate Stamps(nows: seq<real>, service: real) {
    service > 0.0 && forall i :: 0 <= i < |nows| ==> nows[i] >= 0.0
  }

  /** The completion time if request `j` starts a busy period that lasts until
      request `k`. */
  function BusySince(nows: seq<real>, service: real, j: nat, k: nat): real
    requires j <= k < |nows|
  {
    nows[j] + (k - j + 1) as real * service
  }

  /** `c` is the latest of the completion times over all possible starts of the
      busy period that ends with request `k`. */
  ghost predicate IsCompletion(nows: seq<real>, service: real, k: nat, c: real)
    requires k < |nows|
  {
    && (forall j :: 0 <= j <= k ==> BusySince(nows, service, j, k) <= c)
    && exists j :: 0 <= j <= k && BusySince(nows, service, j, k) == c
  }

  lemma {:induction false} BusyGrows(nows: seq<real>, service: real, j: nat, k: nat)
    requires j <= k && k + 1 < |nows|
    ensures BusySince(nows, service, j, k + 1) == BusySince(nows, service, j, k) + service
  {
    assert (k + 1 - j + 1) as real == (k - j + 1) as real + 1.0;
  }

  /** The timeline never returns to the sentinel value: it is positive after the
      first request, so the sentinel branch is taken once. */
  lemma {:induction false} SentinelOnce(nows: seq<real>, service: real)
    requires Stamps(nows, service) && nows != []
    ensures Run(nows, service).ntime > 0.0
  {
    if |nows| > 1 {
      SentinelOnce(nows[..|nows| - 1], service);
    }
  }

  /** Closed form: the k-th completion is the maximum over all j of
      `now_j + (k - j + 1) * service`. */
  lemma {:induction false} CompletionClosedForm(nows: seq<real>, service: real)
    requires Stamps(nows, service) && nows != []
    ensures IsCompletion(nows, service, |nows| - 1, Run(nows, service).ntime)
  {
    var k := |nows| - 1;
    var init := nows[..k];
    var c := Run(nows, service).ntime;
    assert BusySince(nows, service, k, k) == nows[k] + service;
    if k > 0 {
      CompletionClosedForm(init, service);
      SentinelOnce(init, service);
      var p := Run(init, service).ntime;
      forall j | 0 <= j < k
        ensures BusySince(nows, service, j, k) == BusySince(init, service, j, k - 1) + service
      {
        BusyGrows(nows, service, j, k - 1);
      }
      var j :| 0 <= j <= k - 1 && BusySince(init, service, j, k - 1) == p;
      assert BusySince(nows, service, j, k) == p + service;
    }
  }

  /** Transfers never overlap and never start before their request arrives. */
  lemma TransfersDisjoint(nows: seq<real>, service: real, now: real)
    requires Stamps(nows + [now], service)
    ensures var (before, after) := (Run(nows, service), Run(nows + [now], service));
            && after.stime >= now
            && after.ntime == after.stime + service
            && (nows != [] ==> after.stime == before.ntime + after.lag && after.lag >= 0.0)
            && (nows == [] ==> after.stime == now && after.lag == 0.0)
  {
    assert (nows + [now])[..|nows|] == nows;
    if nows != [] {
      assert Stamps(nows, service) by {
        forall i | 0 <= i < |nows| ensures nows[i] >= 0.0 { assert (nows + [now])[i] >= 0.0; }
      }
      SentinelOnce(nows, service);
    }
  }

  /** The total idle time on the link. */
  function TotalLag(nows: seq<real>, service: real): real {
    if nows == [] then 0.0
    else TotalLag(nows[..|nows| - 1], service) + Run(nows, service).lag
  }

  /** Time is conserved: the link is free again after the first arrival plus all
      idle gaps plus one service time per request. */
  lemma {:induction false} TimeConserved(nows: seq<real>, service: real)
    requires Stamps(nows, service) && nows != []
    ensures Run(nows, service).ntime == nows[0] + TotalLag(nows, service) + |nows| as real * service
  {
    var k := |nows| - 1;
    if k > 0 {
      var init := nows[..k];
      TimeConserved(init, service);
      SentinelOnce(init, service);
      assert |nows| as real == |init| as real + 1.0;
    } else {
      assert nows[..0] == [];
    }
  }

  /** After n requests the link is busy at least until the first arrival plus n
      service times. */
  lemma {:induction false} FullServiceTime(nows: seq<real>, service: real)
    requires Stamps(nows, service) && nows != []
    ensures Run(nows, service).ntime >= nows[0] + |nows| as real * service
  {
    CompletionClosedForm(nows, service);
    assert BusySince(nows, service, 0, |nows| - 1) <= Run(nows, service).ntime;
  }

  /** The link state that outlives one request: the fields of `struct nic` and the
      global `lag`. */
  class Nic {
    var ntime: real
    var stime: real
    var lag: real

    function View(): Link
      reads this
    {
      Link(ntime, stime, lag)
    }

    /** A zeroed `struct nic`. */
    constructor ()
      ensures View() == FRESH
    {
      ntime, stime, lag := 0.0, 0.0, 0.0;
    }

    /** The per-request part of the RNIC loop. */
    method BookRequest(now: real, service: real) returns (expire: real)
      modifies this
      ensures View() == Book(old(View()), now, service) && expire == ntime
    {
      if ntime == 0.0 {
        ntime := now;
      }
      if now > ntime {
        lag := now - ntime;
        ntime := now;
      } else {
        lag := 0.0;
      }
      stime := ntime;
      ntime := ntime + service;
      expire := ntime;
    }

    /** The RNIC loop over the requests it dequeues, whose clock readings are
        `nows`: every deadline it stamps is the closed form. */
    method Serve(nows: seq<real>, service: real) returns (expires: seq<real>)
      requires View() == FRESH && Stamps(nows, service)
      modifies this
      ensures View() == Run(nows, service)
      ensures |expires| == |nows|
      ensures forall k :: 0 <= k < |nows| ==> IsCompletion(nows, service, k, expires[k])
    {
      expires := [];
      var done := 0;
      while done < |nows|
        invariant 0 <= done <= |nows| && |expires| == done
        invariant View() == Run(nows[..done], service)
        invariant forall k :: 0 <= k < done ==> expires[k] == Run(nows[..k + 1], service).ntime
      {
        var expire := BookRequest(nows[done], service);
        expires := expires + [expire];
        assert nows[..done + 1][..done] == nows[..done];
        done := done + 1;
      }
      assert nows[..done] == nows;
      forall k | 0 <= k < |nows| ensures IsCompletion(nows, service, k, expires[k]) {
        CompletionClosedForm(nows[..k + 1], service);
        PrefixCompletion(nows, service, k, expires[k]);
      }
    }
  }

  lemma PrefixCompletion(nows: seq<real>, service: real, k: nat, c: real)
    requires k < |nows| && IsCompletion(nows[..k + 1], service, k, c)
    ensures IsCompletion(nows, service, k, c)
  {
    var p := nows[..k + 1];
    forall j | 0 <= j <= k ensures BusySince(nows, service, j, k) == BusySince(p, service, j, k) {}
    var j :| 0 <= j <= k && BusySince(p, service, j, k) == c;
    assert BusySince(nows, service, j, k) == c;
  }
}
