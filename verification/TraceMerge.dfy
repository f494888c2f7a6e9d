/**
 The compaction of memory traces in `saveTrace`: pairs of adjacent 32-byte accesses
 become one 64-byte access, the buffers of all threads are joined, sorted by timestamp
 and cut to a million entries.
 */
module TraceMerge {
  import opened Word64

  const LIMIT: nat := 1_000_000

  datatype Entry = Entry(timestamp: nat, address: nat, size: nat, kind: nat)

  /** What an entry says about memory. */
  datatype Access = Access(address: nat, size: nat, kind: nat)

  function AccessOf(e: Entry): Access {
    Access(e.address, e.size, e.kind)
  }

  // ----- Merging one buffer -------------------------------------------------------

  predicate Mergeable(a: Entry, b: Entry) {
    a.size == 32 && b.size == 32 && a.kind == b.kind && b.address == Add64(a.address, 32)
  }

  predicate MergesAt(buf: seq<Entry>, i: nat) {
    i + 1 < |buf| && Mergeable(buf[i], buf[i + 1])
  }

  /** The processed buffer, from entry `i` on. */
  function Merged(buf: seq<Entry>, i: nat): seq<Entry>
    decreases |buf| - i
  {
    if i >= |buf| then []
    else if MergesAt(buf, i) then [buf[i].(size := 64)] + Merged(buf, i + 2)
    else [buf[i]] + Merged(buf, i + 1)
  }

  method MergeBuffer(buf: seq<Entry>) returns (processed: seq<Entry>)
    ensures processed == Merged(buf, 0)
  {
    processed := [];
    var i := 0;
    while i < |buf|
      invariant processed + Merged(buf, i) == Merged(buf, 0)
      decreases |buf| - i
    {
      if MergesAt(buf, i) {
        processed := processed + [buf[i].(size := 64)];
        i := i + 1;
      } else {
        processed := processed + [buf[i]];
      }
      i := i + 1;
    }
  }

  /** Which processed entries stand for two accesses. */
  function Marks(buf: seq<Entry>, i: nat): seq<bool>
    decreases |buf| - i
  {
    if i >= |buf| then []
    else if MergesAt(buf, i) then [true] + Marks(buf, i + 2)
    else [false] + Marks(buf, i + 1)
  }

  lemma MergedStep(buf: seq<Entry>, i: nat)
    requires i < |buf|
    ensures MergesAt(buf, i) ==>
              && Merged(buf, i) == [buf[i].(size := 64)] + Merged(buf, i + 2)
              && Marks(buf, i) == [true] + Marks(buf, i + 2)
    ensures !MergesAt(buf, i) ==>
              && Merged(buf, i) == [buf[i]] + Merged(buf, i + 1)
              && Marks(buf, i) == [false] + Marks(buf, i + 1)
  {
    hide MergesAt;
  }

  lemma {:induction false} OneMarkEach(buf: seq<Entry>, i: nat)
    ensures |Marks(buf, i)| == |Merged(buf, i)|
    decreases |buf| - i
  {
    if i < |buf| { OneMarkEach(buf, if MergesAt(buf, i) then i + 2 else i + 1); }
  }

  /** The accesses of a buffer, with the marked entries split in two. */
  function Split(entries: seq<Entry>, marks: seq<bool>): seq<Access>
    requires |entries| == |marks|
  {
    if entries == [] then [] else
      var e := entries[0];
      (if marks[0] then [Access(e.address, 32, e.kind), Access(Add64(e.address, 32), 32, e.kind)] else [AccessOf(e)])
      + Split(entries[1..], marks[1..])
  }

  function Accesses(entries: seq<Entry>): seq<Access> {
    if entries == [] then [] else [AccessOf(entries[0])] + Accesses(entries[1..])
  }

  lemma SplitFirst(e: Entry, rest: seq<Entry>, mark: bool, marks: seq<bool>)
    requires |rest| == |marks|
    ensures Split([e] + rest, [mark] + marks) ==
              (if mark then [Access(e.address, 32, e.kind), Access(Add64(e.address, 32), 32, e.kind)]
               else [AccessOf(e)]) + Split(rest, marks)
  {
    assert ([e] + rest)[1..] == rest && ([mark] + marks)[1..] == marks;
  }

  lemma DropNext(buf: seq<Entry>, i: nat)
    requires i < |buf|
    ensures buf[i..][0] == buf[i] && buf[i..][1..] == buf[i + 1..]
    ensures Accesses(buf[i..]) == [AccessOf(buf[i])] + Accesses(buf[i + 1..])
  {
  }

  /** Merging loses nothing: splitting the merged entries gives back every access of the
      thread, in order. */
  lemma {:induction false} MergeIsLossless(buf: seq<Entry>, i: nat)
    requires i <= |buf|
    ensures |Marks(buf, i)| == |Merged(buf, i)|
    ensures Split(Merged(buf, i), Marks(buf, i)) == Accesses(buf[i..])
    decreases |buf| - i
  {
    OneMarkEach(buf, i);
    if i < |buf| {
      hide Split;
      hide Accesses;
      DropNext(buf, i);
      if MergesAt(buf, i) {
        DropNext(buf, i + 1);
        MergeIsLossless(buf, i + 2);
        SplitFirst(buf[i].(size := 64), Merged(buf, i + 2), true, Marks(buf, i + 2));
      } else {
        MergeIsLossless(buf, i + 1);
        SplitFirst(buf[i], Merged(buf, i + 1), false, Marks(buf, i + 1));
      }
    }
  }

  /** A processed entry has the timestamp, address and kind of one recorded access: for a
      merged pair, of its first. */
  lemma {:induction false} EntryIsRecorded(buf: seq<Entry>, i: nat, k: nat) returns (j: nat)
    requires k < |Merged(buf, i)|
    ensures i <= j < |buf|
    ensures Merged(buf, i)[k] == buf[j] || (MergesAt(buf, j) && Merged(buf, i)[k] == buf[j].(size := 64))
    decreases |buf| - i
  {
    if k == 0 {
      j := i;
    } else {
      j := EntryIsRecorded(buf, if MergesAt(buf, i) then i + 2 else i + 1, k - 1);
    }
  }

  /** When no recorded access is 64 bytes long, the merged entries are the 64-byte ones. */
  lemma {:induction false} MarksAreSizes(buf: seq<Entry>, i: nat)
    requires forall k :: 0 <= k < |buf| ==> buf[k].size != 64
    ensures |Marks(buf, i)| == |Merged(buf, i)|
    ensures forall k :: 0 <= k < |Merged(buf, i)| ==> (Marks(buf, i)[k] <==> Merged(buf, i)[k].size == 64)
    decreases |buf| - i
  {
    if i < |buf| {
      MergedStep(buf, i);
      hide MergesAt;
      hide Merged;
      hide Marks;
      MarksAreSizes(buf, if MergesAt(buf, i) then i + 2 else i + 1);
    }
  }

  function Bytes(entries: seq<Entry>): nat {
    if entries == [] then 0 else entries[0].size + Bytes(entries[1..])
  }

  lemma BytesFirst(e: Entry, rest: seq<Entry>)
    ensures Bytes([e] + rest) == e.size + Bytes(rest)
  {
    assert ([e] + rest)[1..] == rest;
  }

  /** Merging conserves the bytes accessed. */
  lemma {:induction false} MergeKeepsBytes(buf: seq<Entry>, i: nat)
    requires i <= |buf|
    ensures Bytes(Merged(buf, i)) == Bytes(buf[i..])
    decreases |buf| - i
  {
    if i < |buf| {
      hide Bytes;
      BytesFirst(buf[i], buf[i + 1..]);
      assert buf[i..] == [buf[i]] + buf[i + 1..];
      if MergesAt(buf, i) {
        MergeKeepsBytes(buf, i + 2);
        BytesFirst(buf[i].(size := 64), Merged(buf, i + 2));
        BytesFirst(buf[i + 1], buf[i + 2..]);
        assert buf[i + 1..] == [buf[i + 1]] + buf[i + 2..];
      } else {
        MergeKeepsBytes(buf, i + 1);
        BytesFirst(buf[i], Merged(buf, i + 1));
      }
    } else {
      assert buf[i..] == [];
    }
  }

  /** The first processed entry is the next recorded one, unless that was merged. */
  lemma FirstMerged(buf: seq<Entry>, i: nat)
    requires i < |buf|
    ensures Merged(buf, i) != []
    ensures Merged(buf, i)[0] == if MergesAt(buf, i) then buf[i].(size := 64) else buf[i]
  {
  }

  lemma {:induction false} NoneMergesAt(buf: seq<Entry>, i: nat, k: nat)
    ensures !MergesAt(Merged(buf, i), k)
    decreases |buf| - i
  {
    if i < |buf| {
      hide Add64;
      var next := if MergesAt(buf, i) then i + 2 else i + 1;
      if k > 0 {
        NoneMergesAt(buf, next, k - 1);
        assert MergesAt(Merged(buf, i), k) ==> MergesAt(Merged(buf, next), k - 1);
      } else if next < |buf| {
        FirstMerged(buf, next);
      }
    }
  }

  /** No two neighbours of a processed buffer are 32-byte accesses of the same kind to
      adjacent addresses, read or write, also across the end of the address space. */
  lemma MergeIsIrreducible(buf: seq<Entry>, k: nat)
    requires k + 1 < |Merged(buf, 0)|
    ensures var x, y := Merged(buf, 0)[k], Merged(buf, 0)[k + 1];
            !(x.size == 32 && y.size == 32 && x.kind == y.kind
              && y.address == (x.address + 32) % 0x1_0000_0000_0000_0000)
  {
    NoneMergesAt(buf, 0, k);
  }

  lemma {:induction false} NothingToMerge(buf: seq<Entry>, i: nat)
    requires i <= |buf| && forall k: nat :: !MergesAt(buf, k)
    ensures Merged(buf, i) == buf[i..]
    decreases |buf| - i
  {
    hide MergesAt;
    if i < |buf| {
      NothingToMerge(buf, i + 1);
      assert buf[i..] == [buf[i]] + buf[i + 1..];
    }
  }

  /** Merging a processed buffer again changes nothing. */
  lemma MergeTwice(buf: seq<Entry>)
    ensures Merged(Merged(buf, 0), 0) == Merged(buf, 0)
  {
    var once := Merged(buf, 0);
    forall k: nat ensures !MergesAt(once, k) { NoneMergesAt(buf, 0, k); }
    NothingToMerge(once, 0);
    assert once[0..] == once;
  }

  // ----- Which pairs are merged ---------------------------------------------------

  /** Entries `k` and `k + 1` are 32-byte accesses of the same kind, side by side. */
  predicate SideBySide(buf: seq<Entry>, k: nat) {
    && k + 1 < |buf|
    && buf[k].size == 32 && buf[k + 1].size == 32
    && buf[k].kind == buf[k + 1].kind
    && buf[k + 1].address == (buf[k].address + 32) % 0x1_0000_0000_0000_0000
  }

  /** Entries `[i, e)` lie side by side, and neither neighbour continues the run. */
  ghost predicate MaximalRun(buf: seq<Entry>, i: nat, e: nat) {
    && i < e <= |buf|
    && (forall k: nat :: i <= k < e - 1 ==> SideBySide(buf, k))
    && !SideBySide(buf, e - 1)
    && (i > 0 ==> !SideBySide(buf, i - 1))
  }

  /** The entries `[i, e)` in pairs from the left, each pair as one 64-byte entry, and a
      last single one as it is. */
  function InPairs(buf: seq<Entry>, i: nat, e: nat): (r: seq<Entry>)
    requires i <= e <= |buf|
    ensures |r| == (e - i + 1) / 2
    ensures forall q :: 0 <= q < (e - i) / 2 ==> r[q] == buf[i + 2 * q].(size := 64)
    ensures (e - i) % 2 == 1 ==> r[|r| - 1] == buf[e - 1]
    decreases e - i
  {
    if e - i >= 2 then [buf[i].(size := 64)] + InPairs(buf, i + 2, e) else buf[i..e]
  }

  lemma MergesSideBySide(buf: seq<Entry>, k: nat)
    ensures MergesAt(buf, k) <==> SideBySide(buf, k)
  {
  }

  lemma PairsStep(buf: seq<Entry>, i: nat, e: nat)
    requires i < e <= |buf|
    ensures e - i == 1 ==> InPairs(buf, i, e) == [buf[i]]
    ensures e - i == 2 ==> InPairs(buf, i, e) == [buf[i].(size := 64)]
    ensures e - i > 2 ==> InPairs(buf, i, e) == [buf[i].(size := 64)] + InPairs(buf, i + 2, e)
  {
    if e - i == 2 { assert InPairs(buf, i + 2, e) == []; }
  }

  lemma {:induction false} RunInPairs(buf: seq<Entry>, i: nat, e: nat)
    requires i < e <= |buf| && !SideBySide(buf, e - 1)
    requires forall k: nat :: i <= k < e - 1 ==> SideBySide(buf, k)
    ensures Merged(buf, i) == InPairs(buf, i, e) + Merged(buf, e)
    decreases e - i
  {
    hide SideBySide;
    MergesSideBySide(buf, i);
    MergedStep(buf, i);
    hide MergesAt;
    hide Merged;
    PairsStep(buf, i, e);
    hide InPairs;
    if e - i > 2 {
      RunInPairs(buf, i + 2, e);
      Regroup([buf[i].(size := 64)], InPairs(buf, i + 2, e), Merged(buf, e));
    }
  }

  lemma Regroup(a: seq<Entry>, b: seq<Entry>, c: seq<Entry>)
    ensures (a + b) + c == a + (b + c)
  {
  }

  /** Processing from `i` on gets to every entry that the one before does not run on to. */
  lemma {:induction false} MergedFrom(buf: seq<Entry>, i: nat, j: nat) returns (done: seq<Entry>)
    requires i <= j <= |buf| && (j > 0 ==> !SideBySide(buf, j - 1))
    ensures Merged(buf, i) == done + Merged(buf, j)
    decreases j - i
  {
    hide SideBySide;
    if i == j {
      done := [];
    } else {
      MergesSideBySide(buf, i);
      MergedStep(buf, i);
      hide MergesAt;
      hide Merged;
      var next := if MergesAt(buf, i) then i + 2 else i + 1;
      var first := [if MergesAt(buf, i) then buf[i].(size := 64) else buf[i]];
      var rest := MergedFrom(buf, next, j);
      done := first + rest;
      Regroup(first, rest, Merged(buf, j));
    }
  }

  /** In every maximal run of adjacent accesses exactly the first, third, fifth and so on
      are merged with their successors; a single one is left over, at the end, exactly
      when the run is odd.  What comes before and after does not matter. */
  lemma RunsAreMerged(buf: seq<Entry>, i: nat, e: nat) returns (before: seq<Entry>)
    requires MaximalRun(buf, i, e)
    ensures Merged(buf, 0) == before + InPairs(buf, i, e) + Merged(buf, e)
  {
    before := MergedFrom(buf, 0, i);
    RunInPairs(buf, i, e);
    hide Merged;
    hide InPairs;
    Regroup(before, InPairs(buf, i, e), Merged(buf, e));
  }

  /** Where the maximal run that starts at `i` ends. */
  function RunEnd(buf: seq<Entry>, i: nat): (e: nat)
    requires i < |buf|
    ensures i < e <= |buf|
    ensures !SideBySide(buf, e - 1) && forall k: nat :: i <= k < e - 1 ==> SideBySide(buf, k)
    decreases |buf| - i
  {
    if SideBySide(buf, i) then RunEnd(buf, i + 1) else i + 1
  }

  /** The maximal runs of a buffer, one after the other, each in pairs. */
  function RunByRun(buf: seq<Entry>, i: nat): seq<Entry>
    requires i <= |buf|
    decreases |buf| - i
  {
    if i == |buf| then [] else InPairs(buf, i, RunEnd(buf, i)) + RunByRun(buf, RunEnd(buf, i))
  }

  /** The greedy loop pairs up every maximal run from its left end. */
  lemma {:induction false} MergedRunByRun(buf: seq<Entry>, i: nat)
    requires i <= |buf|
    ensures Merged(buf, i) == RunByRun(buf, i)
    decreases |buf| - i
  {
    hide SideBySide;
    hide InPairs;
    if i < |buf| {
      RunInPairs(buf, i, RunEnd(buf, i));
      MergedRunByRun(buf, RunEnd(buf, i));
    }
  }

  // ----- Joining the buffers ------------------------------------------------------

  /** The processed buffers of the first `n` threads, one after the other. */
  function Joined(buffers: seq<seq<Entry>>, n: nat): seq<Entry>
    requires n <= |buffers|
  {
    if n == 0 then [] else Joined(buffers, n - 1) + Merged(buffers[n - 1], 0)
  }

  method Join(buffers: seq<seq<Entry>>) returns (merged: seq<Entry>)
    ensures merged == Joined(buffers, |buffers|)
  {
    var processed: seq<seq<Entry>> := [];
    for t := 0 to |buffers|
      invariant |processed| == t
      invariant forall k :: 0 <= k < t ==> processed[k] == Merged(buffers[k], 0)
    {
      var p := MergeBuffer(buffers[t]);
      processed := processed + [p];
    }
    merged := [];
    for t := 0 to |processed|
      invariant merged == Joined(buffers, t)
    {
      merged := merged + processed[t];
    }
  }

  lemma SliceKept(a: seq<Entry>, b: seq<Entry>, lo: nat, hi: nat)
    requires lo <= hi <= |a|
    ensures (a + b)[lo..hi] == a[lo..hi]
  {
  }

  /** Each processed buffer is there in full, after those of the threads before it. */
  lemma {:induction false} JoinedAt(buffers: seq<seq<Entry>>, n: nat, t: nat)
    requires t < n <= |buffers|
    ensures var lo, own := |Joined(buffers, t)|, Merged(buffers[t], 0);
            lo + |own| <= |Joined(buffers, n)| && Joined(buffers, n)[lo..lo + |own|] == own
    ensures n == t + 1 ==> |Joined(buffers, n)| == |Joined(buffers, t)| + |Merged(buffers[t], 0)|
  {
    hide Merged;
    if t < n - 1 {
      JoinedAt(buffers, n - 1, t);
      var lo := |Joined(buffers, t)|;
      SliceKept(Joined(buffers, n - 1), Merged(buffers[n - 1], 0), lo, lo + |Merged(buffers[t], 0)|);
    }
  }

  lemma {:induction false} BytesJoin(a: seq<Entry>, b: seq<Entry>)
    ensures Bytes(a + b) == Bytes(a) + Bytes(b)
  {
    if a == [] {
      assert a + b == b;
    } else {
      assert (a + b)[1..] == a[1..] + b;
      BytesJoin(a[1..], b);
    }
  }

  function RecordedBytes(buffers: seq<seq<Entry>>, n: nat): nat
    requires n <= |buffers|
  {
    if n == 0 then 0 else RecordedBytes(buffers, n - 1) + Bytes(buffers[n - 1])
  }

  lemma {:induction false} JoinKeepsBytes(buffers: seq<seq<Entry>>, n: nat)
    requires n <= |buffers|
    ensures Bytes(Joined(buffers, n)) == RecordedBytes(buffers, n)
  {
    if n > 0 {
      JoinKeepsBytes(buffers, n - 1);
      BytesJoin(Joined(buffers, n - 1), Merged(buffers[n - 1], 0));
      MergeKeepsBytes(buffers[n - 1], 0);
      assert buffers[n - 1][0..] == buffers[n - 1];
    }
  }

  // ----- Sorting and cutting ------------------------------------------------------

  /** What a sort by timestamp may return. */
  ghost predicate Sorts(entries: seq<Entry>, sorted: seq<Entry>) {
    && multiset(entries) == multiset(sorted)
    && forall j, k :: 0 <= j < k < |sorted| ==> sorted[j].timestamp <= sorted[k].timestamp
  }

  /** The entries written to the file. */
  function Kept(sorted: seq<Entry>): seq<Entry> {
    if |sorted| > LIMIT then sorted[..LIMIT] else sorted
  }

  lemma SameLength(a: seq<Entry>, b: seq<Entry>)
    requires multiset(a) == multiset(b)
    ensures |a| == |b|
  {
    assert |multiset(a)| == |a| && |multiset(b)| == |b|;
  }

  lemma CutMultiset(s: seq<Entry>, n: nat)
    requires n <= |s|
    ensures multiset(s[..n]) + multiset(s[n..]) == multiset(s)
  {
    assert s == s[..n] + s[n..];
  }

  /** Exactly min(n, a million) entries are kept; together with the entries dropped they
      are all entries; and no dropped entry is older than a kept one. */
  lemma KeepsEarliest(entries: seq<Entry>, sorted: seq<Entry>)
    requires Sorts(entries, sorted)
    ensures var kept := Kept(sorted);
            && |kept| == (if |entries| > LIMIT then LIMIT else |entries|)
            && multiset(kept) + multiset(sorted[|kept|..]) == multiset(entries)
            && forall a, b :: a in kept && b in sorted[|kept|..] ==> a.timestamp <= b.timestamp
  {
    SameLength(entries, sorted);
    var kept := Kept(sorted);
    CutMultiset(sorted, |kept|);
    assert kept == sorted[..|kept|];
    forall a, b | a in kept && b in sorted[|kept|..] ensures a.timestamp <= b.timestamp {
      var j :| 0 <= j < |kept| && kept[j] == a;
      var k :| 0 <= k < |sorted| - |kept| && sorted[|kept|..][k] == b;
      assert sorted[j].timestamp <= sorted[|kept| + k].timestamp;
    }
  }

  function Stamps(entries: seq<Entry>): (r: seq<nat>)
    ensures |r| == |entries|
  {
    seq(|entries|, i requires 0 <= i < |entries| => entries[i].timestamp)
  }

  /** How many entries are stamped before `time`. */
  function Before(entries: seq<Entry>, time: nat): nat {
    if entries == [] then 0 else (if entries[0].timestamp < time then 1 else 0) + Before(entries[1..], time)
  }

  lemma {:induction false} BeforeJoin(a: seq<Entry>, b: seq<Entry>, time: nat)
    ensures Before(a + b, time) == Before(a, time) + Before(b, time)
  {
    if a == [] {
      assert a + b == b;
    } else {
      assert (a + b)[1..] == a[1..] + b;
      BeforeJoin(a[1..], b, time);
    }
  }

  /** Taking one entry out. */
  lemma TakeOut(s: seq<Entry>, j: nat, time: nat) returns (rest: seq<Entry>)
    requires j < |s|
    ensures multiset(s) == multiset{s[j]} + multiset(rest) && |rest| == |s| - 1
    ensures Before(s, time) == (if s[j].timestamp < time then 1 else 0) + Before(rest, time)
    ensures Bytes(s) == s[j].size + Bytes(rest)
  {
    var l, e, r := s[..j], [s[j]], s[j + 1..];
    rest := l + r;
    assert s == l + (e + r);
    BeforeJoin(l, e + r, time);
    BeforeJoin(e, r, time);
    BeforeJoin(l, r, time);
    BytesJoin(l, e + r);
    BytesJoin(e, r);
    BytesJoin(l, r);
  }

  /** Reordering entries keeps their number before any time, and their bytes. */
  lemma {:induction false} ReorderKeeps(a: seq<Entry>, b: seq<Entry>, time: nat)
    requires multiset(a) == multiset(b)
    ensures Before(a, time) == Before(b, time) && Bytes(a) == Bytes(b)
    decreases |a|
  {
    SameLength(a, b);
    if a != [] {
      hide Before;
      hide Bytes;
      assert a[0] in multiset(b);
      var j :| 0 <= j < |b| && b[j] == a[0];
      var a' := TakeOut(a, 0, time);
      var b' := TakeOut(b, j, time);
      assert multiset(a') == multiset(a) - multiset{a[0]} == multiset(b');
      ReorderKeeps(a', b', time);
    }
  }

  /** In a sorted sequence the entries before a time are a prefix. */
  lemma {:induction false} BeforeIsPrefix(s: seq<Entry>, time: nat)
    requires forall j, k :: 0 <= j < k < |s| ==> s[j].timestamp <= s[k].timestamp
    ensures Before(s, time) <= |s|
    ensures forall k :: 0 <= k < |s| ==> (k < Before(s, time) <==> s[k].timestamp < time)
  {
    if s != [] {
      BeforeIsPrefix(s[1..], time);
      forall k | 0 < k < |s| ensures s[k] == s[1..][k - 1] && s[0].timestamp <= s[k].timestamp {}
      if s[0].timestamp >= time { NoneBefore(s, time); }
    }
  }

  lemma {:induction false} NoneBefore(s: seq<Entry>, time: nat)
    requires forall k :: 0 <= k < |s| ==> s[k].timestamp >= time
    ensures Before(s, time) == 0
  {
    if s != [] { NoneBefore(s[1..], time); }
  }

  /** The order of the timestamps, and so the timestamps kept, do not depend on how the
      sort treats equal ones. */
  lemma StampsDetermined(entries: seq<Entry>, s: seq<Entry>, t: seq<Entry>)
    requires Sorts(entries, s) && Sorts(entries, t)
    ensures Stamps(s) == Stamps(t) && Stamps(Kept(s)) == Stamps(Kept(t))
  {
    SameLength(s, t);
    forall k | 0 <= k < |s| ensures s[k].timestamp == t[k].timestamp {
      NotLater(s, t, k);
      NotLater(t, s, k);
    }
  }

  lemma NotLater(s: seq<Entry>, t: seq<Entry>, k: nat)
    requires Sorts(s, s) && Sorts(t, t) && multiset(s) == multiset(t) && k < |s| == |t|
    ensures s[k].timestamp <= t[k].timestamp
  {
    var time := s[k].timestamp;
    ReorderKeeps(s, t, time);
    BeforeIsPrefix(s, time);
    BeforeIsPrefix(t, time);
  }

  /** A trace that fits is complete: the file holds every byte the threads recorded. */
  lemma ShortTraceIsComplete(buffers: seq<seq<Entry>>, sorted: seq<Entry>)
    requires Sorts(Joined(buffers, |buffers|), sorted) && |sorted| <= LIMIT
    ensures Bytes(Kept(sorted)) == RecordedBytes(buffers, |buffers|)
  {
    JoinKeepsBytes(buffers, |buffers|);
    ReorderKeeps(Joined(buffers, |buffers|), sorted, 0);
  }
}
