/**
 * The selection rules: when the current server must be replaced, and which
 * pool member replaces it.  The reachable probe results are sorted by
 * latency with a stable sort, and the first of them wins.
 */
module Selection {
  import opened Text
  import opened Config
  import opened Ping

  /** The current server is replaced when it is unreachable or slower than the threshold. */
  predicate NeedsUpdate(r: ProbeResult) {
    r.Unreachable? || r.latency > LatencyThreshold
  }

  /** The threshold is strict: a latency of exactly 100 ms keeps the server, anything slower replaces it. */
  lemma ThresholdStrict(dns: string, latency: real)
    ensures !NeedsUpdate(Reachable(dns, 100.0))
    ensures NeedsUpdate(Reachable(dns, latency)) <==> latency > 100.0
    ensures NeedsUpdate(Unreachable(dns))
  {
  }

  /** The list comprehension keeping the reachable results, in probe order. */
  function Reachables(rs: seq<ProbeResult>): (r: seq<ProbeResult>)
    ensures forall k :: 0 <= k < |r| ==> r[k].Reachable?
  {
    if rs == [] then [] else (if rs[0].Reachable? then [rs[0]] else []) + Reachables(rs[1..])
  }

  /** A result is kept exactly when it was probed and is reachable. */
  lemma {:induction false} ReachablesMembers(rs: seq<ProbeResult>, x: ProbeResult)
    ensures x in Reachables(rs) <==> x in rs && x.Reachable?
    decreases |rs|
  {
    if rs != [] {
      ReachablesMembers(rs[1..], x);
      assert rs == [rs[0]] + rs[1..];
    }
  }

  /** Nothing is kept exactly when nothing was reachable. */
  lemma {:induction false} ReachablesEmptyIff(rs: seq<ProbeResult>)
    ensures Reachables(rs) == [] <==> forall j :: 0 <= j < |rs| ==> rs[j].Unreachable?
    decreases |rs|
  {
    if rs != [] {
      ReachablesEmptyIff(rs[1..]);
      assert forall j :: 1 <= j < |rs| ==> rs[j] == rs[1..][j - 1];
    }
  }

  predicate AllReachable(xs: seq<ProbeResult>) {
    forall k :: 0 <= k < |xs| ==> xs[k].Reachable?
  }

  /** Ordered by latency, the sort key. */
  predicate SortedByLatency(xs: seq<ProbeResult>)
    requires AllReachable(xs)
  {
    forall i, j :: 0 <= i < j < |xs| ==> xs[i].latency <= xs[j].latency
  }

  /** Insert `x` before the first element that is not faster than it, so `x` stays ahead of the ties it came before. */
  function Insert(x: ProbeResult, ys: seq<ProbeResult>): (r: seq<ProbeResult>)
    requires x.Reachable? && AllReachable(ys)
    ensures AllReachable(r) && |r| == |ys| + 1
    ensures multiset(r) == multiset(ys) + multiset{x}
    ensures forall z :: z in r ==> z == x || z in ys
  {
    if ys == [] || x.latency <= ys[0].latency then [x] + ys
    else
      assert ys == [ys[0]] + ys[1..];
      [ys[0]] + Insert(x, ys[1..])
  }

  /** `list.sort(key=latency)`: a stable sort, written as an insertion sort from the back. */
  function SortByLatency(xs: seq<ProbeResult>): (r: seq<ProbeResult>)
    requires AllReachable(xs)
    ensures AllReachable(r) && |r| == |xs|
    ensures multiset(r) == multiset(xs)
  {
    if xs == [] then []
    else
      assert xs == [xs[0]] + xs[1..];
      Insert(xs[0], SortByLatency(xs[1..]))
  }

  lemma {:induction false} InsertSorted(x: ProbeResult, ys: seq<ProbeResult>)
    requires x.Reachable? && AllReachable(ys) && SortedByLatency(ys)
    ensures SortedByLatency(Insert(x, ys))
    decreases |ys|
  {
    if ys != [] && x.latency > ys[0].latency {
      InsertSorted(x, ys[1..]);
      var r := Insert(x, ys[1..]);
      forall k | 0 <= k < |r| ensures ys[0].latency <= r[k].latency {
        assert r[k] in r;
        if r[k] != x {
          var m :| 0 <= m < |ys[1..]| && ys[1..][m] == r[k];
          assert ys[1 + m] == r[k];
        }
      }
      assert Insert(x, ys) == [ys[0]] + r;
    }
  }

  /** The sort yields the same results, ordered by latency. */
  lemma {:induction false} SortIsSortedPermutation(xs: seq<ProbeResult>)
    requires AllReachable(xs)
    ensures SortedByLatency(SortByLatency(xs))
    ensures multiset(SortByLatency(xs)) == multiset(xs)
    decreases |xs|
  {
    if xs != [] {
      SortIsSortedPermutation(xs[1..]);
      InsertSorted(xs[0], SortByLatency(xs[1..]));
    }
  }

  /** The fastest reachable result, if any: the head of the sorted reachable results. */
  function Fastest(rs: seq<ProbeResult>): Option<ProbeResult> {
    var sorted := SortByLatency(Reachables(rs));
    if sorted == [] then None else Some(sorted[0])
  }

  /** `i` holds a reachable result no other is faster than, and every reachable result before it is slower. */
  predicate IsEarliestFastest(rs: seq<ProbeResult>, i: nat) {
    && i < |rs| && rs[i].Reachable?
    && (forall j :: 0 <= j < |rs| && rs[j].Reachable? ==> rs[i].latency <= rs[j].latency)
    && (forall j :: 0 <= j < i && rs[j].Reachable? ==> rs[j].latency > rs[i].latency)
  }

  /** No result is chosen exactly when none was reachable. */
  lemma FastestNoneIff(rs: seq<ProbeResult>)
    ensures Fastest(rs).None? <==> forall j :: 0 <= j < |rs| ==> rs[j].Unreachable?
  {
    ReachablesEmptyIff(rs);
  }

  /**
   * The chosen result is the earliest of the fastest reachable ones: ties go
   * to the server probed first, because the sort is stable.
   */
  lemma FastestIsEarliestMinimum(rs: seq<ProbeResult>) returns (i: nat)
    requires Fastest(rs).Some?
    ensures IsEarliestFastest(rs, i) && Fastest(rs) == Some(rs[i])
  {
    FastestIsScan(rs);
    i := ScanIsEarliest(rs);
  }

  /** A single pass over the results in probe order, keeping the first of the fastest reachable ones seen. */
  function Scan(rs: seq<ProbeResult>): (r: Option<ProbeResult>)
    ensures r.Some? ==> r.value.Reachable?
  {
    if rs == [] then None
    else
      var b := Scan(rs[1..]);
      if !rs[0].Reachable? then b
      else if b.None? || rs[0].latency <= b.value.latency then Some(rs[0])
      else b
  }

  /** Sorting and taking the head chooses what the single pass chooses. */
  lemma {:induction false} FastestIsScan(rs: seq<ProbeResult>)
    ensures Fastest(rs) == Scan(rs)
    decreases |rs|
  {
    if rs != [] {
      FastestCons(rs);
      FastestIsScan(rs[1..]);
    }
  }

  /** The single pass chooses the earliest of the fastest reachable results. */
  lemma {:induction false} ScanIsEarliest(rs: seq<ProbeResult>) returns (i: nat)
    requires Scan(rs).Some?
    ensures IsEarliestFastest(rs, i) && Scan(rs) == Some(rs[i])
    decreases |rs|
  {
    var tail := rs[1..];
    if !rs[0].Reachable? {
      var i' := ScanIsEarliest(tail);
      EarliestAfterFirst(rs, i');
      i := i' + 1;
      assert rs[i] == tail[i'];
    } else if Scan(tail).None? {
      ScanNoneIff(tail);
      EarliestIsFirst(rs);
      i := 0;
    } else {
      var i' := ScanIsEarliest(tail);
      if rs[0].latency <= tail[i'].latency {
        EarliestIsFirst(rs);
        i := 0;
      } else {
        EarliestAfterFirst(rs, i');
        i := i' + 1;
        assert rs[i] == tail[i'];
      }
    }
  }

  lemma {:induction false} ScanNoneIff(rs: seq<ProbeResult>)
    ensures Scan(rs).None? <==> forall j :: 0 <= j < |rs| ==> rs[j].Unreachable?
    decreases |rs|
  {
    if rs != [] {
      ScanNoneIff(rs[1..]);
      assert forall j :: 1 <= j < |rs| ==> rs[j] == rs[1..][j - 1];
    }
  }

  /** The choice over a first result and the rest: the first result wins unless it is unreachable or a later one is strictly faster. */
  lemma FastestCons(rs: seq<ProbeResult>)
    requires |rs| > 0
    ensures Fastest(rs) ==
              if !rs[0].Reachable? then Fastest(rs[1..])
              else match Fastest(rs[1..])
                case None => Some(rs[0])
                case Some(b) => if rs[0].latency <= b.latency then Some(rs[0]) else Some(b)
  {
    var rest := Reachables(rs[1..]);
    if rs[0].Reachable? {
      assert Reachables(rs) == [rs[0]] + rest;
      assert ([rs[0]] + rest)[1..] == rest;
      assert SortByLatency(Reachables(rs)) == Insert(rs[0], SortByLatency(rest));
    } else {
      assert Reachables(rs) == rest;
    }
  }

  /** A reachable first result that no later reachable one beats is the earliest fastest. */
  lemma EarliestIsFirst(rs: seq<ProbeResult>)
    requires |rs| > 0 && rs[0].Reachable?
    requires forall j :: 0 <= j < |rs| - 1 && rs[1..][j].Reachable? ==> rs[0].latency <= rs[1..][j].latency
    ensures IsEarliestFastest(rs, 0)
  {
    forall j | 1 <= j < |rs| && rs[j].Reachable? ensures rs[0].latency <= rs[j].latency {
      assert rs[j] == rs[1..][j - 1];
    }
  }

  /** The earliest fastest of the later results is the earliest fastest of all when the first result is slower or unreachable. */
  lemma EarliestAfterFirst(rs: seq<ProbeResult>, i': nat)
    requires |rs| > 0 && IsEarliestFastest(rs[1..], i')
    requires rs[0].Reachable? ==> rs[0].latency > rs[1..][i'].latency
    ensures IsEarliestFastest(rs, i' + 1)
  {
    forall j | 1 <= j < |rs| ensures rs[j] == rs[1..][j - 1] {
    }
  }

  /** The choice is determined by the results: only one position is the earliest fastest. */
  lemma EarliestFastestUnique(rs: seq<ProbeResult>, i: nat, i': nat)
    requires IsEarliestFastest(rs, i) && IsEarliestFastest(rs, i')
    ensures i == i'
  {
  }
}
