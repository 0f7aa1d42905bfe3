/** The accumulation shape of the two nested loops of `obtener_incendios`:
    for each satellite `k` below `n`, for each line `i` from 1 (the header is
    line 0) to the satellite's line count, append the line's outcome when it
    succeeds. `outcome(k, i)` is what line `i` of satellite `k` yields;
    `lineCount(k)` is how many lines satellite `k`'s response has. */
module Accumulation {
  import opened Wrappers

  /** What `for i in lo..hi: if outcome(k, i) succeeds: append it` appends. */
  function Collect<T>(outcome: (nat, nat) -> Option<T>, k: nat, lo: nat, hi: nat): seq<T>
    requires lo <= hi
    decreases hi
  {
    if hi == lo then [] else
      Collect(outcome, k, lo, hi - 1) + (if outcome(k, hi - 1).Some? then [outcome(k, hi - 1).value] else [])
  }

  /** The positions whose outcome `Collect` appended, in the order appended. */
  ghost function Collected<T>(outcome: (nat, nat) -> Option<T>, k: nat, lo: nat, hi: nat): seq<(nat, nat)>
    requires lo <= hi
    decreases hi
  {
    if hi == lo then [] else
      Collected(outcome, k, lo, hi - 1) + (if outcome(k, hi - 1).Some? then [(k, hi - 1)] else [])
  }

  /** What satellite `k` appends: its data lines, when it has any beyond the header. */
  function Rows<T>(outcome: (nat, nat) -> Option<T>, lineCount: nat -> nat, k: nat): seq<T> {
    if lineCount(k) > 1 then Collect(outcome, k, 1, lineCount(k)) else []
  }

  /** What the first `n` satellites append, satellite after satellite. */
  function AllRows<T>(outcome: (nat, nat) -> Option<T>, lineCount: nat -> nat, n: nat): seq<T> {
    if n == 0 then [] else AllRows(outcome, lineCount, n - 1) + Rows(outcome, lineCount, n - 1)
  }

  ghost function RowOrigins<T>(outcome: (nat, nat) -> Option<T>, lineCount: nat -> nat, k: nat): seq<(nat, nat)> {
    if lineCount(k) > 1 then Collected(outcome, k, 1, lineCount(k)) else []
  }

  /** The (satellite, line) position of every row of `AllRows`. */
  ghost function Origins<T>(outcome: (nat, nat) -> Option<T>, lineCount: nat -> nat, n: nat): seq<(nat, nat)> {
    if n == 0 then [] else Origins(outcome, lineCount, n - 1) + RowOrigins(outcome, lineCount, n - 1)
  }

  /** The order the loops visit positions in: satellite first, then line. */
  predicate Before(a: (nat, nat), b: (nat, nat)) {
    a.0 < b.0 || (a.0 == b.0 && a.1 < b.1)
  }

  /** Index ranges compose: what `lo..hi` appends is what `lo..mid` appends
      followed by what `mid..hi` appends. */
  lemma {:induction false} CollectSplit<T>(outcome: (nat, nat) -> Option<T>, k: nat, lo: nat, mid: nat, hi: nat)
    requires lo <= mid <= hi
    ensures Collect(outcome, k, lo, hi) == Collect(outcome, k, lo, mid) + Collect(outcome, k, mid, hi)
    decreases hi
  {
    if hi > mid {
      CollectSplit(outcome, k, lo, mid, hi - 1);
    }
  }

  /** A failed line appends nothing and does not stop the lines after it. */
  lemma CollectSkipsFailure<T>(outcome: (nat, nat) -> Option<T>, k: nat, lo: nat, i: nat, hi: nat)
    requires lo <= i < hi
    requires outcome(k, i).None?
    ensures Collect(outcome, k, lo, hi) == Collect(outcome, k, lo, i) + Collect(outcome, k, i + 1, hi)
  {
    CollectSplit(outcome, k, lo, i, hi);
    CollectSplit(outcome, k, i, i + 1, hi);
  }

  /** Each appended value is the outcome of one position of `lo..hi`; the
      positions increase; every position whose outcome succeeds is among them. */
  lemma {:induction false} CollectedSound<T>(outcome: (nat, nat) -> Option<T>, k: nat, lo: nat, hi: nat)
    requires lo <= hi
    ensures var rs := Collect(outcome, k, lo, hi);
      var os := Collected(outcome, k, lo, hi);
      && |os| == |rs|
      && (forall p :: 0 <= p < |os| ==> os[p].0 == k && lo <= os[p].1 < hi && outcome(os[p].0, os[p].1) == Some(rs[p]))
      && (forall p, q :: 0 <= p < q < |os| ==> os[p].1 < os[q].1)
      && (forall i :: lo <= i < hi && outcome(k, i).Some? ==> (k, i) in os)
    decreases hi
  {
    if hi > lo {
      CollectedSound(outcome, k, lo, hi - 1);
    }
  }

  /** The rows satellite `k` appends line up with their positions. */
  lemma RowOriginsMatch<T>(outcome: (nat, nat) -> Option<T>, lineCount: nat -> nat, k: nat)
    ensures var rs := Rows(outcome, lineCount, k);
      var os := RowOrigins(outcome, lineCount, k);
      && |os| == |rs|
      && (forall p :: 0 <= p < |os| ==>
            && os[p].0 == k && 1 <= os[p].1 < lineCount(k)
            && outcome(os[p].0, os[p].1) == Some(rs[p]))
  {
    if lineCount(k) > 1 {
      CollectedSound(outcome, k, 1, lineCount(k));
    }
  }

  /** The rows and their positions line up: row `p` is the outcome of
      position `p`, a data line (never line 0, the header) of one of the
      first `n` satellites. */
  lemma {:induction false} OriginsMatch<T>(outcome: (nat, nat) -> Option<T>, lineCount: nat -> nat, n: nat)
    ensures var rs := AllRows(outcome, lineCount, n);
      var os := Origins(outcome, lineCount, n);
      && |os| == |rs|
      && (forall p :: 0 <= p < |os| ==>
            && os[p].0 < n && 1 <= os[p].1 < lineCount(os[p].0)
            && outcome(os[p].0, os[p].1) == Some(rs[p]))
    decreases n
  {
    if n > 0 {
      var k := n - 1;
      OriginsMatch(outcome, lineCount, k);
      RowOriginsMatch(outcome, lineCount, k);
      var before, last := Origins(outcome, lineCount, k), RowOrigins(outcome, lineCount, k);
      var rsBefore, rsLast := AllRows(outcome, lineCount, k), Rows(outcome, lineCount, k);
      var os, rs := before + last, rsBefore + rsLast;
      forall p | 0 <= p < |os|
        ensures os[p].0 < n && 1 <= os[p].1 < lineCount(os[p].0) && outcome(os[p].0, os[p].1) == Some(rs[p])
      {
        if p < |before| {
          assert os[p] == before[p] && rs[p] == rsBefore[p];
        } else {
          assert os[p] == last[p - |before|] && rs[p] == rsLast[p - |before|];
        }
      }
    }
  }

  /** Rows are in satellite order, then line order. */
  lemma {:induction false} OriginsOrdered<T>(outcome: (nat, nat) -> Option<T>, lineCount: nat -> nat, n: nat)
    ensures var os := Origins(outcome, lineCount, n);
      forall p, q :: 0 <= p < q < |os| ==> Before(os[p], os[q])
    decreases n
  {
    if n > 0 {
      var k := n - 1;
      OriginsOrdered(outcome, lineCount, k);
      OriginsMatch(outcome, lineCount, k);
      if lineCount(k) > 1 {
        CollectedSound(outcome, k, 1, lineCount(k));
      }
      var before, last := Origins(outcome, lineCount, k), RowOrigins(outcome, lineCount, k);
      var os := before + last;
      forall p, q | 0 <= p < q < |os| ensures Before(os[p], os[q]) {
        if q < |before| {
          assert os[p] == before[p] && os[q] == before[q];
        } else if p < |before| {
          assert os[p] == before[p] && os[q] == last[q - |before|];
        } else {
          assert os[p] == last[p - |before|] && os[q] == last[q - |before|];
        }
      }
    }
  }

  /** Every data line of the first `n` satellites whose outcome succeeds
      contributes a row. */
  lemma {:induction false} OriginsComplete<T>(outcome: (nat, nat) -> Option<T>, lineCount: nat -> nat, n: nat)
    ensures var os := Origins(outcome, lineCount, n);
      forall k: nat, i: nat :: k < n && 1 <= i < lineCount(k) && outcome(k, i).Some? ==> (k, i) in os
    decreases n
  {
    if n > 0 {
      var k := n - 1;
      OriginsComplete(outcome, lineCount, k);
      if lineCount(k) > 1 {
        CollectedSound(outcome, k, 1, lineCount(k));
      }
    }
  }

  /** Every row comes from a data line (never line 0, the header) of one of
      the first `n` satellites; rows are in satellite order, then line order;
      every data line whose outcome succeeds contributes its row. */
  lemma OriginsSound<T>(outcome: (nat, nat) -> Option<T>, lineCount: nat -> nat, n: nat)
    ensures var rs := AllRows(outcome, lineCount, n);
      var os := Origins(outcome, lineCount, n);
      && |os| == |rs|
      && (forall p :: 0 <= p < |os| ==>
            && os[p].0 < n && 1 <= os[p].1 < lineCount(os[p].0)
            && outcome(os[p].0, os[p].1) == Some(rs[p]))
      && (forall p, q :: 0 <= p < q < |os| ==> Before(os[p], os[q]))
      && (forall k: nat, i: nat :: k < n && 1 <= i < lineCount(k) && outcome(k, i).Some? ==> (k, i) in os)
  {
    OriginsMatch(outcome, lineCount, n);
    OriginsOrdered(outcome, lineCount, n);
    OriginsComplete(outcome, lineCount, n);
  }

  /** Satellites compose: the rows of the first `n` satellites are those of
      the first `m` followed by those of satellites `m` to `n - 1`. */
  lemma {:induction false} AllRowsPrefix<T>(outcome: (nat, nat) -> Option<T>, lineCount: nat -> nat, m: nat, n: nat)
    requires m <= n
    ensures AllRows(outcome, lineCount, m) <= AllRows(outcome, lineCount, n)
    decreases n
  {
    if n > m {
      AllRowsPrefix(outcome, lineCount, m, n - 1);
    }
  }
}
