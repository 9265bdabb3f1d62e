/**
 Putting the accepted spans back into the line: the spans are exchange-sorted
 by start in place, and the output is the line with each span replaced by its
 painted text, the bytes between spans copied unchanged.
 */
module Rendering {
  import opened Matching

  // ---------------------------------------------------------------------------
  // Ordering the spans

  /** The spans are in ascending order of start. */
  predicate SortedByStart(rs: seq<Replacement>) {
    forall i, j :: 0 <= i < j < |rs| ==> rs[i].start <= rs[j].start
  }

  /** The first `m` spans are in ascending order of start. */
  predicate SortedPrefix(rs: seq<Replacement>, m: nat) {
    forall p, q :: 0 <= p < q < m && q < |rs| ==> rs[p].start <= rs[q].start
  }

  /** The spans at or after `i` start no earlier than any span before `i`. */
  predicate SplitAt(rs: seq<Replacement>, i: nat) {
    forall p, q :: 0 <= p < i <= q < |rs| ==> rs[p].start <= rs[q].start
  }

  /** The sequence with the spans at `i` and `j` exchanged. */
  function Swap(rs: seq<Replacement>, i: nat, j: nat): (out: seq<Replacement>)
    requires i < |rs| && j < |rs|
    ensures |out| == |rs|
  {
    rs[i := rs[j]][j := rs[i]]
  }

  /** Exchanging two spans only rearranges them. */
  lemma SwapPermutes(rs: seq<Replacement>, i: nat, j: nat)
    requires i < |rs| && j < |rs|
    ensures multiset(Swap(rs, i, j)) == multiset(rs)
  {
  }

  /**
   One comparison of the exchange sort: the span at `k` is swapped with the
   one at `i` when it starts earlier.
   */
  function Step(rs: seq<Replacement>, i: nat, k: nat): (out: seq<Replacement>)
    requires i < |rs| && k < |rs|
    ensures |out| == |rs|
  {
    if rs[k].start < rs[i].start then Swap(rs, i, k) else rs
  }

  /** The inner pass for position `i`, after the comparisons with positions `i + 1` to `j - 1`. */
  function Pass(rs: seq<Replacement>, i: nat, j: nat): (out: seq<Replacement>)
    requires i < j <= |rs|
    ensures |out| == |rs|
  {
    if j == i + 1 then rs else Step(Pass(rs, i, j - 1), i, j - 1)
  }

  /** The outer loop of the exchange sort, from position `i` on: a full inner pass per position. */
  function Sweep(rs: seq<Replacement>, i: nat): (out: seq<Replacement>)
    ensures |out| == |rs|
    decreases |rs| - i
  {
    if i >= |rs| then rs else Sweep(Pass(rs, i, |rs|), i + 1)
  }

  /** The spans as the source's exchange sort leaves them. */
  function ExchangeSorted(rs: seq<Replacement>): seq<Replacement> {
    Sweep(rs, 0)
  }

  /** A comparison leaves the positions before `i` alone. */
  lemma StepKeepsPrefix(rs: seq<Replacement>, i: nat, k: nat)
    requires i < k < |rs|
    ensures Step(rs, i, k)[..i] == rs[..i]
  {
  }

  /** An inner pass leaves the positions before `i` alone. */
  lemma {:induction false} PassKeepsPrefix(rs: seq<Replacement>, i: nat, j: nat)
    requires i < j <= |rs|
    ensures Pass(rs, i, j)[..i] == rs[..i]
  {
    if j > i + 1 {
      PassKeepsPrefix(rs, i, j - 1);
      StepKeepsPrefix(Pass(rs, i, j - 1), i, j - 1);
    }
  }

  /** A comparison only rearranges the spans. */
  lemma StepPermutes(rs: seq<Replacement>, i: nat, k: nat)
    requires i < |rs| && k < |rs|
    ensures multiset(Step(rs, i, k)) == multiset(rs)
  {
    if rs[k].start < rs[i].start {
      SwapPermutes(rs, i, k);
    }
  }

  /** An inner pass only rearranges the spans. */
  lemma {:induction false} PassPermutes(rs: seq<Replacement>, i: nat, j: nat)
    requires i < j <= |rs|
    ensures multiset(Pass(rs, i, j)) == multiset(rs)
  {
    if j > i + 1 {
      PassPermutes(rs, i, j - 1);
      StepPermutes(Pass(rs, i, j - 1), i, j - 1);
    }
  }

  /**
   A comparison keeps the positions before `i` no later than the rest, and
   keeps at `i` a span starting no later than any compared with it so far.
   */
  lemma StepOrders(rs: seq<Replacement>, i: nat, k: nat)
    requires i < k < |rs| && SplitAt(rs, i)
    requires forall q :: i < q < k ==> rs[i].start <= rs[q].start
    ensures SplitAt(Step(rs, i, k), i)
    ensures forall q :: i < q <= k ==> Step(rs, i, k)[i].start <= Step(rs, i, k)[q].start
  {
    var out := Step(rs, i, k);
    forall p, q | 0 <= p < i <= q < |out|
      ensures out[p].start <= out[q].start
    {
      assert out[p] == rs[p];
      assert out[q] == rs[q] || out[q] == rs[i] || out[q] == rs[k];
    }
  }

  /**
   An inner pass keeps the positions before `i` no later than the rest, and
   puts at `i` a span starting no later than any it was compared with.
   */
  lemma {:induction false} PassOrders(rs: seq<Replacement>, i: nat, j: nat)
    requires i < j <= |rs| && SplitAt(rs, i)
    ensures SplitAt(Pass(rs, i, j), i)
    ensures forall q :: i < q < j ==> Pass(rs, i, j)[i].start <= Pass(rs, i, j)[q].start
  {
    if j > i + 1 {
      var prev := Pass(rs, i, j - 1);
      PassOrders(rs, i, j - 1);
      StepOrders(prev, i, j - 1);
      assert Pass(rs, i, j) == Step(prev, i, j - 1);
    }
  }

  /** After the inner pass for position `i`, the first `i + 1` spans are sorted. */
  lemma PassExtendsSorted(rs: seq<Replacement>, i: nat)
    requires i < |rs| && SplitAt(rs, i) && SortedPrefix(rs, i)
    ensures SplitAt(Pass(rs, i, |rs|), i + 1)
    ensures SortedPrefix(Pass(rs, i, |rs|), i + 1)
  {
    var next := Pass(rs, i, |rs|);
    PassKeepsPrefix(rs, i, |rs|);
    PassOrders(rs, i, |rs|);
    forall p, q | 0 <= p < q < i + 1
      ensures next[p].start <= next[q].start
    {
      assert next[p] == next[..i][p] == rs[..i][p] == rs[p] || p == i;
      if q < i {
        assert next[q] == next[..i][q];
      }
    }
  }

  /** The outer loop from `i` on sorts the spans when the first `i` are sorted and no later than the rest. */
  lemma {:induction false} SweepSorts(rs: seq<Replacement>, i: nat)
    requires i <= |rs| && SplitAt(rs, i) && SortedPrefix(rs, i)
    ensures SortedByStart(Sweep(rs, i))
    decreases |rs| - i
  {
    if i < |rs| {
      PassExtendsSorted(rs, i);
      SweepSorts(Pass(rs, i, |rs|), i + 1);
    }
  }

  /** The outer loop only rearranges the spans. */
  lemma {:induction false} SweepPermutes(rs: seq<Replacement>, i: nat)
    ensures multiset(Sweep(rs, i)) == multiset(rs)
    decreases |rs| - i
  {
    if i < |rs| {
      PassPermutes(rs, i, |rs|);
      SweepPermutes(Pass(rs, i, |rs|), i + 1);
    }
  }

  /** The exchange sort puts the spans in ascending order of start, and they are the same spans. */
  lemma ExchangeSortedSpec(rs: seq<Replacement>)
    ensures SortedByStart(ExchangeSorted(rs))
    ensures multiset(ExchangeSorted(rs)) == multiset(rs)
  {
    SweepSorts(rs, 0);
    SweepPermutes(rs, 0);
  }

  /** Exchanging two spans keeps a list of disjoint spans disjoint. */
  lemma SwapSpans(rs: seq<Replacement>, n: nat, i: nat, j: nat)
    requires Spans(rs, n) && i < |rs| && j < |rs|
    ensures Spans(Swap(rs, i, j), n)
  {
    var out := Swap(rs, i, j);
    forall k, l | 0 <= k < l < |out|
      ensures Disjoint(out[k], out[l])
    {
      var k' := if k == i then j else if k == j then i else k;
      var l' := if l == i then j else if l == j then i else l;
      assert out[k] == rs[k'] && out[l] == rs[l'];
      assert Disjoint(rs[k'], rs[l']) || Disjoint(rs[l'], rs[k']);
    }
  }

  lemma {:induction false} PassSpans(rs: seq<Replacement>, n: nat, i: nat, j: nat)
    requires Spans(rs, n) && i < j <= |rs|
    ensures Spans(Pass(rs, i, j), n)
  {
    if j > i + 1 {
      var prev := Pass(rs, i, j - 1);
      PassSpans(rs, n, i, j - 1);
      StepSpans(prev, n, i, j - 1);
      assert Pass(rs, i, j) == Step(prev, i, j - 1);
    }
  }

  /** A comparison keeps a list of disjoint spans disjoint. */
  lemma StepSpans(rs: seq<Replacement>, n: nat, i: nat, k: nat)
    requires Spans(rs, n) && i < |rs| && k < |rs|
    ensures Spans(Step(rs, i, k), n)
  {
    if rs[k].start < rs[i].start {
      SwapSpans(rs, n, i, k);
    }
  }

  lemma {:induction false} SweepSpans(rs: seq<Replacement>, n: nat, i: nat)
    requires Spans(rs, n)
    ensures Spans(Sweep(rs, i), n)
    decreases |rs| - i
  {
    if i < |rs| {
      PassSpans(rs, n, i, |rs|);
      SweepSpans(Pass(rs, i, |rs|), n, i + 1);
    }
  }

  /**
   Sorting disjoint spans keeps them disjoint, and since no two of them share
   a start, their starts are then strictly ascending.
   */
  lemma ExchangeSortedSpans(rs: seq<Replacement>, n: nat)
    requires Spans(rs, n)
    ensures Spans(ExchangeSorted(rs), n)
    ensures forall i, j :: 0 <= i < j < |rs| ==> ExchangeSorted(rs)[i].start < ExchangeSorted(rs)[j].start
  {
    SweepSpans(rs, n, 0);
    ExchangeSortedSpec(rs);
    var out := ExchangeSorted(rs);
    forall i, j | 0 <= i < j < |rs|
      ensures out[i].start < out[j].start
    {
      assert Disjoint(out[i], out[j]);
    }
  }

  /**
   The exchange sort of the source, in place: for each position, every later
   span that starts before the one there is swapped in.
   */
  method ExchangeSort(a: array<Replacement>)
    modifies a
    ensures a[..] == ExchangeSorted(old(a[..]))
  {
    var n := a.Length;
    for i := 0 to n
      invariant Sweep(a[..], i) == ExchangeSorted(old(a[..]))
    {
      ghost var before := a[..];
      for j := i + 1 to n
        invariant a[..] == Pass(before, i, j)
      {
        if a[j].start < a[i].start {
          a[i], a[j] := a[j], a[i];
        }
      }
    }
  }

  // ---------------------------------------------------------------------------
  // Building the output

  /** Each span starts at or after the previous one's end (the first at or after `from`), and the last ends within `n`. */
  predicate Chained(rs: seq<Replacement>, from: nat, n: nat) {
    if rs == [] then from <= n
    else from <= rs[0].start <= rs[0].end <= n && Chained(rs[1..], rs[0].end, n)
  }

  /** Disjoint spans of a line, sorted by start and all at or after `from`, are chained. */
  lemma {:induction false} SpansChained(rs: seq<Replacement>, from: nat, n: nat)
    requires Spans(rs, n) && SortedByStart(rs) && from <= n
    requires forall k :: 0 <= k < |rs| ==> from <= rs[k].start
    ensures Chained(rs, from, n)
  {
    if rs != [] {
      forall k | 1 <= k < |rs|
        ensures rs[0].end <= rs[k].start
      {
        assert Disjoint(rs[0], rs[k]);
      }
      SpansChained(rs[1..], rs[0].end, n);
    }
  }

  /** The line from `from` on, with each span replaced by its text and the bytes between spans kept. */
  function Render(line: string, rs: seq<Replacement>, from: nat): string
    requires Chained(rs, from, |line|)
  {
    if rs == [] then line[from..]
    else line[from..rs[0].start] + rs[0].text + Render(line, rs[1..], rs[0].end)
  }

  /** Rendering from the first span on: the bytes before it and its text, appended to what is already built, then the rest. */
  lemma RenderHead(line: string, rs: seq<Replacement>, from: nat, acc: string)
    requires rs != [] && Chained(rs, from, |line|)
    ensures Chained(rs[1..], rs[0].end, |line|)
    ensures acc + Render(line, rs, from) == (acc + line[from..rs[0].start] + rs[0].text) + Render(line, rs[1..], rs[0].end)
  {
  }

  /** The spans with their texts replaced by the bytes they cover. */
  function Unpainted(line: string, rs: seq<Replacement>): (ps: seq<Replacement>)
    requires forall k :: 0 <= k < |rs| ==> rs[k].start <= rs[k].end <= |line|
    ensures |ps| == |rs|
  {
    seq(|rs|, k requires 0 <= k < |rs| => Replacement(rs[k].start, rs[k].end, line[rs[k].start..rs[k].end]))
  }

  /**
   Rendering changes nothing but the spans: with each span's text replaced by
   the bytes it covers, the output is the line itself.
   */
  lemma {:induction false} RenderUnpainted(line: string, rs: seq<Replacement>, from: nat)
    requires Chained(rs, from, |line|)
    requires forall k :: 0 <= k < |rs| ==> rs[k].start <= rs[k].end <= |line|
    ensures Chained(Unpainted(line, rs), from, |line|)
    ensures Render(line, Unpainted(line, rs), from) == line[from..]
    decreases |rs|
  {
    var ps := Unpainted(line, rs);
    if rs != [] {
      assert ps[1..] == Unpainted(line, rs[1..]);
      RenderUnpainted(line, rs[1..], rs[0].end);
      assert line[from..] == line[from..rs[0].start] + line[rs[0].start..rs[0].end] + line[rs[0].end..];
    }
  }
}
