/**
 * The part of Python's `collections.Counter` the progress tracker relies
 * on: a dictionary from strings to counts that remembers the order in
 * which keys were first added, where a missing key counts as zero, and
 * `most_common(n)`, which lists the `n` largest counts, ties in key order.
 */
module Counting {

  /** One `(element, count)` pair as `most_common` returns it. */
  datatype Entry = Entry(text: string, count: nat)

  /** The counter's state: its keys in insertion order and their counts. */
  datatype Counter = Counter(keys: seq<string>, counts: map<string, nat>)

  const EmptyCounter: Counter := Counter([], map[])

  /** Keys are distinct, they are exactly the counted strings, and every
      stored count is positive (the counter is only ever incremented). */
  ghost predicate ValidCounter(k: Counter) {
    && (forall i, j :: 0 <= i < j < |k.keys| ==> k.keys[i] != k.keys[j])
    && (forall c :: c in k.counts <==> c in k.keys)
    && (forall c :: c in k.counts ==> k.counts[c] >= 1)
  }

  /** `counter[c]`: a key that was never added counts as zero. */
  function CountOf(k: Counter, c: string): nat {
    if c in k.counts then k.counts[c] else 0
  }

  /** `counter[c] += 1`: a new key goes last with count one, a known key
      keeps its place. */
  function Add(k: Counter, c: string): (r: Counter)
    requires ValidCounter(k)
    ensures ValidCounter(r)
    ensures CountOf(r, c) == CountOf(k, c) + 1
    ensures forall other :: other != c ==> CountOf(r, other) == CountOf(k, other)
    ensures k.keys <= r.keys
    ensures c in k.counts ==> r.keys == k.keys
    ensures c !in k.counts ==> r.keys == k.keys + [c]
  {
    if c in k.counts then Counter(k.keys, k.counts[c := k.counts[c] + 1])
    else Counter(k.keys + [c], k.counts[c := 1])
  }

  /** `counter.items()`, in key order. */
  function Entries(k: Counter): (r: seq<Entry>)
    ensures |r| == |k.keys|
  {
    seq(|k.keys|, i requires 0 <= i < |k.keys| => Entry(k.keys[i], CountOf(k, k.keys[i])))
  }

  // ---------------------------------------------------------------------
  // `sorted(items, key=count, reverse=True)`, which is stable

  predicate SortedDesc(xs: seq<Entry>) {
    forall i, j :: 0 <= i < j < |xs| ==> xs[i].count >= xs[j].count
  }

  /** Insert `x` before the first element whose count is not larger. */
  function Insert(x: Entry, ys: seq<Entry>): (r: seq<Entry>)
    ensures multiset(r) == multiset(ys) + multiset{x}
    ensures |r| == |ys| + 1
  {
    if ys == [] || x.count >= ys[0].count then [x] + ys
    else
      assert ys == [ys[0]] + ys[1..];
      [ys[0]] + Insert(x, ys[1..])
  }

  /** The first element after an insertion is `x` or the old first. */
  lemma InsertHead(x: Entry, ys: seq<Entry>)
    ensures Insert(x, ys)[0] == x || (ys != [] && Insert(x, ys)[0] == ys[0])
  {
  }

  lemma {:induction false} InsertSorted(x: Entry, ys: seq<Entry>)
    requires SortedDesc(ys)
    ensures SortedDesc(Insert(x, ys))
  {
    if ys != [] && x.count < ys[0].count {
      var tail := Insert(x, ys[1..]);
      InsertSorted(x, ys[1..]);
      InsertHead(x, ys[1..]);
      var r := Insert(x, ys);
      assert r == [ys[0]] + tail;
      assert tail[0].count <= ys[0].count;
      forall i, j | 0 <= i < j < |r| ensures r[i].count >= r[j].count {
        assert r[j] == tail[j - 1];
        assert tail[0].count >= tail[j - 1].count;
        if i > 0 {
          assert r[i] == tail[i - 1];
        }
      }
    }
  }

  /** Counts in non-increasing order: a permutation of the input, sorted. */
  function SortDesc(xs: seq<Entry>): (r: seq<Entry>)
    ensures multiset(r) == multiset(xs)
    ensures |r| == |xs|
    ensures SortedDesc(r)
  {
    if xs == [] then []
    else
      assert xs == [xs[0]] + xs[1..];
      InsertSorted(xs[0], SortDesc(xs[1..]));
      Insert(xs[0], SortDesc(xs[1..]))
  }

  /** The elements with count `n`, in order. */
  function WithCount(xs: seq<Entry>, n: nat): seq<Entry> {
    if xs == [] then []
    else (if xs[0].count == n then [xs[0]] else []) + WithCount(xs[1..], n)
  }

  lemma {:induction false} InsertWithCount(x: Entry, ys: seq<Entry>, n: nat)
    ensures WithCount(Insert(x, ys), n) == (if x.count == n then [x] else []) + WithCount(ys, n)
  {
    var r := Insert(x, ys);
    if ys != [] && x.count < ys[0].count {
      InsertWithCount(x, ys[1..], n);
      assert r == [ys[0]] + Insert(x, ys[1..]);
      assert r[0] == ys[0] && r[1..] == Insert(x, ys[1..]);
      assert WithCount(r, n) == (if ys[0].count == n then [ys[0]] else []) + WithCount(r[1..], n);
      assert WithCount(ys, n) == (if ys[0].count == n then [ys[0]] else []) + WithCount(ys[1..], n);
    } else {
      assert r == [x] + ys;
      assert r[0] == x && r[1..] == ys;
    }
  }

  /** The sort is stable: the elements of any one count keep their order. */
  lemma {:induction false} SortStable(xs: seq<Entry>, n: nat)
    ensures WithCount(SortDesc(xs), n) == WithCount(xs, n)
  {
    if xs != [] {
      SortStable(xs[1..], n);
      InsertWithCount(xs[0], SortDesc(xs[1..]), n);
    }
  }

  lemma {:induction false} WithCountOfPrefix(xs: seq<Entry>, m: nat, n: nat)
    requires m <= |xs|
    ensures WithCount(xs[..m], n) <= WithCount(xs, n)
  {
    if m > 0 {
      WithCountOfPrefix(xs[1..], m - 1, n);
      assert xs[..m][1..] == xs[1..][..m - 1];
    }
  }

  // ---------------------------------------------------------------------
  // `most_common(n)`

  /** `heapq.nlargest(n, items, key=count)`: the first `n` of the stable
      descending sort, and nothing for `n <= 0`. */
  function MostCommon(xs: seq<Entry>, n: int): seq<Entry> {
    if n <= 0 then []
    else
      var sorted := SortDesc(xs);
      sorted[..if n < |sorted| then n else |sorted|]
  }

  /** The elements `most_common` leaves out have counts no larger than
      any it keeps. */
  lemma TopIsLargest(xs: seq<Entry>, n: int)
    ensures var r := MostCommon(xs, n);
            forall e, i :: e in xs && e !in r && 0 <= i < |r| ==> e.count <= r[i].count
  {
    var r := MostCommon(xs, n);
    var sorted := SortDesc(xs);
    forall e, i | e in xs && e !in r && 0 <= i < |r|
      ensures e.count <= r[i].count
    {
      assert r == sorted[..|r|];
      assert e in multiset(xs);
      assert e in multiset(sorted);
      var k :| 0 <= k < |sorted| && sorted[k] == e;
      assert r[i] == sorted[i];
    }
  }

  /** `most_common(n)` has `min(n, len)` pairs (none for `n <= 0`), all
      taken from the input, in non-increasing order of count. */
  lemma MostCommonIsTop(xs: seq<Entry>, n: int)
    ensures var r := MostCommon(xs, n);
            && |r| == (if n <= 0 then 0 else if n < |xs| then n else |xs|)
            && multiset(r) <= multiset(xs)
            && SortedDesc(r)
  {
    var r := MostCommon(xs, n);
    if n > 0 {
      var sorted := SortDesc(xs);
      var m := |r|;
      assert r == sorted[..m];
      assert sorted == r + sorted[m..];
      assert multiset(sorted) == multiset(r) + multiset(sorted[m..]);
    }
  }

  /** Pairs of equal count keep their input order in `most_common(n)`:
      those it lists are a prefix of those of that count in the input. */
  lemma MostCommonStable(xs: seq<Entry>, n: int, c: nat)
    ensures WithCount(MostCommon(xs, n), c) <= WithCount(xs, c)
  {
    if n > 0 {
      var sorted := SortDesc(xs);
      var r := MostCommon(xs, n);
      assert r == sorted[..|r|];
      WithCountOfPrefix(sorted, |r|, c);
      SortStable(xs, c);
    }
  }
}
