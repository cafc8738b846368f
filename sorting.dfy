/**
 * Python's `sorted` as the table reader uses it: a stable sort of
 * decorated pairs on a key made of a float and a rank that breaks ties
 * (`None` below a dictionary).
 */
module Sorting {
  import opened Floats

  datatype SortKey = SortKey(n: Num, rank: nat)

  /** Tuple comparison: the float first, then the rank. */
  predicate KeyLe(a: SortKey, b: SortKey) {
    NumLt(a.n, b.n) || (a.n == b.n && a.rank <= b.rank)
  }

  lemma KeyLeTotal(a: SortKey, b: SortKey)
    ensures KeyLe(a, b) || KeyLe(b, a)
  {
    NumLeTotal(a.n, b.n);
  }

  lemma KeyLeTransitive(a: SortKey, b: SortKey, c: SortKey)
    requires KeyLe(a, b) && KeyLe(b, c)
    ensures KeyLe(a, c)
  {
    NumLeTotal(a.n, b.n);
    NumLeTotal(b.n, c.n);
    NumLeTotal(a.n, c.n);
    if NumLt(a.n, b.n) && NumLt(b.n, c.n) {
      NumLeTransitive(a.n, b.n, c.n);
    }
  }

  predicate Sorted<T>(xs: seq<(SortKey, T)>) {
    forall i, j | 0 <= i < j < |xs| :: KeyLe(xs[i].0, xs[j].0)
  }


  /** Puts `x` in front of the first element whose key is not below its own. */
  function Insert<T>(x: (SortKey, T), ys: seq<(SortKey, T)>): (r: seq<(SortKey, T)>)
    ensures |r| == |ys| + 1
    ensures multiset(r) == multiset(ys) + multiset{x}
    decreases |ys|
  {
    if ys == [] || KeyLe(x.0, ys[0].0) then [x] + ys
    else
      assert ys == [ys[0]] + ys[1..];
      [ys[0]] + Insert(x, ys[1..])
  }

  lemma {:induction false} InsertSorted<T>(x: (SortKey, T), ys: seq<(SortKey, T)>)
    requires Sorted(ys)
    ensures Sorted(Insert(x, ys))
    ensures Insert(x, ys) != [] && (Insert(x, ys)[0] == x || (ys != [] && Insert(x, ys)[0] == ys[0]))
    decreases |ys|
  {
    if ys == [] || KeyLe(x.0, ys[0].0) {
      var r := [x] + ys;
      forall i, j | 0 <= i < j < |r| ensures KeyLe(r[i].0, r[j].0) {
        if i == 0 && j > 1 {
          KeyLeTransitive(x.0, ys[0].0, ys[j - 1].0);
        }
      }
    } else {
      KeyLeTotal(x.0, ys[0].0);
      InsertSorted(x, ys[1..]);
      var tail := Insert(x, ys[1..]);
      var r := [ys[0]] + tail;
      assert r == Insert(x, ys);
      forall j | 0 <= j < |tail| ensures KeyLe(ys[0].0, tail[j].0) {
        assert tail[j] in multiset(tail);
        assert tail[j] == x || tail[j] in multiset(ys[1..]);
        if tail[j] != x {
          var k :| 0 <= k < |ys[1..]| && ys[1..][k] == tail[j];
          assert ys[k + 1] == tail[j];
        }
      }
      forall i, j | 0 <= i < j < |r| ensures KeyLe(r[i].0, r[j].0) {
        if i == 0 {
          assert r[j] == tail[j - 1];
        } else {
          assert r[i] == tail[i - 1] && r[j] == tail[j - 1];
        }
      }
    }
  }

  /** `sorted(xs, key=...)`: stable insertion sort. */
  function Sort<T>(xs: seq<(SortKey, T)>): (r: seq<(SortKey, T)>)
    ensures |r| == |xs|
    ensures multiset(r) == multiset(xs)
    decreases |xs|
  {
    if xs == [] then []
    else
      assert xs == [xs[0]] + xs[1..];
      Insert(xs[0], Sort(xs[1..]))
  }

  /** The sort leaves every key in order and every element exactly as often as before. */
  lemma {:induction false} SortSorted<T>(xs: seq<(SortKey, T)>)
    ensures Sorted(Sort(xs))
    ensures multiset(Sort(xs)) == multiset(xs)
    decreases |xs|
  {
    if xs != [] {
      SortSorted(xs[1..]);
      InsertSorted(xs[0], Sort(xs[1..]));
    }
  }

  /** An input already in order comes back unchanged: the sort is stable. */
  lemma {:induction false} SortIdentity<T>(xs: seq<(SortKey, T)>)
    requires Sorted(xs)
    ensures Sort(xs) == xs
    decreases |xs|
  {
    if xs != [] {
      assert Sorted(xs[1..]) by {
        forall i, j | 0 <= i < j < |xs[1..]| ensures KeyLe(xs[1..][i].0, xs[1..][j].0) {
          assert xs[1..][i] == xs[i + 1] && xs[1..][j] == xs[j + 1];
        }
      }
      SortIdentity(xs[1..]);
      assert xs == [xs[0]] + xs[1..];
      if |xs| > 1 {
        assert KeyLe(xs[0].0, xs[1].0);
      }
    }
  }

  /** Keys in order between neighbours are in order throughout. */
  lemma AdjacentSorted<T>(xs: seq<(SortKey, T)>)
    requires forall i | 0 <= i < |xs| - 1 :: KeyLe(xs[i].0, xs[i + 1].0)
    ensures Sorted(xs)
  {
    forall i, j | 0 <= i < j < |xs| ensures KeyLe(xs[i].0, xs[j].0) {
      Chain(xs, i, j);
    }
  }

  lemma {:induction false} Chain<T>(xs: seq<(SortKey, T)>, i: nat, j: nat)
    requires forall k | 0 <= k < |xs| - 1 :: KeyLe(xs[k].0, xs[k + 1].0)
    requires i < j < |xs|
    ensures KeyLe(xs[i].0, xs[j].0)
    decreases j - i
  {
    if j > i + 1 {
      Chain(xs, i, j - 1);
      KeyLeTransitive(xs[i].0, xs[j - 1].0, xs[j].0);
    }
  }
}
