/**
 * The dictionary keyed by date strings: a lookup that falls back to the
 * latest key before the requested date, and a missing-key hook that
 * memoises the answer for the "no date given" query.
 */
module DateKeys {
  import opened Results

  /** Python's `<` on unicode strings: code point by code point, a proper prefix first. */
  predicate LexLess(a: string, b: string)
    decreases |a|
  {
    |b| > 0 && (|a| == 0 || a[0] < b[0] || (a[0] == b[0] && LexLess(a[1..], b[1..])))
  }

  lemma {:induction false} LexLessIrreflexive(a: string)
    ensures !LexLess(a, a)
    decreases |a|
  {
    if |a| > 0 {
      LexLessIrreflexive(a[1..]);
    }
  }

  lemma {:induction false} LexLessTransitive(a: string, b: string, c: string)
    requires LexLess(a, b) && LexLess(b, c)
    ensures LexLess(a, c)
    decreases |a|
  {
    if |a| > 0 && a[0] == b[0] && b[0] == c[0] {
      LexLessTransitive(a[1..], b[1..], c[1..]);
    }
  }

  /** Two different strings are ordered one way or the other, never both. */
  lemma {:induction false} LexLessTotal(a: string, b: string)
    ensures a == b || LexLess(a, b) || LexLess(b, a)
    ensures !(LexLess(a, b) && LexLess(b, a))
    decreases |a|
  {
    if |a| > 0 && |b| > 0 && a[0] == b[0] {
      LexLessTotal(a[1..], b[1..]);
      if a[1..] == b[1..] {
        assert a == [a[0]] + a[1..] && b == [b[0]] + b[1..];
      }
    }
  }

  /** A key of the dictionary: a date string, or `None` once it has been memoised. */
  type Key = Option<string>

  /** Python 2 puts `None` below every string. */
  predicate KeyLess(a: Key, b: Key) {
    match (a, b)
    case (None, Some(_)) => true
    case (Some(x), Some(y)) => LexLess(x, y)
    case (_, None) => false
  }

  lemma KeyLessOrder(a: Key, b: Key, c: Key)
    ensures !KeyLess(a, a)
    ensures a == b || KeyLess(a, b) || KeyLess(b, a)
    ensures !(KeyLess(a, b) && KeyLess(b, a))
    ensures KeyLess(a, b) && KeyLess(b, c) ==> KeyLess(a, c)
  {
    if a.Some? {
      LexLessIrreflexive(a.value);
    }
    if a.Some? && b.Some? {
      LexLessTotal(a.value, b.value);
    }
    if a.Some? && b.Some? && c.Some? && KeyLess(a, b) && KeyLess(b, c) {
      LexLessTransitive(a.value, b.value, c.value);
    }
  }

  /** The date compared against: the request's, or the current time when none is given. */
  function Query(data: Key, now: string): string {
    if data.None? then now else data.value
  }

  /** `k` is the greatest key below `q`. */
  predicate IsLatestBefore(keys: set<Key>, q: string, k: Key) {
    k in keys && KeyLess(k, Some(q)) && forall k2 | k2 in keys && KeyLess(k2, Some(q)) :: k2 == k || KeyLess(k2, k)
  }

  predicate NothingBefore(keys: set<Key>, q: string) {
    forall k | k in keys :: !KeyLess(k, Some(q))
  }

  /** There is only one greatest key below a date. */
  lemma LatestBeforeUnique(keys: set<Key>, q: string, k1: Key, k2: Key)
    requires IsLatestBefore(keys, q, k1) && IsLatestBefore(keys, q, k2)
    ensures k1 == k2
  {
    KeyLessOrder(k1, k2, k1);
  }

  class DateStrKeyDict<V> {
    var m: map<Key, V>

    constructor(entries: map<Key, V>)
      ensures m == entries
    {
      m := entries;
    }

    /**
     * encontra_data_base: the key itself when present; otherwise the
     * greatest key below the date (the current time standing in for a
     * missing date); ValueError when no key is below it.
     */
    method EncontraDataBase(data: Key, now: string) returns (r: Result<Key>)
      ensures data in m ==> r == Ok(data)
      ensures data !in m && r.Ok? ==> IsLatestBefore(m.Keys, Query(data, now), r.value)
      ensures data !in m ==> (r.Err? <==> NothingBefore(m.Keys, Query(data, now)))
      ensures r.Err? ==> r.error == ValueError
    {
      if data in m {
        return Ok(data);
      }
      var q := Query(data, now);
      var rest := m.Keys;
      var best: Option<Key> := None;
      while rest != {}
        invariant rest <= m.Keys
        invariant best.Some? ==> best.value in m.Keys - rest && KeyLess(best.value, Some(q))
        invariant best.Some? ==> forall k | k in m.Keys - rest && KeyLess(k, Some(q)) :: k == best.value || KeyLess(k, best.value)
        invariant best.None? ==> forall k | k in m.Keys - rest :: !KeyLess(k, Some(q))
        decreases |rest|
      {
        var k :| k in rest;
        if KeyLess(k, Some(q)) && (best.None? || KeyLess(best.value, k)) {
          forall k2 | k2 in m.Keys - rest && KeyLess(k2, Some(q)) ensures k2 == k || KeyLess(k2, k) {
            KeyLessOrder(k2, best.value, k);
          }
          best := Some(k);
        } else if best.Some? && KeyLess(k, Some(q)) {
          KeyLessOrder(k, best.value, k);
        }
        rest := rest - {k};
      }
      if best.None? {
        return Err(ValueError);
      }
      return Ok(best.value);
    }

    /**
     * __missing__: the value stored under the resolved key; only a `None`
     * query is stored back, under `None`, and nothing else changes.
     */
    method Missing(data: Key, now: string) returns (r: Result<V>)
      modifies this
      ensures r.Ok? <==> old(data in m) || !NothingBefore(old(m).Keys, Query(data, now))
      ensures r.Ok? && old(data !in m) ==>
        exists k :: IsLatestBefore(old(m).Keys, Query(data, now), k) && r.value == old(m)[k]
      ensures r.Ok? && old(data in m) ==> r.value == old(m)[data]
      ensures data.None? && r.Ok? ==> m == old(m)[None := r.value]
      ensures data.Some? || r.Err? ==> m == old(m)
    {
      var base := EncontraDataBase(data, now);
      if base.Err? {
        return Err(base.error);
      }
      var resultado := m[base.value];
      if data.None? {
        m := m[None := resultado];
      }
      return Ok(resultado);
    }

    /** `self[data]`: the stored value, or whatever __missing__ makes of the key. */
    method Get(data: Key, now: string) returns (r: Result<V>)
      modifies this
      ensures old(data in m) ==> r == Ok(old(m)[data]) && m == old(m)
      ensures old(data !in m) && r.Ok? ==>
        exists k :: IsLatestBefore(old(m).Keys, Query(data, now), k) && r.value == old(m)[k]
      ensures old(data !in m) ==> (r.Err? <==> NothingBefore(old(m).Keys, Query(data, now)))
      ensures data.None? && r.Ok? ==> m == old(m)[None := r.value]
      ensures data.Some? || r.Err? ==> m == old(m)
    {
      if data in m {
        return Ok(m[data]);
      }
      r := Missing(data, now);
    }
  }
}
