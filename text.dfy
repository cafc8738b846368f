/**
 * The Python string operations the modelled code relies on, as functions on
 * `seq<char>`: strip/lstrip/rstrip, split on one character, replace of one
 * character, count, index and startswith.
 */
module Text {

  /** Python 2.7's `unicode.isspace`: the characters strip() and rstrip() remove. */
  predicate IsSpace(c: char) {
    var n := c as int;
    (9 <= n <= 13) || (28 <= n <= 32) || n == 0x85 || n == 0xA0 || n == 0x1680 || n == 0x180E
    || (0x2000 <= n <= 0x200A) || n == 0x2028 || n == 0x2029 || n == 0x202F || n == 0x205F
    || n == 0x3000
  }

  /** `s.lstrip()`: the longest whitespace prefix removed. */
  function LStrip(s: string): (r: string)
    ensures |r| <= |s| && r == s[|s| - |r|..]
    ensures r == [] || !IsSpace(r[0])
  {
    if s != [] && IsSpace(s[0]) then LStrip(s[1..]) else s
  }

  /** What lstrip() removes is whitespace only. */
  lemma {:induction false} LStripRemovesSpaces(s: string)
    ensures forall i | 0 <= i < |s| - |LStrip(s)| :: IsSpace(s[i])
  {
    if s != [] && IsSpace(s[0]) {
      LStripRemovesSpaces(s[1..]);
      assert forall i | 1 <= i < |s| :: s[i] == s[1..][i - 1];
    }
  }

  /** `s.rstrip()`: the longest whitespace suffix removed. */
  function RStrip(s: string): (r: string)
    ensures |r| <= |s| && r == s[..|r|]
    ensures r == [] || !IsSpace(r[|r| - 1])
  {
    if s != [] && IsSpace(s[|s| - 1]) then RStrip(s[..|s| - 1]) else s
  }

  /** What rstrip() removes is whitespace only. */
  lemma {:induction false} RStripRemovesSpaces(s: string)
    ensures forall i | |RStrip(s)| <= i < |s| :: IsSpace(s[i])
  {
    if s != [] && IsSpace(s[|s| - 1]) {
      RStripRemovesSpaces(s[..|s| - 1]);
    }
  }

  lemma LStripUnchanged(s: string)
    requires s == [] || !IsSpace(s[0])
    ensures LStrip(s) == s
  {
  }

  /** strip() keeps a piece of its input: every character left was there. */
  lemma StripInside(s: string)
    ensures forall c | c in Strip(s) :: c in s
  {
    var l := LStrip(s);
    var r := RStrip(l);
    forall k | 0 <= k < |r| ensures r[k] in s {
      assert r[k] == l[k] == s[|s| - |l| + k];
    }
  }

  /** `r` is the piece of `s` from `k`, with only whitespace before and after it. */
  predicate TrimmedAt(r: string, s: string, k: nat) {
    k + |r| <= |s|
    && r == s[k..k + |r|]
    && (forall j | 0 <= j < k :: IsSpace(s[j]))
    && (forall j | k + |r| <= j < |s| :: IsSpace(s[j]))
  }

  /** `r` is `s` with only whitespace cut from either end. */
  predicate TrimmedOf(r: string, s: string) {
    exists k: nat | k <= |s| :: TrimmedAt(r, s, k)
  }

  /** strip() cuts whitespace from the ends and nothing else. */
  lemma StripTrimmed(s: string)
    ensures TrimmedOf(Strip(s), s)
  {
    var l := LStrip(s);
    var r := RStrip(l);
    var k := |s| - |l|;
    assert l == s[k..];
    assert r == l[..|r|];
    LStripRemovesSpaces(s);
    RStripRemovesSpaces(l);
    assert r == s[k..k + |r|];
    forall j | k + |r| <= j < |s| ensures IsSpace(s[j]) {
      assert s[j] == l[j - k];
    }
    assert TrimmedAt(r, s, k);
  }

  lemma StripUnchanged(s: string)
    requires s != [] && !IsSpace(s[0]) && !IsSpace(s[|s| - 1])
    ensures Strip(s) == s
  {
    LStripUnchanged(s);
  }

  /** `s.strip()`: whitespace removed from both ends. */
  function Strip(s: string): (r: string)
    ensures |r| <= |s|
    ensures r == [] || (!IsSpace(r[0]) && !IsSpace(r[|r| - 1]))
  {
    RStrip(LStrip(s))
  }

  /** `s.count(c)` for a one-character `c`. */
  function Count(s: string, c: char): (n: nat)
    ensures n <= |s|
  {
    if s == [] then 0 else (if s[0] == c then 1 else 0) + Count(s[1..], c)
  }

  /** `c` occurs exactly when it is counted. */
  lemma {:induction false} CountZero(s: string, c: char)
    ensures Count(s, c) == 0 <==> c !in s
  {
    if s != [] {
      CountZero(s[1..], c);
      assert s == [s[0]] + s[1..];
    }
  }

  lemma {:induction false} CountAppend(a: string, b: string, c: char)
    ensures Count(a + b, c) == Count(a, c) + Count(b, c)
  {
    if a != [] {
      assert (a + b)[0] == a[0] && (a + b)[1..] == a[1..] + b;
      CountAppend(a[1..], b, c);
    } else {
      assert a + b == b;
    }
  }

  /** `s.index(c)`: the position of the first `c`. */
  function IndexOf(s: string, c: char): (r: nat)
    requires c in s
    ensures r < |s| && s[r] == c
    ensures forall j | 0 <= j < r :: s[j] != c
  {
    if s[0] == c then 0 else 1 + IndexOf(s[1..], c)
  }

  /** `s.replace(c, "")`: every `c` deleted. */
  function Remove(s: string, c: char): (r: string)
    ensures |r| <= |s|
  {
    if s == [] then [] else (if s[0] == c then [] else [s[0]]) + Remove(s[1..], c)
  }

  /** Deleting every `c` keeps exactly the other characters. */
  lemma {:induction false} RemoveMembers(s: string, c: char)
    ensures forall d :: d in Remove(s, c) <==> d in s && d != c
  {
    if s != [] {
      RemoveMembers(s[1..], c);
      assert s == [s[0]] + s[1..];
    }
  }

  lemma {:induction false} RemoveAppend(a: string, b: string, c: char)
    ensures Remove(a + b, c) == Remove(a, c) + Remove(b, c)
  {
    if a != [] {
      assert (a + b)[0] == a[0] && (a + b)[1..] == a[1..] + b;
      RemoveAppend(a[1..], b, c);
    } else {
      assert a + b == b;
    }
  }

  lemma {:induction false} RemoveAbsent(s: string, c: char)
    requires c !in s
    ensures Remove(s, c) == s
  {
    if s != [] {
      assert c !in s[1..];
      RemoveAbsent(s[1..], c);
    }
  }

  /** Deleting the one `c` that sits between two pieces without `c`. */
  lemma RemoveBetween(a: string, b: string, c: char)
    requires c !in a && c !in b
    ensures Remove(a + [c] + b, c) == a + b
  {
    assert a + [c] + b == a + ([c] + b);
    assert Remove(a + ([c] + b), c) == a + Remove([c] + b, c) by {
      RemoveAppend(a, [c] + b, c);
      RemoveAbsent(a, c);
    }
    assert Remove([c] + b, c) == b by {
      RemoveAppend([c], b, c);
      RemoveAbsent(b, c);
      assert Remove([c], c) == [];
    }
  }

  /** `s.replace(c, d)` for one-character `c` and `d`. */
  function Replace(s: string, c: char, d: char): (r: string)
    ensures |r| == |s|
  {
    if s == [] then [] else [if s[0] == c then d else s[0]] + Replace(s[1..], c, d)
  }

  /** Every `c` becomes `d` and every other character stays. */
  lemma {:induction false} ReplaceMembers(s: string, c: char, d: char)
    ensures forall x :: x in Replace(s, c, d) <==> (x in s && x != c) || (x == d && c in s)
  {
    if s != [] {
      ReplaceMembers(s[1..], c, d);
      assert s == [s[0]] + s[1..];
    }
  }

  lemma {:induction false} ReplaceAppend(a: string, b: string, c: char, d: char)
    ensures Replace(a + b, c, d) == Replace(a, c, d) + Replace(b, c, d)
  {
    if a != [] {
      assert (a + b)[0] == a[0] && (a + b)[1..] == a[1..] + b;
      ReplaceAppend(a[1..], b, c, d);
    } else {
      assert a + b == b;
    }
  }

  lemma {:induction false} ReplaceAbsent(s: string, c: char, d: char)
    requires c !in s
    ensures Replace(s, c, d) == s
  {
    if s != [] {
      assert c !in s[1..];
      ReplaceAbsent(s[1..], c, d);
    }
  }

  /** Rewriting the one `c` that sits between two pieces without `c`. */
  lemma ReplaceBetween(a: string, b: string, c: char, d: char)
    requires c !in a && c !in b
    ensures Replace(a + [c] + b, c, d) == a + [d] + b
  {
    assert Replace(a + [c] + b, c, d) == Replace(a, c, d) + Replace([c], c, d) + Replace(b, c, d) by {
      ReplaceAppend(a + [c], b, c, d);
      ReplaceAppend(a, [c], c, d);
    }
    ReplaceAbsent(a, c, d);
    ReplaceAbsent(b, c, d);
    assert Replace([c], c, d) == [d];
  }

  /** `s.replace(c, "", 1)`: the first `c` deleted, if there is one. */
  function RemoveFirst(s: string, c: char): (r: string)
    ensures c in s ==> |r| == |s| - 1 && Count(r, c) == Count(s, c) - 1
    ensures c !in s ==> r == s
  {
    if c in s then
      var i := IndexOf(s, c);
      assert s == s[..i] + [c] + s[i + 1..];
      CountAppend(s[..i] + [c], s[i + 1..], c);
      CountAppend(s[..i], s[i + 1..], c);
      CountAppend(s[..i], [c], c);
      s[..i] + s[i + 1..]
    else s
  }

  /** `s.startswith(p)`. */
  predicate StartsWith(s: string, p: string) {
    |p| <= |s| && s[..|p|] == p
  }

  /** The slice `s[n:]`, which is empty when `n` is past the end. */
  function Drop(s: string, n: nat): (r: string)
    ensures |r| <= |s| && r == s[|s| - |r|..]
  {
    if n <= |s| then s[n..] else []
  }

  /** `s.split(c, 1)[0]`: the text before the first `c`, or all of `s`. */
  function BeforeFirst(s: string, c: char): (r: string)
    ensures c !in r && |r| <= |s| && r == s[..|r|]
    ensures |r| < |s| ==> s[|r|] == c
  {
    if c in s then s[..IndexOf(s, c)] else s
  }

  /** `sep.join(parts)` for a one-character separator. */
  function Join(parts: seq<string>, sep: char): string {
    if parts == [] then [] else if |parts| == 1 then parts[0] else parts[0] + [sep] + Join(parts[1..], sep)
  }

  /** `s.split(sep)`: the pieces between the separators, always at least one. */
  function Split(s: string, sep: char): (r: seq<string>)
    ensures |r| >= 1
    ensures forall p | p in r :: sep !in p
    ensures Join(r, sep) == s
    decreases |s|
  {
    if sep !in s then [s]
    else
      var i := IndexOf(s, sep);
      assert s == s[..i] + [sep] + s[i + 1..];
      [s[..i]] + Split(s[i + 1..], sep)
  }

  /** Splitting undoes joining pieces that do not contain the separator. */
  lemma {:induction false} SplitJoin(parts: seq<string>, sep: char)
    requires |parts| >= 1
    requires forall p | p in parts :: sep !in p
    ensures Split(Join(parts, sep), sep) == parts
  {
    if |parts| > 1 {
      var head, rest := parts[0], Join(parts[1..], sep);
      assert sep !in head by { assert head in parts; }
      var s := head + [sep] + rest;
      assert Join(parts, sep) == s;
      forall j | 0 <= j < |head| ensures s[j] != sep {
        assert s[j] == head[j];
      }
      IndexOfFirst(s, sep, |head|);
      assert s[..|head|] == head && s[|head| + 1..] == rest;
      forall p | p in parts[1..] ensures sep !in p {
        assert p in parts;
      }
      SplitJoin(parts[1..], sep);
      assert Split(s, sep) == [head] + Split(rest, sep);
    } else {
      assert Join(parts, sep) == parts[0];
    }
  }

  lemma IndexOfFirst(s: string, c: char, k: nat)
    requires k < |s| && s[k] == c
    requires forall j | 0 <= j < k :: s[j] != c
    ensures IndexOf(s, c) == k
  {
  }
}
