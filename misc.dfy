/**
 * `currency2float` (misc.py): the normalisation of a Brazilian-formatted money
 * string up to the text handed to `float()`.
 */
module Misc {
  import opened Results
  import opened Text
  import opened Floats

  /** What reaches the end of currency2float: the empty string (returned as 0.) or the text given to float(). */
  datatype Normalised = Zero | Numeral(text: string)

  /**
   * Lines 30-32: surrounding whitespace and every space removed; then, when the
   * text starts with the currency symbol, its first TWO characters dropped
   * (whatever the symbol's length) and the whitespace after them.
   */
  function Trim(val: string, currency: string): (r: string)
    ensures ' ' !in r
  {
    RemoveMembers(Strip(val), ' ');
    var v := Remove(Strip(val), ' ');
    if StartsWith(v, currency) then DropSymbol(v) else v
  }

  /** Line 32: `val[2:].lstrip()`. */
  function DropSymbol(v: string): (r: string)
    ensures forall d | d in r :: d in v
  {
    var w := LStrip(Drop(v, 2));
    assert forall i | 0 <= i < |w| :: w[i] == v[|v| - |w| + i];
    w
  }

  /** `min(".,", key=val.index)`: whichever separator occurs first. */
  function FirstSeparator(v: string): (c: char)
    requires '.' in v && ',' in v
    ensures c == '.' || c == ','
    ensures IndexOf(v, c) < IndexOf(v, OtherSeparator(c))
  {
    assert IndexOf(v, '.') != IndexOf(v, ',');
    if IndexOf(v, '.') < IndexOf(v, ',') then '.' else ','
  }

  /** The separator that is not `c`. */
  function OtherSeparator(c: char): char {
    if c == '.' then ',' else '.'
  }

  /**
   * Lines 33-36: when both separators occur, every occurrence of the one that
   * comes first is deleted (it is read as the thousands separator); then each
   * remaining comma becomes a point.
   */
  function ResolveSeparators(v: string): (r: string)
    ensures ',' !in r
    ensures r == [] <==> v == []
    ensures forall d | d in r :: d in v || d == '.'
  {
    var both := '.' in v && ',' in v;
    var w := if both then Remove(v, FirstSeparator(v)) else v;
    assert both ==> forall d :: d in w <==> d in v && d != FirstSeparator(v) by {
      if both { RemoveMembers(v, FirstSeparator(v)); }
    }
    assert both ==> OtherSeparator(FirstSeparator(v)) in w;
    assert forall x :: x in Replace(w, ',', '.') <==> (x in w && x != ',') || (x == '.' && ',' in w) by {
      ReplaceMembers(w, ',', '.');
    }
    if ',' in w then Replace(w, ',', '.') else w
  }

  /** Text without a comma has no separator to resolve. */
  lemma ResolveWithoutComma(v: string)
    requires ',' !in v
    ensures ResolveSeparators(v) == v
  {
  }

  /** Line 36 on text without a point: each comma becomes the decimal point. */
  lemma ResolveOnlyComma(v: string)
    requires '.' !in v
    ensures ResolveSeparators(v) == Replace(v, ',', '.')
  {
    if ',' !in v {
      ReplaceAbsent(v, ',', '.');
    }
  }

  /**
   * currency2float as written (lines 28-42, without the final float()): when
   * more than one point survives, line 39 calls `".".join` with two arguments,
   * which raises TypeError.
   */
  function Currency2FloatAsWritten(val: string, currency: string): (r: Result<Normalised>)
    ensures r.Err? ==> r.error == TypeError
    ensures r.Ok? ==> r.value == Currency2Float(val, currency)
  {
    var v := ResolveSeparators(Trim(val, currency));
    if Count(v, '.') > 1 then Err(TypeError)
    else if v == [] then Ok(Zero)
    else Ok(Numeral(v))
  }

  /** What line 39 evidently means: keep the first point and delete the others. */
  function CollapsePoints(v: string): (r: string)
    requires '.' in v
    ensures Count(r, '.') == 1
    ensures forall d | d in r :: d in v
  {
    var i := IndexOf(v, '.');
    var tail := v[i + 1..];
    assert '.' !in v[..i] by {
      forall j | 0 <= j < i ensures v[..i][j] != '.' { }
    }
    assert Count(v[..i] + ['.'] + Remove(tail, '.'), '.') == 1 by {
      RemoveMembers(tail, '.');
      CountZero(Remove(tail, '.'), '.');
      CountZero(v[..i], '.');
      CountAppend(v[..i] + ['.'], Remove(tail, '.'), '.');
      CountAppend(v[..i], ['.'], '.');
    }
    assert forall d | d in Remove(tail, '.') :: d in v by {
      RemoveMembers(tail, '.');
      assert v == v[..i] + ['.'] + tail;
    }
    v[..i] + ['.'] + Remove(tail, '.')
  }

  /** The point kept is the first one: everything up to it stays, and no point follows it. */
  lemma CollapsePointsKeepsFirst(v: string)
    requires '.' in v
    ensures var i, r := IndexOf(v, '.'), CollapsePoints(v);
      |r| > i && r[..i + 1] == v[..i + 1] && '.' !in r[i + 1..]
  {
    var i := IndexOf(v, '.');
    var tail := v[i + 1..];
    var r := CollapsePoints(v);
    assert r == v[..i] + ['.'] + Remove(tail, '.');
    assert r[..i + 1] == v[..i] + ['.'] == v[..i + 1];
    assert r[i + 1..] == Remove(tail, '.');
    RemoveMembers(tail, '.');
  }

  /** Collapsing the points deletes points only. */
  lemma CollapsePointsKeepsDigits(v: string)
    requires '.' in v
    ensures NoSeparators(CollapsePoints(v)) == NoSeparators(v)
  {
    var i := IndexOf(v, '.');
    var tail := v[i + 1..];
    assert v == v[..i] + ['.'] + tail;
    NoSeparatorsAppend(v[..i] + ['.'], Remove(tail, '.'));
    NoSeparatorsAppend(v[..i] + ['.'], tail);
    NoSeparatorsAppend(v[..i], ['.']);
    NoSeparatorsRemove(tail, '.');
  }

  /**
   * currency2float as evidently intended (lines 28-42 with line 39 collapsing
   * the extra points): it never fails, and the text it hands to float() is
   * non-empty, has no comma, no space and at most one point.
   */
  function Currency2Float(val: string, currency: string): (r: Normalised)
    ensures r.Numeral? ==> r.text != [] && ',' !in r.text && ' ' !in r.text && Count(r.text, '.') <= 1
    ensures r.Zero? <==> Trim(val, currency) == []
  {
    var v := ResolveSeparators(Trim(val, currency));
    assert Count(v, '.') > 1 ==> '.' in v by {
      CountZero(v, '.');
    }
    var w := if Count(v, '.') > 1 then CollapsePoints(v) else v;
    if w == [] then Zero else Numeral(w)
  }

  /** The text without its separators: the digits, sign and anything else. */
  function NoSeparators(s: string): (r: string)
    ensures '.' !in r && ',' !in r
  {
    if s == [] then [] else (if s[0] == '.' || s[0] == ',' then [] else [s[0]]) + NoSeparators(s[1..])
  }

  lemma {:induction false} NoSeparatorsAppend(a: string, b: string)
    ensures NoSeparators(a + b) == NoSeparators(a) + NoSeparators(b)
  {
    if a != [] {
      assert (a + b)[0] == a[0] && (a + b)[1..] == a[1..] + b;
      NoSeparatorsAppend(a[1..], b);
    } else {
      assert a + b == b;
    }
  }

  lemma {:induction false} NoSeparatorsRemove(s: string, c: char)
    requires c == '.' || c == ','
    ensures NoSeparators(Remove(s, c)) == NoSeparators(s)
  {
    if s != [] {
      var head := if s[0] == c then [] else [s[0]];
      NoSeparatorsAppend(head, Remove(s[1..], c));
      NoSeparatorsRemove(s[1..], c);
    }
  }

  lemma {:induction false} NoSeparatorsReplace(s: string)
    ensures NoSeparators(Replace(s, ',', '.')) == NoSeparators(s)
  {
    if s != [] {
      var head := [if s[0] == ',' then '.' else s[0]];
      NoSeparatorsAppend(head, Replace(s[1..], ',', '.'));
      NoSeparatorsReplace(s[1..]);
    }
  }

  lemma {:induction false} CountRemoveOther(s: string, c: char, d: char)
    requires c != d
    ensures Count(Remove(s, c), d) == Count(s, d)
  {
    if s != [] {
      var head := if s[0] == c then [] else [s[0]];
      CountAppend(head, Remove(s[1..], c), d);
      CountRemoveOther(s[1..], c, d);
    }
  }

  lemma {:induction false} CountReplace(s: string)
    ensures Count(Replace(s, ',', '.'), '.') == Count(s, '.') + Count(s, ',')
  {
    if s != [] {
      var head := [if s[0] == ',' then '.' else s[0]];
      CountAppend(head, Replace(s[1..], ',', '.'), '.');
      CountReplace(s[1..]);
    }
  }

  /** Resolving the separators deletes or rewrites separators only. */
  lemma ResolveSeparatorsKeepsDigits(v: string)
    ensures NoSeparators(ResolveSeparators(v)) == NoSeparators(v)
  {
    var w := if '.' in v && ',' in v then Remove(v, FirstSeparator(v)) else v;
    if '.' in v && ',' in v { NoSeparatorsRemove(v, FirstSeparator(v)); }
    if ',' in w { NoSeparatorsReplace(w); }
  }

  /**
   * How many points survive the separator resolution, read off the trimmed
   * input: the occurrences of the later separator when both occur, otherwise
   * the occurrences of whichever separator there is.
   */
  function SurvivingSeparators(t: string): nat {
    if '.' in t && ',' in t then Count(t, OtherSeparator(FirstSeparator(t)))
    else Count(t, '.') + Count(t, ',')
  }

  lemma ResolveSeparatorsPoints(v: string)
    ensures Count(ResolveSeparators(v), '.') == SurvivingSeparators(v)
  {
    if '.' in v && ',' in v {
      var c := FirstSeparator(v);
      var w := Remove(v, c);
      RemoveMembers(v, c);
      CountRemoveOther(v, c, OtherSeparator(c));
      CountZero(w, c);
      if ',' in w { CountReplace(w); }
    } else {
      CountZero(v, '.');
      CountZero(v, ',');
      if ',' in v { CountReplace(v); }
    }
  }

  /**
   * The normalised text keeps every character of the trimmed input other
   * than the separators, in order: no digit is lost or added.
   */
  lemma Currency2FloatKeepsDigits(val: string, currency: string)
    ensures Currency2Float(val, currency).Numeral? ==>
              NoSeparators(Currency2Float(val, currency).text) == NoSeparators(Trim(val, currency))
  {
    var v := ResolveSeparators(Trim(val, currency));
    ResolveSeparatorsKeepsDigits(Trim(val, currency));
    if Count(v, '.') > 1 {
      CountZero(v, '.');
      CollapsePointsKeepsDigits(v);
    }
  }

  /**
   * The code as written fails exactly when the separator that survives occurs
   * more than once in the trimmed input ("1.234.567", "1,234,567").
   */
  lemma Currency2FloatAsWrittenFails(val: string, currency: string)
    ensures Currency2FloatAsWritten(val, currency).Err? <==> SurvivingSeparators(Trim(val, currency)) > 1
  {
    ResolveSeparatorsPoints(Trim(val, currency));
  }

  /** A run of decimal digits. */
  predicate Digits(s: string) {
    s != [] && '0' <= s[0] <= '9' && (|s| == 1 || Digits(s[1..]))
  }

  lemma {:induction false} DigitsHaveNoMarks(s: string)
    requires Digits(s)
    ensures ' ' !in s && '.' !in s && ',' !in s
    ensures '0' <= s[0] <= '9' && '0' <= s[|s| - 1] <= '9'
    ensures !IsSpace(s[0]) && !IsSpace(s[|s| - 1])
  {
    if |s| > 1 {
      DigitsHaveNoMarks(s[1..]);
      assert s == [s[0]] + s[1..];
    }
  }

  /** Text that is already trimmed and does not start with the symbol is left alone. */
  lemma TrimUnchanged(s: string, currency: string)
    requires s != [] && !IsSpace(s[0]) && !IsSpace(s[|s| - 1]) && ' ' !in s
    requires currency != [] && s[0] != currency[0]
    ensures Trim(s, currency) == s
  {
    StripUnchanged(s);
    RemoveAbsent(s, ' ');
    assert !StartsWith(s, currency) by {
      if |currency| <= |s| {
        assert s[..|currency|][0] == s[0];
      }
    }
  }

  /** Lines 30-36 leave an amount written with two points unchanged. */
  lemma TwoPointsNormalised(a: string, b: string, c: string, currency: string)
    requires a != [] && c != [] && !IsSpace(a[0]) && !IsSpace(c[|c| - 1])
    requires ' ' !in a && '.' !in a && ',' !in a && ' ' !in b && '.' !in b && ',' !in b
    requires ' ' !in c && '.' !in c && ',' !in c
    requires currency != [] && a[0] != currency[0]
    ensures ResolveSeparators(Trim(a + "." + b + "." + c, currency)) == a + "." + b + "." + c
    ensures Count(a + "." + b + "." + c, '.') == 2
  {
    var s := a + "." + b + "." + c;
    assert Trim(s, currency) == s by {
      assert s[0] == a[0] && s[|s| - 1] == c[|c| - 1];
      AbsentAround(a, '.', b, '.', c, ' ');
      TrimUnchanged(s, currency);
    }
    assert ResolveSeparators(s) == s by {
      AbsentAround(a, '.', b, '.', c, ',');
      ResolveWithoutComma(s);
    }
    CountTwoPoints(a, b, c);
  }

  lemma AbsentAround(a: string, p: char, b: string, q: char, c: string, x: char)
    requires x != p && x != q && x !in a && x !in b && x !in c
    ensures x !in a + [p] + b + [q] + c
  {
    assert x !in a + [p];
    assert x !in a + [p] + b;
    assert x !in a + [p] + b + [q];
  }

  lemma CountTwoPoints(a: string, b: string, c: string)
    requires '.' !in a && '.' !in b && '.' !in c
    ensures Count(a + "." + b + "." + c, '.') == 2
  {
    CountZero(a, '.');
    CountZero(b, '.');
    CountZero(c, '.');
    assert Count(a + ".", '.') == 1 by {
      CountAppend(a, ".", '.');
    }
    assert Count(a + "." + b, '.') == 1 by {
      CountAppend(a + ".", b, '.');
    }
    assert Count(a + "." + b + ".", '.') == 2 by {
      CountAppend(a + "." + b, ".", '.');
    }
    CountAppend(a + "." + b + ".", c, '.');
  }

  /** Line 39 as intended, on an amount written with two points. */
  lemma CollapseTwoPoints(a: string, b: string, c: string)
    requires '.' !in a && '.' !in b && '.' !in c
    ensures '.' in a + "." + b + "." + c
    ensures CollapsePoints(a + "." + b + "." + c) == a + "." + b + c
  {
    var s := a + "." + b + "." + c;
    var tail := b + "." + c;
    assert s[..|a|] == a && s[|a| + 1..] == tail by {
      assert s == a + "." + tail;
    }
    assert IndexOf(s, '.') == |a| by {
      IndexOfFirst(s, '.', |a|);
    }
    assert Remove(tail, '.') == b + c by {
      RemoveBetween(b, c, '.');
    }
    assert a + ['.'] + (b + c) == a + "." + b + c;
  }

  /**
   * An amount with two thousands points ("1.234.567"): as written line 39
   * raises TypeError; as intended the first point is kept and the others go.
   */
  lemma RepeatedPoint(a: string, b: string, c: string, currency: string)
    requires Digits(a) && Digits(b) && Digits(c)
    requires currency != [] && !('0' <= currency[0] <= '9')
    ensures Currency2FloatAsWritten(a + "." + b + "." + c, currency) == Err(TypeError)
    ensures Currency2Float(a + "." + b + "." + c, currency) == Numeral(a + "." + b + c)
  {
    DigitsHaveNoMarks(a);
    DigitsHaveNoMarks(b);
    DigitsHaveNoMarks(c);
    TwoPointsNormalised(a, b, c, currency);
    CollapseTwoPoints(a, b, c);
  }

  /** Lines 30-32 on "R$ " followed by text that starts and ends with a digit. */
  lemma TrimSymbolAndSpace(t: string)
    requires t != [] && !IsSpace(t[0]) && !IsSpace(t[|t| - 1]) && ' ' !in t
    ensures Trim("R$ " + t, "R$") == t
  {
    var s := "R$ " + t;
    var v := "R$" + t;
    assert Remove(Strip(s), ' ') == v by {
      assert s == "R$" + [' '] + t;
      assert s[|s| - 1] == t[|t| - 1];
      StripUnchanged(s);
      RemoveBetween("R$", t, ' ');
    }
    assert StartsWith(v, "R$") && Drop(v, 2) == t by {
      assert v[..2] == "R$" && v[2..] == t;
    }
    LStripUnchanged(t);
    TrimUnfold(s, "R$");
  }

  lemma TrimUnfold(val: string, currency: string)
    ensures StartsWith(Remove(Strip(val), ' '), currency) ==>
              Trim(val, currency) == LStrip(Drop(Remove(Strip(val), ' '), 2))
  {
  }

  /** Line 34 on a point before a comma: the point goes, the comma becomes a point. */
  lemma ResolvePointThenComma(a: string, b: string, c: string)
    requires ' ' !in a && '.' !in a && ',' !in a && '.' !in b && ',' !in b && '.' !in c && ',' !in c
    ensures ResolveSeparators(a + "." + b + "," + c) == (a + b) + ['.'] + c
  {
    var t := a + "." + b + "," + c;
    assert '.' in t && IndexOf(t, '.') == |a| by {
      IndexOfFirst(t, '.', |a|);
    }
    assert ',' in t && IndexOf(t, ',') == |a| + 1 + |b| by {
      IndexOfFirst(t, ',', |a| + 1 + |b|);
    }
    assert Remove(t, '.') == (a + b) + [','] + c by {
      assert t == a + ['.'] + (b + "," + c);
      RemoveBetween(a, b + "," + c, '.');
      assert a + (b + "," + c) == (a + b) + [','] + c;
    }
    assert Replace((a + b) + [','] + c, ',', '.') == (a + b) + ['.'] + c by {
      ReplaceBetween(a + b, c, ',', '.');
    }
    ResolveFirstPoint(t);
  }

  /** Line 34 when the comma comes first: every comma goes, and the points stay. */
  lemma ResolveFirstComma(v: string)
    requires '.' in v && ',' in v && FirstSeparator(v) == ','
    ensures ResolveSeparators(v) == Remove(v, ',')
  {
    RemoveMembers(v, ',');
  }

  /** Line 34 when the point comes first: every point goes, then the commas become points. */
  lemma ResolveFirstPoint(v: string)
    requires '.' in v && ',' in v && FirstSeparator(v) == '.'
    ensures ResolveSeparators(v) == Replace(Remove(v, '.'), ',', '.')
  {
    RemoveMembers(v, '.');
  }

  /**
   * A Brazilian amount with the currency symbol ("R$ 1.234,56"): the point
   * is read as the thousands separator and the comma as the decimal one.
   */
  lemma {:induction false} ThousandsPointDecimalComma(a: string, b: string, c: string)
    requires Digits(a) && Digits(b) && Digits(c)
    ensures Currency2Float("R$ " + a + "." + b + "," + c, "R$") == Numeral(a + b + "." + c)
  {
    DigitsHaveNoMarks(a);
    DigitsHaveNoMarks(b);
    DigitsHaveNoMarks(c);
    BrazilianNormalised(a, b, c);
    var w := (a + b) + ['.'] + c;
    assert w == a + b + "." + c;
    Currency2FloatOf("R$ " + a + "." + b + "," + c, "R$", w);
  }

  lemma BrazilianNormalised(a: string, b: string, c: string)
    requires a != [] && c != [] && !IsSpace(a[0]) && !IsSpace(c[|c| - 1])
    requires ' ' !in a && '.' !in a && ',' !in a && ' ' !in b && '.' !in b && ',' !in b
    requires ' ' !in c && '.' !in c && ',' !in c
    ensures ResolveSeparators(Trim("R$ " + a + "." + b + "," + c, "R$")) == (a + b) + ['.'] + c
    ensures Count((a + b) + ['.'] + c, '.') == 1
  {
    TrimBrazilian(a, b, c);
    ResolvePointThenComma(a, b, c);
    OnePoint(a + b, c);
  }

  /** The symbol and the space after it are all that trimming removes from a Brazilian amount. */
  lemma TrimBrazilian(a: string, b: string, c: string)
    requires a != [] && c != [] && !IsSpace(a[0]) && !IsSpace(c[|c| - 1])
    requires ' ' !in a && '.' !in a && ',' !in a && ' ' !in b && '.' !in b && ',' !in b
    requires ' ' !in c && '.' !in c && ',' !in c
    ensures Trim("R$ " + a + "." + b + "," + c, "R$") == a + "." + b + "," + c
  {
    var t := a + "." + b + "," + c;
    assert "R$ " + a + "." + b + "," + c == "R$ " + t;
    assert t[0] == a[0] && t[|t| - 1] == c[|c| - 1];
    AbsentAround(a, '.', b, ',', c, ' ');
    TrimSymbolAndSpace(t);
  }

  /** One point between two point-free pieces is the only point. */
  lemma OnePoint(x: string, c: string)
    requires '.' !in x && '.' !in c
    ensures Count(x + ['.'] + c, '.') == 1
  {
    CountZero(x, '.');
    CountZero(c, '.');
    CountAppend(x, ['.'], '.');
    CountAppend(x + ['.'], c, '.');
  }

  /** currency2float's result read off its normalised text. */
  lemma Currency2FloatOf(val: string, currency: string, w: string)
    requires ResolveSeparators(Trim(val, currency)) == w && w != [] && Count(w, '.') <= 1
    ensures Currency2Float(val, currency) == Numeral(w)
  {
  }

  /**
   * Line 32 drops two characters whatever the symbol's length: with a
   * three-character symbol its last character is left in the text.
   */
  lemma {:induction false} SymbolSliceIsTwoCharacters(d: string)
    requires Digits(d)
    ensures Currency2Float("US$" + d, "US$") == Numeral("$" + d)
  {
    DigitsHaveNoMarks(d);
    var t := "$" + d;
    assert Trim("US$" + d, "US$") == t by {
      TrimDollarSymbol(d);
    }
    assert ResolveSeparators(t) == t by {
      ResolveWithoutComma(t);
    }
    assert Count(t, '.') == 0 by {
      CountZero(t, '.');
    }
  }

  lemma TrimDollarSymbol(d: string)
    requires d != [] && ' ' !in d && !IsSpace(d[|d| - 1])
    ensures Trim("US$" + d, "US$") == "$" + d
  {
    var s := "US$" + d;
    assert s[|s| - 1] == d[|d| - 1] && s[..3] == "US$" && s[2..] == "$" + d;
    assert ' ' !in s;
    TrimStartingWithSymbol(s, "US$");
    LStripUnchanged("$" + d);
  }

  /** Lines 30-32 on text that is already trimmed and starts with the symbol. */
  lemma TrimStartingWithSymbol(s: string, currency: string)
    requires s != [] && !IsSpace(s[0]) && !IsSpace(s[|s| - 1]) && ' ' !in s
    requires StartsWith(s, currency)
    ensures Trim(s, currency) == LStrip(Drop(s, 2))
  {
    StripUnchanged(s);
    RemoveAbsent(s, ' ');
  }

  /**
   * The whole of `currency2float`: `zero` (what `float` makes of 0) for an
   * empty normalised text, otherwise `float` of it, where `float` is the
   * parameter `parse`.
   */
  function Currency2FloatValue<T>(val: string, currency: string, zero: T, parse: string -> Result<T>): Result<T> {
    match Currency2Float(val, currency)
    case Zero => Ok(zero)
    case Numeral(t) => parse(t)
  }
}
