/**
 * The schedule-file reader: comment and blank-line filtering, the numeric
 * field parser, the section/continuation-line parser that builds a
 * dictionary of row lists, and the processor that turns a section's rows
 * into sorted (threshold, payload) brackets joined at midpoints.
 */
module TableReader {
  import opened Results
  import opened Text
  import opened Misc
  import opened Floats
  import opened Sorting

  /** One row of a section: column name to value. */
  type Row = map<string, Num>

  /** Section key to its rows, in file order. */
  type Tables = map<string, seq<Row>>

  // ---------------------------------------------------------------------
  // line_gen

  /** A raw line cut at the first comment symbol and right-stripped. */
  function Cleaned(raw: string, comment: char): (r: string)
    ensures comment !in r
    ensures r == [] || !IsSpace(r[|r| - 1])
  {
    var before := BeforeFirst(raw, comment);
    var r := RStrip(before);
    assert comment !in r by {
      assert r == before[..|r|];
    }
    r
  }

  /** Every raw line cleaned, in order. */
  function Cleans(raw: seq<string>, comment: char): (r: seq<string>)
    ensures |r| == |raw| && forall i | 0 <= i < |raw| :: r[i] == Cleaned(raw[i], comment)
  {
    seq(|raw|, i requires 0 <= i < |raw| => Cleaned(raw[i], comment))
  }

  /** The non-empty lines, in order. */
  function DropEmpty(xs: seq<string>): seq<string>
    decreases |xs|
  {
    if xs == [] then []
    else DropEmpty(xs[..|xs| - 1]) + (if xs[|xs| - 1] != [] then [xs[|xs| - 1]] else [])
  }

  /** The lines line_gen yields from `raw`, in order. */
  function KeptLines(raw: seq<string>, comment: char): seq<string> {
    DropEmpty(Cleans(raw, comment))
  }

  /** One step of KeptLines: the last raw line is kept when its cleaned text is non-empty. */
  lemma KeptLinesLast(raw: seq<string>, comment: char)
    requires raw != []
    ensures KeptLines(raw, comment) == KeptLines(raw[..|raw| - 1], comment) +
      (if Cleaned(raw[|raw| - 1], comment) != [] then [Cleaned(raw[|raw| - 1], comment)] else [])
  {
    assert Cleans(raw, comment)[..|raw| - 1] == Cleans(raw[..|raw| - 1], comment);
  }

  /** KeptLinesLast on the prefix `raw[..i + 1]`, as LineGen's loop needs it. */
  lemma KeptLinesStep(raw: seq<string>, i: nat, comment: char)
    requires i < |raw|
    ensures KeptLines(raw[..i + 1], comment) == KeptLines(raw[..i], comment) +
      (if Cleaned(raw[i], comment) != [] then [Cleaned(raw[i], comment)] else [])
  {
    assert raw[..i + 1][..i] == raw[..i];
    KeptLinesLast(raw[..i + 1], comment);
  }

  /** line_gen as the loop it is: the non-empty cleaned lines, in order. */
  method LineGen(raw: seq<string>, comment: char) returns (lines: seq<string>)
    ensures lines == KeptLines(raw, comment)
  {
    lines := [];
    var i := 0;
    while i < |raw|
      invariant 0 <= i <= |raw|
      invariant lines == KeptLines(raw[..i], comment)
    {
      var line := Cleaned(raw[i], comment);
      if line != [] {
        lines := lines + [line];
      }
      KeptLinesStep(raw, i, comment);
      i := i + 1;
    }
    assert raw[..|raw|] == raw;
  }

  lemma {:induction false} DropEmptyAppend(a: seq<string>, b: seq<string>)
    ensures DropEmpty(a + b) == DropEmpty(a) + DropEmpty(b)
    decreases |b|
  {
    if b == [] {
      assert a + b == a;
    } else {
      var ab, init := a + b, b[..|b| - 1];
      assert ab[..|ab| - 1] == a + init;
      assert ab[|ab| - 1] == b[|b| - 1];
      DropEmptyAppend(a, init);
      var last := if b[|b| - 1] != [] then [b[|b| - 1]] else [];
      var da, di := DropEmpty(a), DropEmpty(init);
      assert DropEmpty(ab) == (da + di) + last;
      assert (da + di) + last == da + (di + last);
    }
  }

  lemma {:induction false} DropEmptySound(xs: seq<string>)
    ensures forall x | x in DropEmpty(xs) :: x != [] && x in xs
    ensures |DropEmpty(xs)| <= |xs|
    decreases |xs|
  {
    if xs != [] {
      var init := xs[..|xs| - 1];
      DropEmptySound(init);
      assert forall x | x in init :: x in xs;
    }
  }

  lemma {:induction false} DropEmptyComplete(xs: seq<string>)
    ensures forall x | x in xs && x != [] :: x in DropEmpty(xs)
    decreases |xs|
  {
    if xs != [] {
      var init := xs[..|xs| - 1];
      DropEmptyComplete(init);
      assert xs == init + [xs[|xs| - 1]];
    }
  }

  /** Filtering a concatenation filters each part: the order of lines is kept. */
  lemma KeptLinesAppend(a: seq<string>, b: seq<string>, comment: char)
    ensures KeptLines(a + b, comment) == KeptLines(a, comment) + KeptLines(b, comment)
  {
    var ca, cb, cab := Cleans(a, comment), Cleans(b, comment), Cleans(a + b, comment);
    forall i | 0 <= i < |cab| ensures cab[i] == (ca + cb)[i] {
      if i < |a| {
        assert (a + b)[i] == a[i];
      } else {
        assert (a + b)[i] == b[i - |a|];
      }
    }
    assert cab == ca + cb;
    DropEmptyAppend(ca, cb);
  }

  /** Every kept line is the non-empty cleaned text of some raw line. */
  lemma KeptLinesSound(raw: seq<string>, comment: char)
    ensures forall line | line in KeptLines(raw, comment) ::
      line != [] && exists i | 0 <= i < |raw| :: line == Cleaned(raw[i], comment)
    ensures |KeptLines(raw, comment)| <= |raw|
  {
    var cs := Cleans(raw, comment);
    DropEmptySound(cs);
    forall line | line in KeptLines(raw, comment)
      ensures line != [] && exists i | 0 <= i < |raw| :: line == Cleaned(raw[i], comment)
    {
      var i :| 0 <= i < |cs| && cs[i] == line;
    }
  }

  /** Every raw line whose cleaned text is non-empty is kept. */
  lemma KeptLinesComplete(raw: seq<string>, comment: char)
    ensures forall i | 0 <= i < |raw| && Cleaned(raw[i], comment) != [] ::
      Cleaned(raw[i], comment) in KeptLines(raw, comment)
  {
    var cs := Cleans(raw, comment);
    DropEmptyComplete(cs);
    forall i | 0 <= i < |raw| && Cleaned(raw[i], comment) != []
      ensures Cleaned(raw[i], comment) in KeptLines(raw, comment)
    {
      assert cs[i] in cs;
    }
  }

  /** No kept line is empty, contains the comment symbol or ends in whitespace. */
  lemma KeptLinesClean(raw: seq<string>, comment: char)
    ensures forall line | line in KeptLines(raw, comment) ::
      line != [] && comment !in line && !IsSpace(line[|line| - 1])
  {
    KeptLinesSound(raw, comment);
    forall line | line in KeptLines(raw, comment)
      ensures line != [] && comment !in line && !IsSpace(line[|line| - 1])
    {
      var i :| 0 <= i < |raw| && line == Cleaned(raw[i], comment);
    }
  }

  // ---------------------------------------------------------------------
  // str_to_float

  /** A field's value; a `%` anywhere makes it a percentage (the first `%` is dropped). */
  function StrToFloat(val: string, parse: string -> Result<Num>): (r: Result<Num>)
  {
    if '%' in val then
      match Currency2FloatValue(RemoveFirst(val, '%'), "R$", Fin(0.0), parse)
      case Ok(x) => Ok(Scale(0.01, x))
      case Err(e) => Err(e)
    else Currency2FloatValue(val, "R$", Fin(0.0), parse)
  }

  /**
   * A field holding a `%` is the hundredth of the currency value of the
   * text around its first `%`; a field without one is a currency value.
   */
  lemma StrToFloatPercent(a: string, b: string, parse: string -> Result<Num>)
    requires '%' !in a
    ensures StrToFloat(a + "%" + b, parse) ==
      match Currency2FloatValue(a + b, "R$", Fin(0.0), parse)
      case Ok(x) => Ok(Scale(0.01, x))
      case Err(e) => Err(e)
    ensures '%' !in b ==> StrToFloat(a + b, parse) == Currency2FloatValue(a + b, "R$", Fin(0.0), parse)
  {
    var s := a + "%" + b;
    assert s[|a|] == '%' && s[..|a|] == a && s[|a| + 1..] == b;
    IndexOfFirst(s, '%', |a|);
    assert RemoveFirst(s, '%') == a + b;
  }

  // ---------------------------------------------------------------------
  // read_tables

  /** `map(str_to_float, fields)`, `read` being str_to_float: the first field that fails decides the error. */
  function ParseFields(fields: seq<string>, read: string -> Result<Num>): (r: Result<seq<Num>>)
    ensures r.Ok? ==> |r.value| == |fields|
    decreases |fields|
  {
    if fields == [] then Ok([])
    else
      match read(fields[0])
      case Err(e) => Err(e)
      case Ok(x) =>
        match ParseFields(fields[1..], read)
        case Err(e) => Err(e)
        case Ok(xs) => Ok([x] + xs)
  }

  /** Value i is field i's reading, and a failure is that of the first field that fails. */
  lemma {:induction false} ParseFieldsPointwise(fields: seq<string>, read: string -> Result<Num>)
    ensures var r := ParseFields(fields, read);
      (r.Ok? ==> forall i | 0 <= i < |fields| :: read(fields[i]) == Ok(r.value[i]))
      && (r.Err? ==> exists i | 0 <= i < |fields| :: read(fields[i]) == Err(r.error)
                                                   && forall j | 0 <= j < i :: read(fields[j]).Ok?)
    decreases |fields|
  {
    if fields != [] {
      var rest := fields[1..];
      ParseFieldsPointwise(rest, read);
      var r := ParseFields(fields, read);
      var head := read(fields[0]);
      if head.Err? {
        assert r == Err(head.error);
      } else if ParseFields(rest, read).Err? {
        var j :| 0 <= j < |rest| && read(rest[j]) == Err(ParseFields(rest, read).error)
                 && forall m | 0 <= m < j :: read(rest[m]).Ok?;
        assert fields[j + 1] == rest[j];
        assert forall m | 1 <= m < j + 1 :: fields[m] == rest[m - 1];
      } else {
        var v := ParseFields(rest, read).value;
        assert r.value == [head.value] + v;
        forall i | 0 <= i < |fields| ensures read(fields[i]) == Ok(r.value[i]) {
          if i > 0 {
            assert fields[i] == rest[i - 1];
          }
        }
      }
    }
  }

  function Min(a: nat, b: nat): nat {
    if a <= b then a else b
  }

  /** `dict(zip(keys, vals))`: pairs up to the shorter length; a later pair wins. */
  function Zip(keys: seq<string>, vals: seq<Num>): (m: Row)
    ensures forall k | k in m :: k in keys[..Min(|keys|, |vals|)]
    decreases |keys|
  {
    var n := Min(|keys|, |vals|);
    if n == 0 then map[]
    else Zip(keys[..n - 1], vals[..n - 1])[keys[n - 1] := vals[n - 1]]
  }

  predicate Distinct(keys: seq<string>) {
    forall i, j | 0 <= i < j < |keys| :: keys[i] != keys[j]
  }

  /** One step of Zip: the last zipped pair is put over the row of the others. */
  lemma ZipLast(keys: seq<string>, vals: seq<Num>)
    requires Min(|keys|, |vals|) > 0
    ensures var n := Min(|keys|, |vals|);
      Zip(keys, vals) == Zip(keys[..n - 1], vals[..n - 1])[keys[n - 1] := vals[n - 1]]
  {
  }

  /** With distinct keys the row has exactly one entry per zipped pair. */
  lemma {:induction false} ZipSize(keys: seq<string>, vals: seq<Num>)
    requires Distinct(keys)
    ensures |Zip(keys, vals)| == Min(|keys|, |vals|)
    decreases |keys|
  {
    var n := Min(|keys|, |vals|);
    if n > 0 {
      var ks, vs := keys[..n - 1], vals[..n - 1];
      DistinctInit(keys, n - 1);
      ZipSize(ks, vs);
      ZipKeys(keys, vals);
      ZipLast(keys, vals);
      assert Min(|ks|, |vs|) == n - 1;
    }
  }

  /** With distinct keys every zipped key holds its own pair's value. */
  lemma {:induction false} ZipValues(keys: seq<string>, vals: seq<Num>)
    requires Distinct(keys)
    ensures forall i | 0 <= i < Min(|keys|, |vals|) :: keys[i] in Zip(keys, vals) && Zip(keys, vals)[keys[i]] == vals[i]
    decreases |keys|
  {
    var n := Min(|keys|, |vals|);
    if n > 0 {
      var ks, vs := keys[..n - 1], vals[..n - 1];
      DistinctInit(keys, n - 1);
      ZipValues(ks, vs);
      assert Min(|ks|, |vs|) == n - 1;
      ZipLast(keys, vals);
      var prev, k, v := Zip(ks, vs), keys[n - 1], vals[n - 1];
      var m := prev[k := v];
      forall i | 0 <= i < n ensures keys[i] in m && m[keys[i]] == vals[i] {
        if i < n - 1 {
          assert ks[i] in prev && prev[ks[i]] == vs[i];
          assert keys[i] == ks[i] && vals[i] == vs[i] && keys[i] != k;
        }
      }
      assert m == Zip(keys, vals);
    }
  }

  lemma DistinctInit(keys: seq<string>, n: nat)
    requires Distinct(keys) && n <= |keys|
    ensures Distinct(keys[..n])
  {
    forall i, j | 0 <= i < j < n ensures keys[..n][i] != keys[..n][j] {
      assert keys[..n][i] == keys[i] && keys[..n][j] == keys[j];
    }
  }

  /** The last zipped key of distinct keys is not among the earlier pairs' keys. */
  lemma ZipKeys(keys: seq<string>, vals: seq<Num>)
    requires Distinct(keys) && Min(|keys|, |vals|) > 0
    ensures var n := Min(|keys|, |vals|); keys[n - 1] !in Zip(keys[..n - 1], vals[..n - 1])
  {
    var n := Min(|keys|, |vals|);
    var ks, vs := keys[..n - 1], vals[..n - 1];
    assert Min(|ks|, |vs|) == n - 1;
    var k := keys[n - 1];
    assert ks[..n - 1] == ks;
    assert k !in ks;
  }

  /** The parser's state: the sections so far and the open section's key, if any. */
  datatype Reading = Reading(table: Tables, header: Option<string>)

  /** An open section is always a key of the table. */
  predicate Open(st: Reading) {
    st.header.Some? ==> st.header.value in st.table
  }

  /** `[el.strip() for el in first.split(";")]`. */
  function Schema(first: string): (r: seq<string>)
    ensures |r| == |Split(first, ';')|
    ensures forall i | 0 <= i < |r| :: ';' !in r[i] && |r[i]| <= |Split(first, ';')[i]|
    ensures forall i | 0 <= i < |r| :: r[i] == [] || (!IsSpace(r[i][0]) && !IsSpace(r[i][|r[i]| - 1]))
    ensures forall i | 0 <= i < |r| :: TrimmedOf(r[i], Split(first, ';')[i])
  {
    var fields := Split(first, ';');
    forall i | 0 <= i < |fields| ensures ';' !in Strip(fields[i]) && TrimmedOf(Strip(fields[i]), fields[i]) {
      assert fields[i] in fields;
      StripInside(fields[i]);
      StripTrimmed(fields[i]);
    }
    seq(|fields|, i requires 0 <= i < |fields| => Strip(fields[i]))
  }

  /** The row a continuation line becomes: its `;`-separated fields parsed and zipped with the schema. */
  function ParseRow(schema: seq<string>, line: string, parse: string -> Result<Num>): Result<Row> {
    match ParseFields(Split(line, ';'), val => StrToFloat(val, parse))
    case Err(e) => Err(e)
    case Ok(nums) => Ok(Zip(schema, nums))
  }

  /**
   * One line of the body: a line starting with a space adds its row to the
   * open section (the row is parsed before the section is looked up); any
   * other line opens a section under that key, replacing an old one.
   * `rowOf` is the row parser, ParseRow for the file's schema.
   */
  function Step(st: Reading, line: string, rowOf: string -> Result<Row>): (r: Result<Reading>)
    requires line != [] && Open(st)
    ensures r.Ok? ==> Open(r.value)
  {
    if line[0] == ' ' then
      match rowOf(line)
      case Err(e) => Err(e)
      case Ok(row) =>
        if st.header.None? then Err(NameError)
        else
          var h := st.header.value;
          Ok(Reading(st.table[h := st.table[h] + [row]], st.header))
    else Ok(Reading(st.table[line := []], Some(line)))
  }

  predicate NonEmptyLines(lines: seq<string>) {
    forall i | 0 <= i < |lines| :: lines[i] != []
  }

  /** The body lines folded through Step, stopping at the first error. */
  function Sections(st: Reading, lines: seq<string>, rowOf: string -> Result<Row>): (r: Result<Reading>)
    requires Open(st) && NonEmptyLines(lines)
    ensures r.Ok? ==> Open(r.value)
    decreases |lines|
  {
    if lines == [] then Ok(st)
    else
      match Step(st, lines[0], rowOf)
      case Err(e) => Err(e)
      case Ok(next) => Sections(next, lines[1..], rowOf)
  }

  /** The dictionary a successful reading leaves, or the error that stopped it. */
  function TablesOf(r: Result<Reading>): Result<Tables> {
    match r
    case Err(e) => Err(e)
    case Ok(st) => Ok(st.table)
  }

  /** What read_tables returns or raises for a file made of `raw`. */
  function ReadTablesOf(raw: seq<string>, parse: string -> Result<Num>): Result<Tables> {
    var lines := KeptLines(raw, '#');
    if lines == [] then Err(StopIteration)
    else
      KeptLinesClean(raw, '#');
      assert NonEmptyLines(lines[1..]) by {
        forall i | 0 <= i < |lines[1..]| ensures lines[1..][i] != [] {
          assert lines[1..][i] == lines[i + 1] && lines[i + 1] in lines;
        }
      }
      var schema := Schema(lines[0]);
      TablesOf(Sections(Reading(map[], None), lines[1..], line => ParseRow(schema, line, parse)))
  }

  /** read_tables' loop over the body lines: the dictionary is built in place. */
  method ReadSections(body: seq<string>, rowOf: string -> Result<Row>) returns (r: Result<Tables>)
    requires NonEmptyLines(body)
    ensures r == TablesOf(Sections(Reading(map[], None), body, rowOf))
  {
    var table: Tables := map[];
    var header: Option<string> := None;
    var i := 0;
    while i < |body|
      invariant 0 <= i <= |body|
      invariant Open(Reading(table, header))
      invariant Sections(Reading(map[], None), body, rowOf) ==
        Sections(Reading(table, header), body[i..], rowOf)
    {
      var line := body[i];
      assert body[i..][0] == line && body[i..][1..] == body[i + 1..];
      if line[0] == ' ' {
        var row := rowOf(line);
        if row.Err? {
          return Err(row.error);
        }
        if header.None? {
          return Err(NameError);
        }
        table := table[header.value := table[header.value] + [row.value]];
      } else {
        header := Some(line);
        table := table[line := []];
      }
      i := i + 1;
    }
    return Ok(table);
  }

  /** read_tables: the schema line, then the body read by ReadSections. */
  method ReadTables(raw: seq<string>, parse: string -> Result<Num>) returns (r: Result<Tables>)
    ensures r == ReadTablesOf(raw, parse)
  {
    var lines := LineGen(raw, '#');
    if lines == [] {
      return Err(StopIteration);
    }
    KeptLinesClean(raw, '#');
    var schema := Schema(lines[0]);
    var body := lines[1..];
    assert NonEmptyLines(body) by {
      forall i | 0 <= i < |body| ensures body[i] != [] {
        assert body[i] == lines[i + 1] && lines[i + 1] in lines;
      }
    }
    r := ReadSections(body, line => ParseRow(schema, line, parse));
  }

  /** The rows of a run of continuation lines, stopping at the first that fails. */
  function ParsedRows(conts: seq<string>, rowOf: string -> Result<Row>): (r: Result<seq<Row>>)
    ensures r.Ok? ==> |r.value| == |conts|
    decreases |conts|
  {
    if conts == [] then Ok([])
    else
      match rowOf(conts[0])
      case Err(e) => Err(e)
      case Ok(row) =>
        match ParsedRows(conts[1..], rowOf)
        case Err(e) => Err(e)
        case Ok(rows) => Ok([row] + rows)
  }

  /** Row i is line i's row, and a failure is that of the first line that fails. */
  lemma {:induction false} ParsedRowsPointwise(conts: seq<string>, rowOf: string -> Result<Row>)
    ensures var r := ParsedRows(conts, rowOf);
      (r.Ok? ==> forall i | 0 <= i < |conts| :: rowOf(conts[i]) == Ok(r.value[i]))
      && (r.Err? ==> exists i | 0 <= i < |conts| :: rowOf(conts[i]) == Err(r.error)
                                                  && forall j | 0 <= j < i :: rowOf(conts[j]).Ok?)
    decreases |conts|
  {
    if conts != [] {
      var rest := conts[1..];
      ParsedRowsPointwise(rest, rowOf);
      var r := ParsedRows(conts, rowOf);
      var head := rowOf(conts[0]);
      if head.Err? {
        assert r == Err(head.error);
      } else if ParsedRows(rest, rowOf).Err? {
        var j :| 0 <= j < |rest| && rowOf(rest[j]) == Err(ParsedRows(rest, rowOf).error)
                 && forall m | 0 <= m < j :: rowOf(rest[m]).Ok?;
        assert conts[j + 1] == rest[j];
        assert forall m | 1 <= m < j + 1 :: conts[m] == rest[m - 1];
      } else {
        var v := ParsedRows(rest, rowOf).value;
        assert r.value == [head.value] + v;
        forall i | 0 <= i < |conts| ensures rowOf(conts[i]) == Ok(r.value[i]) {
          if i > 0 {
            assert conts[i] == rest[i - 1];
          }
        }
      }
    }
  }

  predicate Continuations(conts: seq<string>) {
    forall i | 0 <= i < |conts| :: conts[i] != [] && conts[i][0] == ' '
  }

  /** Continuation lines append their rows, one each and in order, to the open section. */
  lemma {:induction false} AppendRows(table: Tables, h: string, conts: seq<string>, rowOf: string -> Result<Row>)
    requires h in table && Continuations(conts)
    requires ParsedRows(conts, rowOf).Ok?
    ensures NonEmptyLines(conts)
    ensures Sections(Reading(table, Some(h)), conts, rowOf) ==
      Ok(Reading(table[h := table[h] + ParsedRows(conts, rowOf).value], Some(h)))
    decreases |conts|
  {
    if conts != [] {
      var row := rowOf(conts[0]).value;
      var next := table[h := table[h] + [row]];
      assert Step(Reading(table, Some(h)), conts[0], rowOf) == Ok(Reading(next, Some(h)));
      assert Continuations(conts[1..]) by {
        forall i | 0 <= i < |conts[1..]| ensures conts[1..][i] != [] && conts[1..][i][0] == ' ' {
          assert conts[1..][i] == conts[i + 1];
        }
      }
      AppendRows(next, h, conts[1..], rowOf);
      assert Sections(Reading(table, Some(h)), conts, rowOf) == Sections(Reading(next, Some(h)), conts[1..], rowOf);
      var rest := ParsedRows(conts[1..], rowOf).value;
      assert ParsedRows(conts, rowOf).value == [row] + rest;
      assert next[h] + rest == table[h] + ([row] + rest);
      UpdateTwice(table, h, table[h] + [row], table[h] + ([row] + rest));
    } else {
      assert table[h] + [] == table[h];
      assert table[h := table[h]] == table;
    }
  }

  lemma UpdateTwice(table: Tables, h: string, x: seq<Row>, y: seq<Row>)
    ensures table[h := x][h := y] == table[h := y]
  {
  }

  /**
   * A header line followed by its continuation lines opens the section under
   * that key, replacing any earlier section of the same key, and fills it
   * with one row per line, in order.
   */
  lemma OneSection(st: Reading, h: string, conts: seq<string>, rowOf: string -> Result<Row>)
    requires Open(st) && h != [] && h[0] != ' ' && Continuations(conts)
    requires ParsedRows(conts, rowOf).Ok?
    ensures NonEmptyLines([h] + conts)
    ensures Sections(st, [h] + conts, rowOf) ==
      Ok(Reading(st.table[h := ParsedRows(conts, rowOf).value], Some(h)))
  {
    var lines := [h] + conts;
    AppendRows(st.table[h := []], h, conts, rowOf);
    assert NonEmptyLines(lines) by {
      forall i | 0 <= i < |lines| ensures lines[i] != [] {
        if i > 0 {
          assert lines[i] == conts[i - 1];
        }
      }
    }
    assert lines[0] == h && lines[1..] == conts;
    assert Step(st, h, rowOf) == Ok(Reading(st.table[h := []], Some(h)));
    var rows := ParsedRows(conts, rowOf).value;
    assert [] + rows == rows;
    UpdateTwice(st.table, h, [], rows);
  }

  /** The fold over two runs of lines is the fold over the second from where the first left off. */
  lemma {:induction false} SectionsAppend(st: Reading, a: seq<string>, b: seq<string>, rowOf: string -> Result<Row>)
    requires Open(st) && NonEmptyLines(a) && NonEmptyLines(b)
    ensures NonEmptyLines(a + b)
    ensures Sections(st, a + b, rowOf) ==
      match Sections(st, a, rowOf)
      case Err(e) => Err(e)
      case Ok(mid) => Sections(mid, b, rowOf)
    decreases |a|
  {
    assert NonEmptyLines(a + b) by {
      forall i | 0 <= i < |a + b| ensures (a + b)[i] != [] {
        if i < |a| {
          assert (a + b)[i] == a[i];
        } else {
          assert (a + b)[i] == b[i - |a|];
        }
      }
    }
    if a == [] {
      assert a + b == b;
    } else {
      assert (a + b)[0] == a[0] && (a + b)[1..] == a[1..] + b;
      assert NonEmptyLines(a[1..]) by {
        forall i | 0 <= i < |a[1..]| ensures a[1..][i] != [] {
          assert a[1..][i] == a[i + 1];
        }
      }
      match Step(st, a[0], rowOf)
      case Err(e) =>
      case Ok(next) =>
        SectionsAppend(next, a[1..], b, rowOf);
    }
  }

  /**
   * A continuation line before any header fails: with the error of its
   * row, or, when the row parses, because there is no section to append to.
   */
  lemma OrphanContinuation(table: Tables, c: string, rest: seq<string>, rowOf: string -> Result<Row>)
    requires c != [] && c[0] == ' ' && NonEmptyLines(rest)
    ensures NonEmptyLines([c] + rest)
    ensures Sections(Reading(table, None), [c] + rest, rowOf) ==
      match rowOf(c)
      case Err(e) => Err(e)
      case Ok(_) => Err(NameError)
  {
    var lines := [c] + rest;
    assert NonEmptyLines(lines) by {
      forall i | 0 <= i < |lines| ensures lines[i] != [] {
        if i > 0 {
          assert lines[i] == rest[i - 1];
        }
      }
    }
    assert lines[0] == c;
  }

  // ---------------------------------------------------------------------
  // new_processor: halfway_gen

  /** The row without its start and finish columns. */
  function Others(row: Row, s: string, f: string): (d: Row)
    ensures d.Keys == row.Keys - {s, f}
    ensures forall k | k in d :: d[k] == row[k]
  {
    map k | k in row && k != s && k != f :: row[k]
  }

  /** What halfway_gen yields: a start and the row's other columns, or None for the closing item. */
  datatype Item = Item(start: Num, data: Option<Row>)

  /** Every row has the start column `s` and the finish column `f`. */
  predicate HasKeys(rows: seq<Row>, s: string, f: string) {
    forall i | 0 <= i < |rows| :: s in rows[i] && f in rows[i]
  }

  /** The first row keeps its start; a later one starts halfway from the previous row's finish. */
  function StartOf(row: Row, last: Option<Row>, s: string, f: string): Num
    requires s in row && (last.Some? ==> f in last.value)
  {
    if last.None? || last.value == map[] then row[s] else Midpoint(row[s], last.value[f])
  }

  /** The items of the rows in order, `last` being the row before them. */
  function Items(rows: seq<Row>, last: Option<Row>, s: string, f: string): (r: seq<Item>)
    requires HasKeys(rows, s, f) && (last.Some? ==> f in last.value)
    ensures |r| == |rows|
    decreases |rows|
  {
    if rows == [] then []
    else
      assert HasKeys(rows[1..], s, f) by {
        forall i | 0 <= i < |rows[1..]| ensures s in rows[1..][i] && f in rows[1..][i] {
          assert rows[1..][i] == rows[i + 1];
        }
      }
      [Item(StartOf(rows[0], last, s, f), Some(Others(rows[0], s, f)))] + Items(rows[1..], Some(rows[0]), s, f)
  }

  /** Items from position `i` on: the item of row `i`, then the items after it. */
  lemma ItemsFrom(rows: seq<Row>, last: Option<Row>, s: string, f: string, i: nat)
    requires HasKeys(rows, s, f) && i < |rows| && (last.Some? ==> f in last.value)
    ensures HasKeys(rows[i..], s, f) && HasKeys(rows[i + 1..], s, f)
    ensures Items(rows[i..], last, s, f) ==
      [Item(StartOf(rows[i], last, s, f), Some(Others(rows[i], s, f)))] + Items(rows[i + 1..], Some(rows[i]), s, f)
  {
    assert HasKeys(rows[i..], s, f) by {
      forall j | 0 <= j < |rows[i..]| ensures s in rows[i..][j] && f in rows[i..][j] {
        assert rows[i..][j] == rows[i + j];
      }
    }
    assert rows[i..][0] == rows[i] && rows[i..][1..] == rows[i + 1..];
  }

  /** The rows decorated with their start, for `sorted(table, key=...)`. */
  function ByStart(table: seq<Row>, s: string): (d: seq<(SortKey, Row)>)
    requires forall row | row in table :: s in row
    ensures |d| == |table|
    ensures forall i | 0 <= i < |d| :: d[i] == (SortKey(table[i][s], 0), table[i])
  {
    seq(|table|, i requires 0 <= i < |table| => (SortKey(table[i][s], 0), table[i]))
  }

  /** The payloads of decorated pairs. */
  function Undecorate<T>(d: seq<(SortKey, T)>): (r: seq<T>)
    ensures |r| == |d| && forall i | 0 <= i < |d| :: r[i] == d[i].1
  {
    seq(|d|, i requires 0 <= i < |d| => d[i].1)
  }

  /** Undecorating keeps the order of the pieces. */
  lemma UndecorateAppend<T>(a: seq<(SortKey, T)>, b: seq<(SortKey, T)>)
    ensures Undecorate(a + b) == Undecorate(a) + Undecorate(b)
  {
    assert forall i | 0 <= i < |a + b| :: Undecorate(a + b)[i] == (Undecorate(a) + Undecorate(b))[i];
  }

  /** Rearranged pairs have rearranged payloads. */
  lemma {:induction false} UndecorateMultiset<T>(a: seq<(SortKey, T)>, b: seq<(SortKey, T)>)
    requires multiset(a) == multiset(b)
    ensures multiset(Undecorate(a)) == multiset(Undecorate(b))
    decreases |a|
  {
    if a != [] {
      var x := a[0];
      assert x in multiset(b);
      var k :| 0 <= k < |b| && b[k] == x;
      var b' := b[..k] + b[k + 1..];
      assert b == b[..k] + [x] + b[k + 1..];
      assert a == [x] + a[1..];
      assert multiset(b) == multiset(b[..k]) + multiset{x} + multiset(b[k + 1..]);
      assert multiset(b') == multiset(b[..k]) + multiset(b[k + 1..]);
      assert multiset(a) == multiset{x} + multiset(a[1..]);
      assert multiset(a[1..]) == multiset(a) - multiset{x};
      assert multiset(b') == multiset(b) - multiset{x};
      UndecorateMultiset(a[1..], b');
      UndecorateAppend([x], a[1..]);
      UndecorateAppend(b[..k] + [x], b[k + 1..]);
      UndecorateAppend(b[..k], [x]);
      UndecorateAppend(b[..k], b[k + 1..]);
    } else {
      assert b == [];
    }
  }

  /** `sorted(table, key=lambda line: line[start_key])`. */
  function SortedByStart(table: seq<Row>, s: string): (rows: seq<Row>)
    requires forall row | row in table :: s in row
    ensures |rows| == |table|
  {
    Undecorate(Sort(ByStart(table, s)))
  }

  /** Every pair the sort returns is one of the decorated rows, and every decorated row is returned. */
  lemma SortedPairs(table: seq<Row>, s: string)
    requires forall row | row in table :: s in row
    ensures var d := ByStart(table, s);
      (forall k | 0 <= k < |Sort(d)| :: Sort(d)[k] in d) && (forall j | 0 <= j < |d| :: d[j] in Sort(d))
  {
    var d := ByStart(table, s);
    var sorted := Sort(d);
    forall k | 0 <= k < |sorted| ensures sorted[k] in d {
      assert sorted[k] in multiset(sorted);
    }
    forall j | 0 <= j < |d| ensures d[j] in sorted {
      assert d[j] in multiset(d);
    }
  }

  /** The sorted rows are the table's rows, rearranged. */
  lemma SortedByStartRows(table: seq<Row>, s: string)
    requires forall row | row in table :: s in row
    ensures forall row | row in SortedByStart(table, s) :: row in table
    ensures forall row | row in table :: row in SortedByStart(table, s)
    ensures multiset(SortedByStart(table, s)) == multiset(table)
  {
    var d := ByStart(table, s);
    UndecorateMultiset(Sort(d), d);
    assert Undecorate(d) == table;
    var sorted := Sort(d);
    var rows := Undecorate(sorted);
    SortedPairs(table, s);
    forall row | row in rows ensures row in table {
      var k :| 0 <= k < |rows| && rows[k] == row;
      var j :| 0 <= j < |d| && d[j] == sorted[k];
      assert table[j] == row;
    }
    forall row | row in table ensures row in rows {
      var j :| 0 <= j < |table| && table[j] == row;
      var k :| 0 <= k < |sorted| && sorted[k] == d[j];
      assert rows[k] == row;
    }
  }

  /** The sorted rows are in ascending order of their start. */
  lemma SortedByStartOrdered(table: seq<Row>, s: string)
    requires forall row | row in table :: s in row
    ensures var rows := SortedByStart(table, s);
      forall i, j | 0 <= i < j < |rows| :: s in rows[i] && s in rows[j] && NumLe(rows[i][s], rows[j][s])
  {
    var d := ByStart(table, s);
    var sorted := Sort(d);
    var rows := Undecorate(sorted);
    SortSorted(d);
    SortedPairs(table, s);
    forall i, j | 0 <= i < j < |rows| ensures s in rows[i] && s in rows[j] && NumLe(rows[i][s], rows[j][s]) {
      var a :| 0 <= a < |d| && d[a] == sorted[i];
      var b :| 0 <= b < |d| && d[b] == sorted[j];
      assert KeyLe(sorted[i].0, sorted[j].0);
    }
  }

  /** Every row of the table has column `k`, checked on the sorted rows. */
  lemma SortedRowsHave(table: seq<Row>, s: string, k: string)
    requires forall row | row in table :: s in row
    ensures (forall row | row in table :: k in row) <==>
      (forall i | 0 <= i < |SortedByStart(table, s)| :: k in SortedByStart(table, s)[i])
  {
    var rows := SortedByStart(table, s);
    SortedByStartRows(table, s);
    if forall i | 0 <= i < |rows| :: k in rows[i] {
      forall row | row in table ensures k in row {
        var i :| 0 <= i < |rows| && rows[i] == row;
      }
    }
  }

  /**
   * halfway_gen: the items of the rows sorted by start, then the closing
   * item holding the last row's finish. Fails with ValueError for fewer than
   * two schema columns, KeyError for a row lacking the start or the finish,
   * and TypeError for an empty table.
   */
  function Halfway(table: seq<Row>, schema: seq<string>): (r: Result<seq<Item>>)
    ensures |schema| < 2 ==> r == Err(ValueError)
    ensures |schema| >= 2 && table == [] ==> r == Err(TypeError)
    ensures r.Ok? ==> |r.value| == |table| + 1 && r.value[|table|].data.None?
  {
    if |schema| < 2 then Err(ValueError)
    else
      var s, f := schema[0], schema[1];
      if exists row | row in table :: s !in row then Err(KeyError)
      else if table == [] then Err(TypeError)
      else if exists row | row in table :: f !in row then Err(KeyError)
      else
        var rows := SortedByStart(table, s);
        SortedRowsHave(table, s, s);
        SortedRowsHave(table, s, f);
        Ok(Items(rows, None, s, f) + [Item(rows[|rows| - 1][f], None)])
  }

  /** Halfway on a table whose rows all have the start column, in terms of the sorted rows. */
  lemma HalfwaySorted(table: seq<Row>, schema: seq<string>)
    requires |schema| >= 2 && table != [] && forall row | row in table :: schema[0] in row
    ensures var s, f, rows := schema[0], schema[1], SortedByStart(table, schema[0]);
      (forall i | 0 <= i < |rows| :: s in rows[i])
      && Halfway(table, schema) ==
         if HasKeys(rows, s, f) then Ok(Items(rows, None, s, f) + [Item(rows[|rows| - 1][f], None)])
         else Err(KeyError)
  {
    SortedRowsHave(table, schema[0], schema[0]);
    SortedRowsHave(table, schema[0], schema[1]);
  }

  /** halfway_gen: the rows are sorted by start, then walked by HalfwayLoop. */
  method HalfwayGen(table: seq<Row>, schema: seq<string>) returns (r: Result<seq<Item>>)
    ensures r == Halfway(table, schema)
  {
    if |schema| < 2 {
      return Err(ValueError);
    }
    var s, f := schema[0], schema[1];
    if exists row | row in table :: s !in row {
      return Err(KeyError);
    }
    var rows := SortedByStart(table, s);
    if rows == [] {
      return Err(TypeError);
    }
    HalfwaySorted(table, schema);
    r := HalfwayLoop(rows, s, f);
  }

  /** One round of halfway_gen's loop: the item of row `i` extends the items of the rows before it. */
  lemma HalfwayStep(rows: seq<Row>, s: string, f: string, i: nat, last: Option<Row>, items: seq<Item>)
    requires HasKeys(rows, s, f) && i < |rows|
    requires last == (if i == 0 then None else Some(rows[i - 1]))
    requires items + Items(rows[i..], last, s, f) == Items(rows, None, s, f)
    ensures items + [Item(StartOf(rows[i], last, s, f), Some(Others(rows[i], s, f)))]
              + Items(rows[i + 1..], Some(rows[i]), s, f) == Items(rows, None, s, f)
  {
    ItemsFrom(rows, last, s, f, i);
    var item := Item(StartOf(rows[i], last, s, f), Some(Others(rows[i], s, f)));
    var rest := Items(rows[i + 1..], Some(rows[i]), s, f);
    assert Items(rows[i..], last, s, f) == [item] + rest;
    assert (items + [item]) + rest == items + ([item] + rest);
  }

  /**
   * The loop of halfway_gen over rows already sorted, carrying the previous
   * row in `last`: a missing finish column fails as soon as it is read.
   */
  method HalfwayLoop(rows: seq<Row>, s: string, f: string) returns (r: Result<seq<Item>>)
    requires rows != [] && forall j | 0 <= j < |rows| :: s in rows[j]
    ensures r == if HasKeys(rows, s, f) then Ok(Items(rows, None, s, f) + [Item(rows[|rows| - 1][f], None)])
                 else Err(KeyError)
  {
    var items: seq<Item> := [];
    var last: Option<Row> := None;
    var i := 0;
    while i < |rows|
      invariant 0 <= i <= |rows|
      invariant last == (if i == 0 then None else Some(rows[i - 1]))
      invariant forall j | 0 <= j < i - 1 :: f in rows[j]
      invariant HasKeys(rows, s, f) ==> items + Items(rows[i..], last, s, f) == Items(rows, None, s, f)
    {
      var row := rows[i];
      var start: Num;
      if last.None? || last.value == map[] {
        start := row[s];
      } else {
        if f !in last.value {
          return Err(KeyError);
        }
        start := Midpoint(row[s], last.value[f]);
      }
      if HasKeys(rows, s, f) {
        HalfwayStep(rows, s, f, i, last, items);
      }
      items := items + [Item(start, Some(Others(row, s, f)))];
      last := Some(row);
      i := i + 1;
    }
    if f !in last.value {
      return Err(KeyError);
    }
    assert HasKeys(rows, s, f) by {
      forall j | 0 <= j < |rows| ensures s in rows[j] && f in rows[j] {
        if j == |rows| - 1 {
          assert rows[j] == last.value;
        }
      }
    }
    assert rows[i..] == [];
    assert items == Items(rows, None, s, f);
    return Ok(items + [Item(last.value[f], None)]);
  }

  /** Item `i` of Items: its row's start, or the midpoint with the row before it. */
  lemma {:induction false} ItemsAt(rows: seq<Row>, last: Option<Row>, s: string, f: string, i: nat)
    requires HasKeys(rows, s, f) && (last.Some? ==> f in last.value) && i < |rows|
    ensures Items(rows, last, s, f)[i] ==
      Item(StartOf(rows[i], if i == 0 then last else Some(rows[i - 1]), s, f), Some(Others(rows[i], s, f)))
    decreases i
  {
    if i > 0 {
      ItemsFrom(rows, last, s, f, 0);
      assert rows[0..] == rows && rows[1..][i - 1] == rows[i];
      ItemsAt(rows[1..], Some(rows[0]), s, f, i - 1);
      if i > 1 {
        assert rows[1..][i - 2] == rows[i - 1];
      }
    }
  }

  /**
   * halfway_gen yields one item per row, then the closing item: the first
   * row keeps its own start, every later row starts at the midpoint of its
   * start and the previous row's finish, the rows are taken in ascending
   * order of start, and the closing item holds the last row's finish.
   */
  lemma HalfwayShape(table: seq<Row>, schema: seq<string>)
    requires Halfway(table, schema).Ok?
    ensures |schema| >= 2 && table != []
    ensures var s, f := schema[0], schema[1];
      var rows, items, n := SortedByStart(table, s), Halfway(table, schema).value, |table|;
      HasKeys(rows, s, f) && |items| == n + 1
      && (forall row | row in rows :: row in table)
      && (forall row | row in table :: row in rows)
      && multiset(rows) == multiset(table)
      && (forall i, j | 0 <= i < j < n :: NumLe(rows[i][s], rows[j][s]))
      && items[0] == Item(rows[0][s], Some(Others(rows[0], s, f)))
      && (forall i | 0 < i < n :: items[i] == Item(Midpoint(rows[i][s], rows[i - 1][f]), Some(Others(rows[i], s, f))))
      && items[n] == Item(rows[n - 1][f], None)
  {
    var s, f := schema[0], schema[1];
    var rows := SortedByStart(table, s);
    HalfwaySorted(table, schema);
    SortedByStartRows(table, s);
    SortedByStartOrdered(table, s);
    var n := |table|;
    var items := Halfway(table, schema).value;
    ItemsAt(rows, None, s, f, 0);
    forall i | 0 < i < n
      ensures items[i] == Item(Midpoint(rows[i][s], rows[i - 1][f]), Some(Others(rows[i], s, f)))
    {
      ItemsAt(rows, None, s, f, i);
      assert s in rows[i - 1];
    }
  }

  // ---------------------------------------------------------------------
  // new_processor: table_gen and reader

  /** A bracket's payload: none, the one value column, or the tuple of them. */
  datatype Payload = NoValue | Value(x: Num) | Values(xs: seq<Num>)

  /** What table_gen yields: a `[start, ...]` list or a bare start. */
  datatype Emitted = Bracket(start: Num, payload: Payload) | Limit(value: real)

  /** The number an emitted element starts at. */
  function EmittedAt(e: Emitted): Num {
    if e.Bracket? then e.start else Fin(e.value)
  }

  /** In Python 2 `None` sorts below a dictionary. */
  function Rank(item: Item): nat {
    if item.data.None? then 0 else 1
  }

  /** The items decorated for `sorted`, which compares a start, then the data. */
  function ByItem(items: seq<Item>): (d: seq<(SortKey, Item)>)
    ensures |d| == |items|
    ensures forall i | 0 <= i < |d| :: d[i] == (SortKey(items[i].start, Rank(items[i])), items[i])
  {
    seq(|items|, i requires 0 <= i < |items| => (SortKey(items[i].start, Rank(items[i])), items[i]))
  }

  /** The payload has the shape the schema's length asks for. */
  predicate PayloadFits(p: Payload, schema: seq<string>) {
    (|schema| == 3 ==> p.Value?)
    && (|schema| > 3 ==> p.Values? && |p.xs| == |schema| - 2)
    && (|schema| < 3 ==> p.NoValue?)
  }

  /**
   * One item of table_gen: an item with data becomes a bracket whose payload
   * is the value column, the tuple of value columns or nothing, according to
   * the schema's length; the closing item (or empty data) becomes a bare
   * start unless that start is infinite.
   */
  function Emit(item: Item, schema: seq<string>): (r: Result<seq<Emitted>>)
    requires |schema| >= 2
    ensures r.Ok? ==> |r.value| <= 1
    ensures r.Ok? ==> forall e | e in r.value :: EmittedAt(e) == item.start
    ensures r.Ok? ==> forall e | e in r.value :: e.Bracket? ==> PayloadFits(e.payload, schema)
  {
    if item.data.Some? && item.data.value != map[] then
      var d := item.data.value;
      if |schema| == 3 then
        if schema[2] in d then Ok([Bracket(item.start, Value(d[schema[2]]))]) else Err(KeyError)
      else if |schema| > 3 then
        if forall k | 2 <= k < |schema| :: schema[k] in d then
          Ok([Bracket(item.start, Values(seq(|schema| - 2, i requires 0 <= i < |schema| - 2 => d[schema[i + 2]])))])
        else Err(KeyError)
      else Ok([Bracket(item.start, NoValue)])
    else if item.start.Fin? then Ok([Limit(item.start.v)])
    else Ok([])
  }

  /** table_gen's loop: the items emitted in order, stopping at the first error. */
  function EmitAll(items: seq<Item>, schema: seq<string>): (r: Result<seq<Emitted>>)
    requires |schema| >= 2
    decreases |items|
  {
    if items == [] then Ok([])
    else
      match Emit(items[0], schema)
      case Err(e) => Err(e)
      case Ok(out) =>
        match EmitAll(items[1..], schema)
        case Err(e) => Err(e)
        case Ok(rest) => Ok(out + rest)
  }

  /** table_gen: halfway_gen's items sorted, then emitted. */
  function TableGen(table: seq<Row>, schema: seq<string>): Result<seq<Emitted>> {
    match Halfway(table, schema)
    case Err(e) => Err(e)
    case Ok(items) => EmitAll(Undecorate(Sort(ByItem(items))), schema)
  }

  /** What reader returns: the brackets, with the final bare start split off as the limit. */
  datatype Output = Brackets(rows: seq<Emitted>) | BracketsAndLimit(rows: seq<Emitted>, limit: real)

  /**
   * reader on the emitted list: fails with IndexError when nothing is
   * emitted; returns the output and its last element apart when that
   * element is a bare start, and the whole output otherwise.
   */
  function ReaderOf(emitted: Result<seq<Emitted>>): (r: Result<Output>)
    ensures emitted == Ok([]) ==> r == Err(IndexError)
    ensures emitted.Err? ==> r == Err(emitted.error)
    ensures r.Ok? && r.value.BracketsAndLimit? ==> emitted == Ok(r.value.rows + [Limit(r.value.limit)])
    ensures r.Ok? && r.value.Brackets? ==>
      emitted == Ok(r.value.rows) && r.value.rows != [] && r.value.rows[|r.value.rows| - 1].Bracket?
  {
    match emitted
    case Err(e) => Err(e)
    case Ok(out) =>
      if out == [] then Err(IndexError)
      else if out[|out| - 1].Limit? then
        assert out == out[..|out| - 1] + [out[|out| - 1]];
        Ok(BracketsAndLimit(out[..|out| - 1], out[|out| - 1].value))
      else Ok(Brackets(out))
  }

  /** reader: `list(table_gen(table))`, then split as ReaderOf says. */
  function Reader(table: seq<Row>, schema: seq<string>): Result<Output> {
    ReaderOf(TableGen(table, schema))
  }

  /** Everything EmitAll yields comes from one of the items, with the payload the schema asks for. */
  lemma {:induction false} EmitAllFrom(items: seq<Item>, schema: seq<string>)
    requires |schema| >= 2 && EmitAll(items, schema).Ok?
    ensures forall e | e in EmitAll(items, schema).value ::
      (exists k | 0 <= k < |items| :: EmittedAt(e) == items[k].start)
      && (e.Bracket? ==> PayloadFits(e.payload, schema))
    decreases |items|
  {
    if items != [] {
      EmitAllFrom(items[1..], schema);
      var out, rest := Emit(items[0], schema).value, EmitAll(items[1..], schema).value;
      forall e | e in out + rest
        ensures (exists k | 0 <= k < |items| :: EmittedAt(e) == items[k].start)
          && (e.Bracket? ==> PayloadFits(e.payload, schema))
      {
        if e in out {
          assert EmittedAt(e) == items[0].start;
        } else {
          var k :| 0 <= k < |items[1..]| && EmittedAt(e) == items[1..][k].start;
          assert items[1..][k] == items[k + 1];
        }
      }
    }
  }

  /** EmitAll keeps the order of items sorted by start. */
  lemma {:induction false} EmitAllOrdered(items: seq<Item>, schema: seq<string>)
    requires |schema| >= 2 && EmitAll(items, schema).Ok?
    requires forall i, j | 0 <= i < j < |items| :: NumLe(items[i].start, items[j].start)
    ensures var out := EmitAll(items, schema).value;
      forall i, j | 0 <= i < j < |out| :: NumLe(EmittedAt(out[i]), EmittedAt(out[j]))
    decreases |items|
  {
    if items != [] {
      var tail := items[1..];
      assert forall i, j | 0 <= i < j < |tail| :: NumLe(tail[i].start, tail[j].start) by {
        forall i, j | 0 <= i < j < |tail| ensures NumLe(tail[i].start, tail[j].start) {
          assert tail[i] == items[i + 1] && tail[j] == items[j + 1];
        }
      }
      EmitAllOrdered(tail, schema);
      EmitAllFrom(tail, schema);
      var out, rest := Emit(items[0], schema).value, EmitAll(tail, schema).value;
      var all := out + rest;
      forall i, j | 0 <= i < j < |all| ensures NumLe(EmittedAt(all[i]), EmittedAt(all[j])) {
        if j < |out| {
          assert false;
        } else if i < |out| {
          assert all[i] in out && all[j] == rest[j - |out|] && all[j] in rest;
          var k :| 0 <= k < |tail| && EmittedAt(all[j]) == tail[k].start;
          assert tail[k] == items[k + 1];
        } else {
          assert all[i] == rest[i - |out|] && all[j] == rest[j - |out|];
        }
      }
    }
  }

  /** The items halfway_gen yields, as table_gen sorts them, are in ascending order of start. */
  lemma SortedItemsOrdered(items: seq<Item>, sorted: seq<Item>)
    requires sorted == Undecorate(Sort(ByItem(items)))
    ensures forall i, j | 0 <= i < j < |sorted| :: NumLe(sorted[i].start, sorted[j].start)
  {
    var d := ByItem(items);
    var pairs := Sort(d);
    SortSorted(d);
    forall i, j | 0 <= i < j < |sorted| ensures NumLe(sorted[i].start, sorted[j].start) {
      assert pairs[i] in multiset(d) && pairs[j] in multiset(d);
      var a :| 0 <= a < |d| && d[a] == pairs[i];
      var b :| 0 <= b < |d| && d[b] == pairs[j];
      assert KeyLe(pairs[i].0, pairs[j].0);
    }
  }

  /**
   * table_gen emits in ascending order of start, and every bracket carries
   * the payload the schema's length asks for: the value for three columns,
   * the tuple of the value columns for more, nothing for two.
   */
  lemma TableGenOrdered(table: seq<Row>, schema: seq<string>)
    requires TableGen(table, schema).Ok?
    ensures var out := TableGen(table, schema).value;
      (forall i, j | 0 <= i < j < |out| :: NumLe(EmittedAt(out[i]), EmittedAt(out[j])))
      && forall e | e in out :: e.Bracket? ==> PayloadFits(e.payload, schema)
  {
    var items := Halfway(table, schema).value;
    var sorted := Undecorate(Sort(ByItem(items)));
    SortedItemsOrdered(items, sorted);
    EmitAllOrdered(sorted, schema);
    EmitAllFrom(sorted, schema);
  }

  // ---------------------------------------------------------------------
  // The processor on a well-formed schedule

  /**
   * A schedule as the files hold one: at least one value column, distinct
   * column names, every column in every row, each row starting below its
   * finish and finishing no later than the next row starts.
   */
  predicate Schedule(table: seq<Row>, schema: seq<string>) {
    |schema| >= 3 && Distinct(schema) && table != []
    && (forall i, k | 0 <= i < |table| && 0 <= k < |schema| :: schema[k] in table[i])
    && (forall i | 0 <= i < |table| :: NumLt(table[i][schema[0]], table[i][schema[1]]))
    && (forall i | 0 <= i < |table| - 1 :: NumLe(table[i][schema[1]], table[i + 1][schema[0]]))
  }

  /** Where bracket `i` starts: the first row's start, else halfway from the previous finish. */
  function BracketStart(table: seq<Row>, schema: seq<string>, i: nat): Num
    requires Schedule(table, schema) && i < |table|
  {
    if i == 0 then table[0][schema[0]] else Midpoint(table[i][schema[0]], table[i - 1][schema[1]])
  }

  /** The payload of a row: its one value column, or the tuple of its value columns. */
  function PayloadOf(row: Row, schema: seq<string>): Payload
    requires |schema| >= 3 && forall k | 0 <= k < |schema| :: schema[k] in row
  {
    if |schema| == 3 then Value(row[schema[2]])
    else Values(seq(|schema| - 2, j requires 0 <= j < |schema| - 2 => row[schema[j + 2]]))
  }

  /** The brackets a schedule should become, one per row. */
  function ScheduleBrackets(table: seq<Row>, schema: seq<string>): (r: seq<Emitted>)
    requires Schedule(table, schema)
    ensures |r| == |table|
  {
    seq(|table|, i requires 0 <= i < |table| => Bracket(BracketStart(table, schema, i), PayloadOf(table[i], schema)))
  }

  /** A schedule's starts ascend. */
  lemma StartsAscending(table: seq<Row>, schema: seq<string>)
    requires Schedule(table, schema)
    ensures forall i, j | 0 <= i < j < |table| :: NumLe(table[i][schema[0]], table[j][schema[0]])
  {
    var s, f := schema[0], schema[1];
    var d := ByStart(table, s);
    forall k | 0 <= k < |d| - 1 ensures KeyLe(d[k].0, d[k + 1].0) {
      NumLeTransitive(table[k][s], table[k][f], table[k + 1][s]);
    }
    AdjacentSorted(d);
    forall i, j | 0 <= i < j < |table| ensures NumLe(table[i][s], table[j][s]) {
      assert KeyLe(d[i].0, d[j].0);
    }
  }

  /** Sorting a schedule by start leaves it as it is. */
  lemma ScheduleSortedByStart(table: seq<Row>, schema: seq<string>)
    requires Schedule(table, schema)
    ensures forall row | row in table :: schema[0] in row
    ensures SortedByStart(table, schema[0]) == table
  {
    var s := schema[0];
    assert forall row | row in table :: s in row by {
      forall row | row in table ensures s in row {
        var i :| 0 <= i < |table| && table[i] == row;
        assert schema[0] in table[i];
      }
    }
    var d := ByStart(table, s);
    StartsAscending(table, schema);
    AdjacentSorted(d);
    SortIdentity(d);
    assert Undecorate(d) == table;
  }

  /** A schedule's items: one per row, then the last finish. */
  lemma ScheduleHalfway(table: seq<Row>, schema: seq<string>)
    requires Schedule(table, schema)
    ensures HasKeys(table, schema[0], schema[1])
    ensures Halfway(table, schema) ==
      Ok(Items(table, None, schema[0], schema[1]) + [Item(table[|table| - 1][schema[1]], None)])
  {
    ScheduleSortedByStart(table, schema);
    HalfwaySorted(table, schema);
  }

  /** A schedule's item `i` starts where bracket `i` does and holds the row's other columns. */
  lemma ScheduleItemAt(table: seq<Row>, schema: seq<string>, i: nat)
    requires Schedule(table, schema) && i < |table|
    ensures HasKeys(table, schema[0], schema[1])
    ensures Items(table, None, schema[0], schema[1])[i] ==
      Item(BracketStart(table, schema, i), Some(Others(table[i], schema[0], schema[1])))
  {
    var s, f := schema[0], schema[1];
    assert HasKeys(table, s, f) by {
      forall j | 0 <= j < |table| ensures s in table[j] && f in table[j] {
        assert schema[0] in table[j] && schema[1] in table[j];
      }
    }
    ItemsAt(table, None, s, f, i);
    if i > 0 {
      assert s in table[i - 1];
    }
  }

  /** Between neighbouring rows of a schedule the bracket starts ascend. */
  lemma BracketStep(a: Num, s: Num, f: Num, s2: Num)
    requires NumLe(a, s) && NumLt(s, f) && NumLe(f, s2)
    ensures NumLt(a, f)
    ensures NumLe(a, Midpoint(s2, f)) && NumLe(Midpoint(s2, f), s2)
  {
    NumLeLt(a, s, f);
    NumLeTransitive(a, f, Midpoint(s2, f));
  }

  /** Bracket `i` of a schedule starts no later than row `i` does. */
  lemma BracketStartBelow(table: seq<Row>, schema: seq<string>, i: nat)
    requires Schedule(table, schema) && i < |table|
    ensures NumLe(BracketStart(table, schema, i), table[i][schema[0]])
  {
    if i > 0 {
      assert NumLe(table[i - 1][schema[1]], table[i][schema[0]]);
    }
  }

  /** Neighbouring items of a schedule are in table_gen's order. */
  lemma ScheduleItemStep(table: seq<Row>, schema: seq<string>, items: seq<Item>, k: nat)
    requires Schedule(table, schema)
    requires |items| == |table| + 1 && items[|table|] == Item(table[|table| - 1][schema[1]], None)
    requires forall i | 0 <= i < |table| :: items[i].data.Some? && items[i].start == BracketStart(table, schema, i)
    requires k < |table|
    ensures KeyLe(SortKey(items[k].start, Rank(items[k])), SortKey(items[k + 1].start, Rank(items[k + 1])))
  {
    var s, f := schema[0], schema[1];
    BracketStartBelow(table, schema, k);
    if k + 1 < |table| {
      BracketStep(items[k].start, table[k][s], table[k][f], table[k + 1][s]);
    } else {
      NumLeLt(items[k].start, table[k][s], table[k][f]);
    }
  }

  /** A schedule's items are already in table_gen's order. */
  lemma ScheduleItemsSorted(table: seq<Row>, schema: seq<string>, items: seq<Item>)
    requires Schedule(table, schema)
    requires |items| == |table| + 1 && items[|table|] == Item(table[|table| - 1][schema[1]], None)
    requires forall i | 0 <= i < |table| :: items[i].data.Some? && items[i].start == BracketStart(table, schema, i)
    ensures Undecorate(Sort(ByItem(items))) == items
  {
    var d := ByItem(items);
    forall k | 0 <= k < |d| - 1 ensures KeyLe(d[k].0, d[k + 1].0) {
      ScheduleItemStep(table, schema, items, k);
    }
    AdjacentSorted(d);
    SortIdentity(d);
    assert Undecorate(d) == items;
  }

  /** EmitAll of a non-empty run: the first item's output, then the rest's. */
  lemma EmitAllHead(items: seq<Item>, schema: seq<string>)
    requires |schema| >= 2 && items != []
    requires Emit(items[0], schema).Ok? && EmitAll(items[1..], schema).Ok?
    ensures EmitAll(items, schema) == Ok(Emit(items[0], schema).value + EmitAll(items[1..], schema).value)
  {
  }

  /** EmitAll of two runs of items is the output of one, then of the other. */
  lemma {:induction false} EmitAllAppend(a: seq<Item>, b: seq<Item>, schema: seq<string>)
    requires |schema| >= 2 && EmitAll(a, schema).Ok? && EmitAll(b, schema).Ok?
    ensures EmitAll(a + b, schema) == Ok(EmitAll(a, schema).value + EmitAll(b, schema).value)
    decreases |a|
  {
    if a == [] {
      assert a + b == b;
      assert EmitAll(a, schema).value + EmitAll(b, schema).value == EmitAll(b, schema).value;
    } else {
      var ab := a + b;
      assert ab[0] == a[0] && ab[1..] == a[1..] + b;
      assert Emit(a[0], schema).Ok? && EmitAll(a[1..], schema).Ok?;
      EmitAllAppend(a[1..], b, schema);
      EmitAllHead(ab, schema);
      EmitAllHead(a, schema);
      var head, x, y := Emit(a[0], schema).value, EmitAll(a[1..], schema).value, EmitAll(b, schema).value;
      assert head + (x + y) == (head + x) + y;
    }
  }

  /** Items each emitting one element emit those elements, in order. */
  lemma {:induction false} EmitAllSingles(items: seq<Item>, schema: seq<string>, outs: seq<Emitted>)
    requires |schema| >= 2 && |outs| == |items|
    requires forall k | 0 <= k < |items| :: Emit(items[k], schema) == Ok([outs[k]])
    ensures EmitAll(items, schema) == Ok(outs)
    decreases |items|
  {
    if items != [] {
      assert forall k | 0 <= k < |items[1..]| :: Emit(items[1..][k], schema) == Ok([outs[1..][k]]) by {
        forall k | 0 <= k < |items[1..]| ensures Emit(items[1..][k], schema) == Ok([outs[1..][k]]) {
          assert items[1..][k] == items[k + 1] && outs[1..][k] == outs[k + 1];
        }
      }
      EmitAllSingles(items[1..], schema, outs[1..]);
      assert outs == [outs[0]] + outs[1..];
    }
  }

  /** A schedule row's item becomes its bracket. */
  lemma EmitRow(table: seq<Row>, schema: seq<string>, i: nat)
    requires Schedule(table, schema) && i < |table|
    ensures Emit(Item(BracketStart(table, schema, i), Some(Others(table[i], schema[0], schema[1]))), schema) ==
      Ok([ScheduleBrackets(table, schema)[i]])
  {
    var s, f, row := schema[0], schema[1], table[i];
    var d := Others(row, s, f);
    assert forall k | 2 <= k < |schema| :: schema[k] in d && d[schema[k]] == row[schema[k]] by {
      forall k | 2 <= k < |schema| ensures schema[k] in d && d[schema[k]] == row[schema[k]] {
        assert schema[k] != schema[0] && schema[k] != schema[1];
        assert schema[k] in row;
      }
    }
    assert d != map[] by {
      assert schema[2] in d;
    }
    if |schema| > 3 {
      var xs := seq(|schema| - 2, j requires 0 <= j < |schema| - 2 => d[schema[j + 2]]);
      var ys := seq(|schema| - 2, j requires 0 <= j < |schema| - 2 => row[schema[j + 2]]);
      assert xs == ys;
    }
  }

  /** What a schedule's closing item emits: its finish when finite, else nothing. */
  function Tail(last: Num): seq<Emitted> {
    if last.Fin? then [Limit(last.v)] else []
  }

  /** The closing item emits its finish when finite, else nothing. */
  lemma EmitClosing(last: Num, schema: seq<string>)
    requires |schema| >= 2
    ensures EmitAll([Item(last, None)], schema) == Ok(Tail(last))
  {
    var items := [Item(last, None)];
    assert items[0] == Item(last, None) && items[1..] == [];
    assert Emit(items[0], schema) == Ok(Tail(last));
    assert EmitAll(items[1..], schema) == Ok([]);
    assert Tail(last) + [] == Tail(last);
  }

  /** Each row's item of a schedule emits that row's bracket. */
  lemma ScheduleRowsEmit(table: seq<Row>, schema: seq<string>)
    requires Schedule(table, schema)
    ensures HasKeys(table, schema[0], schema[1])
    ensures forall k | 0 <= k < |table| ::
      Emit(Items(table, None, schema[0], schema[1])[k], schema) == Ok([ScheduleBrackets(table, schema)[k]])
  {
    ScheduleItemAt(table, schema, 0);
    forall k | 0 <= k < |table|
      ensures Emit(Items(table, None, schema[0], schema[1])[k], schema) == Ok([ScheduleBrackets(table, schema)[k]])
    {
      ScheduleItemAt(table, schema, k);
      EmitRow(table, schema, k);
    }
  }

  /** A schedule's items emit its brackets, then the finite last finish. */
  lemma ScheduleEmits(table: seq<Row>, schema: seq<string>)
    requires Schedule(table, schema)
    ensures HasKeys(table, schema[0], schema[1])
    ensures EmitAll(Items(table, None, schema[0], schema[1]) + [Item(table[|table| - 1][schema[1]], None)], schema) ==
      Ok(ScheduleBrackets(table, schema) + Tail(table[|table| - 1][schema[1]]))
  {
    ScheduleRowsEmit(table, schema);
    var brs := Items(table, None, schema[0], schema[1]);
    var last := table[|table| - 1][schema[1]];
    EmitAllSingles(brs, schema, ScheduleBrackets(table, schema));
    EmitClosing(last, schema);
    EmitAllAppend(brs, [Item(last, None)], schema);
  }

  /** table_gen on a schedule: its brackets, then the finite last finish. */
  lemma ScheduleTableGen(table: seq<Row>, schema: seq<string>)
    requires Schedule(table, schema)
    ensures TableGen(table, schema) == Ok(ScheduleBrackets(table, schema) + Tail(table[|table| - 1][schema[1]]))
  {
    var s, f, n := schema[0], schema[1], |table|;
    ScheduleHalfway(table, schema);
    var items := Items(table, None, s, f) + [Item(table[n - 1][f], None)];
    forall k | 0 <= k < n
      ensures items[k].data.Some? && items[k].start == BracketStart(table, schema, k)
    {
      ScheduleItemAt(table, schema, k);
    }
    ScheduleItemsSorted(table, schema, items);
    ScheduleEmits(table, schema);
  }

  /**
   * The processor on a schedule: reader returns one bracket per row, in
   * file order, each starting at the first row's start or halfway between a
   * row's start and the previous row's finish and carrying the row's value
   * columns; the last row's finish comes apart as the limit exactly when it
   * is finite.
   */
  lemma ScheduleReader(table: seq<Row>, schema: seq<string>)
    requires Schedule(table, schema)
    ensures Reader(table, schema).Ok?
    ensures var out, last := Reader(table, schema).value, table[|table| - 1][schema[1]];
      out.rows == ScheduleBrackets(table, schema)
      && (out.BracketsAndLimit? <==> last.Fin?)
      && (out.BracketsAndLimit? ==> out.limit == last.v)
  {
    var n := |table|;
    var last := table[n - 1][schema[1]];
    var expected := ScheduleBrackets(table, schema);
    ScheduleTableGen(table, schema);
    if last.Fin? {
      assert (expected + Tail(last))[..n] == expected;
    } else {
      assert expected + Tail(last) == expected;
      assert expected[n - 1].Bracket?;
    }
  }
}
