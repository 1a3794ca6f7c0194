/**
 * Reading a sheet: cleaning up the fetched CSV text into rows (`s2p_fetch_sheet_rows`),
 * mapping header names to column indices (`s2p_header_map`), looking a cell up by column
 * name (`s2p_cell`) and splitting off the header (`s2p_load_sheet_data`).
 */
module SheetRows {
  import opened Options
  import opened PhpText
  import opened WordPress
  import CsvUrl

  /** One CSV line split into cells. */
  type Row = seq<string>

  /**
   * A PHP array from column name to column index, in insertion order. Assigning to a key
   * that is already present keeps its position and replaces its value.
   */
  type HeaderMap = seq<(string, nat)>

  /** Why a sheet could not be loaded. */
  datatype LoadError =
    | NoUrl          // the link held no sheet id
    | RemoteError    // the HTTP request failed
    | EmptySheet     // the response body was empty
    | NotEnoughRows  // fewer than a header row and one data row survived clean-up

  /** A loaded sheet: its header row, the header map built from it, and the data rows. */
  datatype Loaded = Loaded(header: Row, columns: HeaderMap, dataRows: seq<Row>)

  /**
   * Line-break normalisation: `\r\n` and then lone `\r` become `\n`. This is the
   * `str_replace(["\r\n", "\r"], "\n", ...)` of the Markdown renderer, and it splits
   * exactly where `preg_split("/\r\n|\n|\r/", ...)` does, since that alternation tries `\r\n` first.
   */
  function NormalizeEol(s: string): (r: string)
    ensures '\r' !in r
  {
    var a := Replace(s, "\r\n", "\n");
    ReplaceCharRemoves(a, '\r', '\n');
    Replace(a, "\r", "\n")
  }

  /** Text that already uses bare `\n` line breaks is left unchanged. */
  lemma NormalizeEolWithoutCr(s: string)
    requires '\r' !in s
    ensures NormalizeEol(s) == s
  {
    assert !Occurs(s, "\r\n") by {
      forall i | 0 <= i <= |s| ensures !StartsWith(s[i..], "\r\n") {
        if i < |s| { assert s[i..][0] == s[i]; }
      }
    }
    ReplaceAbsent(s, "\r\n", "\n");
    assert !Occurs(s, "\r") by {
      forall i | 0 <= i <= |s| ensures !StartsWith(s[i..], "\r") {
        if i < |s| { assert s[i..][0] == s[i]; }
      }
    }
    ReplaceAbsent(s, "\r", "\n");
  }

  /**
   * Reference reading of the line-break normalisation, one break at a time from the left:
   * `\r\n` is one break, a lone `\r` is another, and every other character is copied.
   */
  function UnixEol(s: string): string
    decreases |s|
  {
    if |s| == 0 then ""
    else if s[0] == '\r' then "\n" + UnixEol(if |s| >= 2 && s[1] == '\n' then s[2..] else s[1..])
    else [s[0]] + UnixEol(s[1..])
  }

  /** The first `str_replace` pass at the front of the text. */
  lemma CrLfStep(s: string)
    requires |s| >= 1
    ensures |s| >= 2 && s[0] == '\r' && s[1] == '\n' ==>
      Replace(s, "\r\n", "\n") == "\n" + Replace(s[2..], "\r\n", "\n")
    ensures !(|s| >= 2 && s[0] == '\r' && s[1] == '\n') ==>
      Replace(s, "\r\n", "\n") == [s[0]] + Replace(s[1..], "\r\n", "\n")
  {
    if |s| == 1 {
      ReplaceShort(s, "\r\n", "\n");
      ReplaceShort(s[1..], "\r\n", "\n");
      assert s == [s[0]] + s[1..];
    } else {
      assert s[..2] == [s[0], s[1]];
      ReplaceStep(s, "\r\n", "\n");
    }
  }

  /** The second `str_replace` pass at the front of the text. */
  lemma CrStep(c: char, t: string)
    ensures Replace([c] + t, "\r", "\n") == (if c == '\r' then "\n" else [c]) + Replace(t, "\r", "\n")
  {
    var s := [c] + t;
    assert s[..1] == [c];
    assert s[1..] == t;
    ReplaceStep(s, "\r", "\n");
  }

  /** The two `str_replace` passes normalise line breaks exactly as the reference reading does. */
  lemma {:induction false} NormalizeEolReference(s: string)
    ensures NormalizeEol(s) == UnixEol(s)
    decreases |s|
  {
    if |s| == 0 {
      ReplaceShort(s, "\r\n", "\n");
      ReplaceShort(s, "\r", "\n");
    } else {
      CrLfStep(s);
      var a := Replace(s, "\r\n", "\n");
      if |s| >= 2 && s[0] == '\r' && s[1] == '\n' {
        NormalizeEolReference(s[2..]);
        CrStep('\n', Replace(s[2..], "\r\n", "\n"));
      } else {
        NormalizeEolReference(s[1..]);
        CrStep(s[0], Replace(s[1..], "\r\n", "\n"));
      }
    }
  }

  /** A character absent from a join is absent from every part. */
  lemma {:induction false} NotInJoinedParts(parts: seq<string>, d: char, c: char)
    requires |parts| >= 1
    requires c !in Join(parts, d)
    ensures forall i :: 0 <= i < |parts| ==> c !in parts[i]
    decreases |parts|
  {
    if |parts| > 1 {
      NotInJoinedParts(parts[1..], d, c);
      forall i | 0 <= i < |parts| ensures c !in parts[i] {
        if i > 0 { assert parts[i] == parts[1..][i - 1]; }
      }
    }
  }

  /** The lines of `s`, split at every line break of any convention. */
  function Lines(s: string): (lines: seq<string>)
    ensures |lines| >= 1
    ensures forall i :: 0 <= i < |lines| ==> '\n' !in lines[i] && '\r' !in lines[i]
    ensures Join(lines, '\n') == NormalizeEol(s)
  {
    var lines := Split(NormalizeEol(s), '\n');
    NotInJoinedParts(lines, '\n', '\r');
    lines
  }

  /** Some cell is not blank after trimming. */
  predicate HasContent(cells: Row) {
    exists i :: 0 <= i < |cells| && Trim(cells[i]) != ""
  }

  /** The clean-up keeps a line when it is not blank and its cells are not all blank. */
  predicate KeepLine(csv: string -> seq<string>, line: string) {
    Trim(line) != "" && HasContent(csv(line))
  }

  /** The clean-up rule as a function value, so the filter's proof can treat it abstractly. */
  function KeepRule(csv: string -> seq<string>): string -> bool {
    line => KeepLine(csv, line)
  }

  /** `row` is the parse of a kept line. */
  ghost predicate FromKeptLine(lines: seq<string>, csv: string -> seq<string>, keep: string -> bool, row: Row) {
    exists i :: 0 <= i < |lines| && keep(lines[i]) && csv(lines[i]) == row
  }

  /** Every row is the parse of a kept line. */
  ghost predicate RowsFromKeptLines(lines: seq<string>, csv: string -> seq<string>, keep: string -> bool, rows: seq<Row>) {
    forall j :: 0 <= j < |rows| ==> FromKeptLine(lines, csv, keep, rows[j])
  }

  /** The parse of every kept line is among the rows. */
  ghost predicate KeptLinesInRows(lines: seq<string>, csv: string -> seq<string>, keep: string -> bool, rows: seq<Row>) {
    forall i :: 0 <= i < |lines| && keep(lines[i]) ==> csv(lines[i]) in rows
  }

  /** What the row filter promises about its result `rows` for `lines`. */
  ghost predicate FilterSpec(lines: seq<string>, csv: string -> seq<string>, keep: string -> bool, rows: seq<Row>) {
    && |rows| <= |lines|
    && RowsFromKeptLines(lines, csv, keep, rows)
    && KeptLinesInRows(lines, csv, keep, rows)
    && ((forall i :: 0 <= i < |lines| ==> keep(lines[i])) ==> |rows| == |lines|)
  }

  /**
   * The row-filter loop of `s2p_fetch_sheet_rows`: every kept row is the parse of a kept line
   * (so it has a non-blank cell), every kept line's parse is there, and nothing is dropped when
   * every line is kept.
   */
  function FilterRows(lines: seq<string>, csv: string -> seq<string>): (rows: seq<Row>)
    ensures FilterSpec(lines, csv, KeepRule(csv), rows)
  {
    if |lines| == 0 then []
    else
      var rest := FilterRows(lines[1..], csv);
      var rows :=
        if Trim(lines[0]) == "" then rest
        else
          var cols := csv(lines[0]);
          if !HasContent(cols) then rest else [cols] + rest;
      assert rows == if KeepRule(csv)(lines[0]) then [csv(lines[0])] + rest else rest;
      FilterStepSound(lines, csv, KeepRule(csv), rest, rows);
      FilterStepComplete(lines, csv, KeepRule(csv), rest, rows);
      FilterStepAll(lines, csv, KeepRule(csv), rest, rows);
      rows
  }

  /** One unfolding of the filter: the first line's row, when it is kept, before the rest. */
  lemma FilterRowsCons(lines: seq<string>, csv: string -> seq<string>)
    requires |lines| >= 1
    ensures FilterRows(lines, csv) ==
      (if KeepLine(csv, lines[0]) then [csv(lines[0])] else []) + FilterRows(lines[1..], csv)
  {
  }

  /** A single line gives its parse when it is kept and nothing otherwise. */
  lemma FilterRowsOne(line: string, csv: string -> seq<string>)
    ensures FilterRows([line], csv) == if KeepLine(csv, line) then [csv(line)] else []
  {
    FilterRowsCons([line], csv);
    assert [line][1..] == [];
  }

  /**
   * The filter works line by line and keeps the order: the rows of `a + b` are the rows of `a`
   * followed by those of `b`. With `FilterRowsOne` this fixes the result on every input.
   */
  lemma {:induction false} FilterRowsAppend(a: seq<string>, b: seq<string>, csv: string -> seq<string>)
    ensures FilterRows(a + b, csv) == FilterRows(a, csv) + FilterRows(b, csv)
    decreases |a|
  {
    if |a| == 0 {
      assert a + b == b;
    } else {
      assert (a + b)[0] == a[0];
      assert (a + b)[1..] == a[1..] + b;
      FilterRowsAppend(a[1..], b, csv);
      FilterRowsCons(a + b, csv);
      FilterRowsCons(a, csv);
    }
  }

  /** Rows of the filter have a non-blank cell. */
  lemma FilterRowsHaveContent(lines: seq<string>, csv: string -> seq<string>)
    ensures forall j :: 0 <= j < |FilterRows(lines, csv)| ==> HasContent(FilterRows(lines, csv)[j])
  {
    var rows := FilterRows(lines, csv);
    assert RowsFromKeptLines(lines, csv, KeepRule(csv), rows);
    forall j | 0 <= j < |rows| ensures HasContent(rows[j]) {
      assert FromKeptLine(lines, csv, KeepRule(csv), rows[j]);
      var i :| 0 <= i < |lines| && KeepRule(csv)(lines[i]) && csv(lines[i]) == rows[j];
      assert KeepLine(csv, lines[i]);
    }
  }

  lemma FilterStepSound(lines: seq<string>, csv: string -> seq<string>, keep: string -> bool, rest: seq<Row>, rows: seq<Row>)
    requires |lines| >= 1
    requires RowsFromKeptLines(lines[1..], csv, keep, rest)
    requires rows == if keep(lines[0]) then [csv(lines[0])] + rest else rest
    ensures RowsFromKeptLines(lines, csv, keep, rows)
  {
    var tail := lines[1..];
    var shift := if keep(lines[0]) then 1 else 0;
    forall j | 0 <= j < |rows|
      ensures FromKeptLine(lines, csv, keep, rows[j])
    {
      if j < shift {
        assert keep(lines[0]) && rows[j] == csv(lines[0]);
      } else {
        assert rows[j] == rest[j - shift];
        var i :| 0 <= i < |tail| && keep(tail[i]) && csv(tail[i]) == rest[j - shift];
        assert lines[i + 1] == tail[i];
      }
    }
  }

  lemma FilterStepComplete(lines: seq<string>, csv: string -> seq<string>, keep: string -> bool, rest: seq<Row>, rows: seq<Row>)
    requires |lines| >= 1
    requires KeptLinesInRows(lines[1..], csv, keep, rest)
    requires rows == if keep(lines[0]) then [csv(lines[0])] + rest else rest
    ensures KeptLinesInRows(lines, csv, keep, rows)
  {
    var tail := lines[1..];
    forall i | 0 <= i < |lines| && keep(lines[i])
      ensures csv(lines[i]) in rows
    {
      if i > 0 {
        assert lines[i] == tail[i - 1];
        assert csv(tail[i - 1]) in rest;
      }
    }
  }

  lemma FilterStepAll(lines: seq<string>, csv: string -> seq<string>, keep: string -> bool, rest: seq<Row>, rows: seq<Row>)
    requires |lines| >= 1
    requires |rest| <= |lines| - 1
    requires (forall i :: 0 <= i < |lines| - 1 ==> keep(lines[1..][i])) ==> |rest| == |lines| - 1
    requires rows == if keep(lines[0]) then [csv(lines[0])] + rest else rest
    ensures |rows| <= |lines|
    ensures (forall i :: 0 <= i < |lines| ==> keep(lines[i])) ==> |rows| == |lines|
  {
    if forall i :: 0 <= i < |lines| ==> keep(lines[i]) {
      forall i | 0 <= i < |lines| - 1 ensures keep(lines[1..][i]) {
        assert lines[1..][i] == lines[i + 1];
      }
    }
  }

  /**
   * `s2p_fetch_sheet_rows` after the request: PHP's `empty()` rejects the URL and the body,
   * then the trimmed body is split into lines and filtered.
   */
  function FetchRows(csvUrl: string, wp: Wp): (r: Result<seq<Row>, LoadError>)
    ensures PhpEmpty(csvUrl) ==> r == Failure(NoUrl)
    ensures r.Success? ==> forall j :: 0 <= j < |r.value| ==> HasContent(r.value[j])
    ensures r.Success? ==> !PhpEmpty(csvUrl) && wp.remoteBody(csvUrl).Some?
    ensures !PhpEmpty(csvUrl) && wp.remoteBody(csvUrl).None? ==> r == Failure(RemoteError)
    ensures !PhpEmpty(csvUrl) && wp.remoteBody(csvUrl).Some? ==>
      var body := wp.remoteBody(csvUrl).value;
      r == if PhpEmpty(body) then Failure(EmptySheet)
           else Success(FilterRows(Lines(Trim(body)), wp.strGetCsv))
  {
    if PhpEmpty(csvUrl) then Failure(NoUrl)
    else
      match wp.remoteBody(csvUrl)
      case None => Failure(RemoteError)
      case Some(body) =>
        if PhpEmpty(body) then Failure(EmptySheet)
        else
          FilterRowsHaveContent(Lines(Trim(body)), wp.strGetCsv);
          Success(FilterRows(Lines(Trim(body)), wp.strGetCsv))
  }

  /** The header map key of a header cell: trimmed, then lower-cased. */
  function HeaderKey(h: string): string {
    Lower(Trim(h))
  }

  function Keys(m: HeaderMap): seq<string> {
    seq(|m|, i requires 0 <= i < |m| => m[i].0)
  }

  predicate UniqueKeys(m: HeaderMap) {
    forall i, j :: 0 <= i < j < |m| ==> m[i].0 != m[j].0
  }

  /** `isset($map[$k]) ? $map[$k] : null`. */
  function Lookup(m: HeaderMap, k: string): (r: Option<nat>)
    ensures r.None? <==> k !in Keys(m)
    ensures r.Some? ==> exists i :: 0 <= i < |m| && m[i] == (k, r.value)
  {
    assert |m| > 0 ==> Keys(m) == [m[0].0] + Keys(m[1..]);
    if |m| == 0 then None
    else if m[0].0 == k then Some(m[0].1)
    else
      var r := Lookup(m[1..], k);
      assert r.Some? ==> exists i :: 0 <= i < |m| && m[i] == (k, r.value) by {
        if r.Some? {
          var i :| 0 <= i < |m[1..]| && m[1..][i] == (k, r.value);
          assert m[i + 1] == (k, r.value);
        }
      }
      r
  }

  /** `$map[$k] = $v`: updates in place when `k` is present, appends otherwise. */
  function Put(m: HeaderMap, k: string, v: nat): HeaderMap {
    if |m| == 0 then [(k, v)]
    else if m[0].0 == k then [(k, v)] + m[1..]
    else [m[0]] + Put(m[1..], k, v)
  }

  /** After `Put`, `k` reads `v` and every other key reads as before. */
  lemma {:induction false} PutLookup(m: HeaderMap, k: string, v: nat)
    ensures Lookup(Put(m, k, v), k) == Some(v)
    ensures forall k' :: k' != k ==> Lookup(Put(m, k, v), k') == Lookup(m, k')
  {
    if |m| > 0 && m[0].0 != k {
      var rest := Put(m[1..], k, v);
      PutLookup(m[1..], k, v);
      assert Put(m, k, v) == [m[0]] + rest;
    }
  }

  /** `Put` keeps the key order, appending `k` when it is new. */
  lemma {:induction false} PutKeys(m: HeaderMap, k: string, v: nat)
    ensures Keys(Put(m, k, v)) == if k in Keys(m) then Keys(m) else Keys(m) + [k]
  {
    if |m| > 0 {
      var r := Put(m, k, v);
      assert Keys(m) == [m[0].0] + Keys(m[1..]);
      if m[0].0 == k {
        assert Keys(r) == [k] + Keys(m[1..]);
      } else {
        var rest := Put(m[1..], k, v);
        PutKeys(m[1..], k, v);
        assert Keys(r) == [m[0].0] + Keys(rest);
      }
    }
  }

  /** Entries with non-empty keys and columns below `bound` keep that shape under `Put`. */
  predicate EntriesBelow(m: HeaderMap, bound: nat) {
    forall i :: 0 <= i < |m| ==> m[i].0 != "" && m[i].1 < bound
  }

  lemma {:induction false} PutEntriesBelow(m: HeaderMap, k: string, v: nat, bound: nat)
    requires k != "" && v < bound
    requires EntriesBelow(m, bound)
    ensures EntriesBelow(Put(m, k, v), bound)
  {
    if |m| > 0 && m[0].0 != k {
      var rest := Put(m[1..], k, v);
      assert EntriesBelow(m[1..], bound) by {
        forall i | 0 <= i < |m[1..]| ensures m[1..][i].0 != "" && m[1..][i].1 < bound {
          assert m[1..][i] == m[i + 1];
        }
      }
      PutEntriesBelow(m[1..], k, v, bound);
      var r := Put(m, k, v);
      assert r == [m[0]] + rest;
      forall i | 0 <= i < |r| ensures r[i].0 != "" && r[i].1 < bound {
        if i > 0 {
          assert r[i] == rest[i - 1];
        }
      }
    }
  }

  /** Unique keys stay unique under `Put`. */
  lemma PutKeepsUnique(m: HeaderMap, k: string, v: nat)
    requires UniqueKeys(m)
    ensures UniqueKeys(Put(m, k, v))
  {
    var r := Put(m, k, v);
    PutKeys(m, k, v);
    forall i, j | 0 <= i < j < |r| ensures r[i].0 != r[j].0 {
      assert Keys(r)[i] == r[i].0 && Keys(r)[j] == r[j].0;
      if k in Keys(m) {
        assert Keys(m)[i] == m[i].0 && Keys(m)[j] == m[j].0;
      } else {
        if j < |m| {
          assert Keys(m)[i] == m[i].0 && Keys(m)[j] == m[j].0;
        } else {
          assert Keys(m)[i] == m[i].0;
        }
      }
    }
  }

  /** The header key of every column, in column order. */
  function HeaderKeys(header: Row): (keys: seq<string>)
    ensures |keys| == |header|
    ensures forall i :: 0 <= i < |header| ==> keys[i] == HeaderKey(header[i])
  {
    seq(|header|, i requires 0 <= i < |header| => HeaderKey(header[i]))
  }

  /** Reference definition: the rightmost column whose key is `k`. */
  function LastColumn(keys: seq<string>, k: string): (r: Option<nat>)
    ensures r.Some? ==> r.value < |keys| && keys[r.value] == k
    ensures r.Some? ==> forall j :: r.value < j < |keys| ==> keys[j] != k
    ensures r.None? ==> k !in keys
  {
    if |keys| == 0 then None
    else if keys[|keys| - 1] == k then Some(|keys| - 1)
    else
      var n := |keys| - 1;
      assert keys == keys[..n] + [keys[n]];
      LastColumn(keys[..n], k)
  }

  /**
   * The map built from the column keys in order: each non-empty key is put under its column
   * index, so a later column overwrites an earlier one with the same key.
   */
  function KeyMap(keys: seq<string>): HeaderMap {
    if |keys| == 0 then []
    else
      var n := |keys| - 1;
      var prev := KeyMap(keys[..n]);
      if keys[n] != "" then Put(prev, keys[n], n) else prev
  }

  /** `s2p_header_map`: the key map of the trimmed, lower-cased header cells. */
  function BuildHeaderMap(header: Row): HeaderMap {
    KeyMap(HeaderKeys(header))
  }

  /** Every entry of the key map has a non-empty key and the index of a column. */
  lemma {:induction false} KeyMapEntries(keys: seq<string>)
    ensures EntriesBelow(KeyMap(keys), |keys|)
  {
    if |keys| > 0 {
      var n := |keys| - 1;
      var prev := KeyMap(keys[..n]);
      KeyMapEntries(keys[..n]);
      assert EntriesBelow(prev, |keys|);
      if keys[n] != "" {
        PutEntriesBelow(prev, keys[n], n, |keys|);
      }
    }
  }

  /** The key map's keys are unique. */
  lemma {:induction false} KeyMapUnique(keys: seq<string>)
    ensures UniqueKeys(KeyMap(keys))
  {
    if |keys| > 0 {
      var n := |keys| - 1;
      KeyMapUnique(keys[..n]);
      if keys[n] != "" {
        PutKeepsUnique(KeyMap(keys[..n]), keys[n], n);
      }
    }
  }

  /** Every non-empty key maps to the LAST column carrying it; nothing else is mapped. */
  lemma {:induction false} KeyMapLookup(keys: seq<string>, k: string)
    ensures Lookup(KeyMap(keys), k) == if k == "" then None else LastColumn(keys, k)
    decreases |keys|
  {
    var m := KeyMap(keys);
    if k == "" {
      KeyMapEntries(keys);
      forall i | 0 <= i < |Keys(m)| ensures Keys(m)[i] != "" {
        assert Keys(m)[i] == m[i].0;
      }
    } else if |keys| > 0 {
      var n := |keys| - 1;
      var prev := KeyMap(keys[..n]);
      KeyMapLookup(keys[..n], k);
      if keys[n] != "" {
        PutLookup(prev, keys[n], n);
      }
      if k != keys[n] {
        assert LastColumn(keys, k) == LastColumn(keys[..n], k);
      }
    }
  }

  /**
   * `s2p_header_map`: the keys are unique, each entry names a column, and every non-empty
   * header key maps to the LAST column carrying it.
   */
  lemma HeaderMapLookup(header: Row, k: string)
    ensures UniqueKeys(BuildHeaderMap(header))
    ensures EntriesBelow(BuildHeaderMap(header), |header|)
    ensures Lookup(BuildHeaderMap(header), k) == if k == "" then None else LastColumn(HeaderKeys(header), k)
  {
    KeyMapUnique(HeaderKeys(header));
    KeyMapEntries(HeaderKeys(header));
    KeyMapLookup(HeaderKeys(header), k);
  }

  /** `s2p_cell`: the trimmed cell under the (lower-cased) column name, `""` when unknown or short. */
  function Cell(row: Row, m: HeaderMap, name: string): (r: string)
    ensures IsTrimmed(r)
  {
    match Lookup(m, Lower(name))
    case None => ""
    case Some(i) => if i < |row| then Trim(row[i]) else ""
  }

  /**
   * Looking a cell up through the header map is the same as finding the rightmost header
   * column with that name and trimming the row's cell there.
   */
  lemma CellByHeader(row: Row, header: Row, name: string)
    ensures Cell(row, BuildHeaderMap(header), name) ==
      (var k := Lower(name);
       if k == "" then ""
       else match LastColumn(HeaderKeys(header), k)
         case None => ""
         case Some(i) => if i < |row| then Trim(row[i]) else "")
  {
    HeaderMapLookup(header, Lower(name));
  }

  /**
   * `s2p_load_sheet_data`: convert the link, fetch and clean the rows, require a header row
   * plus at least one data row, and build the header map from the first row.
   */
  function LoadSheetData(sheetUrl: string, wp: Wp): (r: Result<Loaded, LoadError>)
    ensures var fetched := FetchRows(CsvUrl.ToCsvUrl(sheetUrl), wp);
      r.Success? <==> fetched.Success? && |fetched.value| >= 2
    ensures var fetched := FetchRows(CsvUrl.ToCsvUrl(sheetUrl), wp);
      r.Success? ==>
        && |r.value.dataRows| >= 1
        && r.value.header == fetched.value[0]
        && r.value.dataRows == fetched.value[1..]
        && r.value.columns == BuildHeaderMap(r.value.header)
    ensures var fetched := FetchRows(CsvUrl.ToCsvUrl(sheetUrl), wp);
      fetched.Failure? ==> r == Failure(fetched.error)
    ensures var fetched := FetchRows(CsvUrl.ToCsvUrl(sheetUrl), wp);
      fetched.Success? && |fetched.value| < 2 ==> r == Failure(NotEnoughRows)
  {
    match FetchRows(CsvUrl.ToCsvUrl(sheetUrl), wp)
    case Failure(e) => Failure(e)
    case Success(rows) =>
      if |rows| < 2 then Failure(NotEnoughRows)
      else
        Success(Loaded(rows[0], BuildHeaderMap(rows[0]), rows[1..]))
  }
}
