/**
 * Turning a Google Sheets link into its CSV export link (`s2p_to_csv_url`).
 * The source matches `/\/d\/([a-zA-Z0-9-_]+)/` against the trimmed link and rebuilds
 * the export URL from the captured sheet id.
 */
module CsvUrl {
  import opened Options
  import opened PhpText

  const ExportPrefix: string := "https://docs.google.com/spreadsheets/d/"
  const ExportSuffix: string := "/export?format=csv"

  /** The regex class `[a-zA-Z0-9-_]`: letters, digits, hyphen and underscore. */
  predicate IsIdChar(c: char) {
    ('a' <= c <= 'z') || ('A' <= c <= 'Z') || ('0' <= c <= '9') || c == '-' || c == '_'
  }

  /** A match of the pattern can begin at `p`: `/d/` followed by at least one id character. */
  predicate IdStartsAt(s: string, p: int) {
    0 <= p && p + 3 < |s| && s[p..p + 3] == "/d/" && IsIdChar(s[p + 3])
  }

  /** `p` is where the leftmost match begins. */
  predicate LeftmostIdStart(s: string, p: int) {
    IdStartsAt(s, p) && forall q :: 0 <= q < p ==> !IdStartsAt(s, q)
  }

  /** The greedy `+`: the longest prefix of `s` made of id characters. */
  function IdRun(s: string): (r: string)
    ensures StartsWith(s, r)
    ensures forall i :: 0 <= i < |r| ==> IsIdChar(r[i])
    ensures |r| == |s| || !IsIdChar(s[|r|])
    decreases |s|
  {
    if |s| > 0 && IsIdChar(s[0]) then
      var rest := IdRun(s[1..]);
      assert s[..1 + |rest|] == [s[0]] + s[1..][..|rest|];
      [s[0]] + rest
    else []
  }

  /** The run is exactly `id` when `id` is all id characters and is followed by a non-id character. */
  lemma {:induction false} IdRunOf(id: string, rest: string)
    requires forall i :: 0 <= i < |id| ==> IsIdChar(id[i])
    requires |rest| > 0 && !IsIdChar(rest[0])
    ensures IdRun(id + rest) == id
    decreases |id|
  {
    if |id| > 0 {
      assert (id + rest)[1..] == id[1..] + rest;
      IdRunOf(id[1..], rest);
      assert id == [id[0]] + id[1..];
    } else {
      assert id + rest == rest;
    }
  }

  /** Position of the leftmost match at or after `from`. */
  function FindIdStart(s: string, from: nat): (r: Option<nat>)
    ensures r.Some? ==> from <= r.value && IdStartsAt(s, r.value)
    ensures r.Some? ==> forall q :: from <= q < r.value ==> !IdStartsAt(s, q)
    ensures r.None? ==> forall q :: from <= q ==> !IdStartsAt(s, q)
    decreases |s| - from
  {
    if from + 3 >= |s| then None
    else if IdStartsAt(s, from) then Some(from)
    else FindIdStart(s, from + 1)
  }

  /** `s2p_to_csv_url`: the export link for the sheet id in `link`, or `""` when there is none. */
  function ToCsvUrl(link: string): (r: string)
    ensures r == "" <==> (Trim(link) == "" || forall q :: !IdStartsAt(Trim(link), q))
    ensures r != "" ==> exists p ::
      LeftmostIdStart(Trim(link), p) && r == ExportPrefix + IdRun(Trim(link)[p + 3..]) + ExportSuffix
  {
    var t := Trim(link);
    if t == "" then ""
    else
      match FindIdStart(t, 0)
      case None => ""
      case Some(p) =>
        var r := ExportPrefix + IdRun(t[p + 3..]) + ExportSuffix;
        assert |r| > 0;
        assert LeftmostIdStart(t, p);
        r
  }

  /** No match can begin inside the fixed part of an export link before its own `/d/`. */
  lemma NoEarlierMatch(u: string)
    requires StartsWith(u, ExportPrefix)
    ensures forall q :: 0 <= q < |ExportPrefix| - 3 ==> !IdStartsAt(u, q)
  {
    PrefixHasOneSheetPath();
    forall q | 0 <= q < |ExportPrefix| - 3
      ensures !IdStartsAt(u, q)
    {
      assert u[..|ExportPrefix|] == ExportPrefix;
      assert u[q] == ExportPrefix[q] && u[q + 1] == ExportPrefix[q + 1] && u[q + 2] == ExportPrefix[q + 2];
      assert u[q..q + 3] == [u[q], u[q + 1], u[q + 2]];
    }
  }

  /** The only `/d/` in the fixed prefix is its last three characters. */
  lemma PrefixHasOneSheetPath()
    ensures forall q :: 0 <= q < |ExportPrefix| - 3 ==>
      !(ExportPrefix[q] == '/' && ExportPrefix[q + 1] == 'd' && ExportPrefix[q + 2] == '/')
  {
    forall q | 0 <= q < |ExportPrefix| - 3
      ensures !(ExportPrefix[q] == '/' && ExportPrefix[q + 1] == 'd' && ExportPrefix[q + 2] == '/')
    {
      if ExportPrefix[q + 1] == 'd' {
        assert q + 1 == 8 || q + 1 == 29;
      }
    }
  }

  /** Converting an export link again yields the same link: the conversion is idempotent. */
  lemma {:induction false} ToCsvUrlIdempotent(link: string)
    requires ToCsvUrl(link) != ""
    ensures ToCsvUrl(ToCsvUrl(link)) == ToCsvUrl(link)
  {
    var t := Trim(link);
    var p :| LeftmostIdStart(t, p) && ToCsvUrl(link) == ExportPrefix + IdRun(t[p + 3..]) + ExportSuffix;
    var id := IdRun(t[p + 3..]);
    assert IsIdChar(t[p + 3..][0]);
    ExportUrlIsFixed(id);
  }

  /** An export link for a non-empty id converts to itself. */
  lemma ExportUrlIsFixed(id: string)
    requires |id| >= 1
    requires forall i :: 0 <= i < |id| ==> IsIdChar(id[i])
    ensures ToCsvUrl(ExportPrefix + id + ExportSuffix) == ExportPrefix + id + ExportSuffix
  {
    var u := ExportPrefix + id + ExportSuffix;
    var k := |ExportPrefix| - 3;
    assert IsTrimmed(u) by {
      assert u[0] == 'h';
      assert u[|u| - 1] == 'v';
    }
    TrimOfTrimmed(u);
    assert u[..|ExportPrefix|] == ExportPrefix;
    NoEarlierMatch(u);
    assert u[k..k + 3] == "/d/";
    assert u[k + 3] == id[0];
    assert LeftmostIdStart(u, k);
    FindIdStartLeftmost(u, k);
    assert u[k + 3..] == id + ExportSuffix;
    IdRunOf(id, ExportSuffix);
  }

  /** The search returns the leftmost match position. */
  lemma FindIdStartLeftmost(s: string, p: nat)
    requires LeftmostIdStart(s, p)
    ensures FindIdStart(s, 0) == Some(p)
  {
  }
}
