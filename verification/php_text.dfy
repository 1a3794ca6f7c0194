/**
 * The PHP string primitives the plugin relies on, on `seq<char>` (one char per byte):
 * `trim`/`rtrim` with their default character list, ASCII `strtolower`, `explode`,
 * `str_replace` with one needle, PHP's `empty()` test on strings, and decimal rendering.
 */
module PhpText {
  import opened Options

  /** The characters `trim` strips by default: space, tab, LF, CR, NUL and vertical tab. */
  predicate IsTrimSpace(c: char) {
    c == ' ' || c == '\t' || c == '\n' || c == '\r' || c == '\0' || c == '\U{000B}'
  }

  /** The characters PCRE's `\s` matches: space, tab, LF, vertical tab, form feed and CR. */
  predicate IsPcreSpace(c: char) {
    c == ' ' || c == '\t' || c == '\n' || c == '\U{000B}' || c == '\U{000C}' || c == '\r'
  }

  predicate AllTrimSpace(s: string) {
    forall i :: 0 <= i < |s| ==> IsTrimSpace(s[i])
  }

  /** True when `s` has no strippable character at either end. */
  predicate IsTrimmed(s: string) {
    s == [] || (!IsTrimSpace(s[0]) && !IsTrimSpace(s[|s| - 1]))
  }

  /** `ltrim`: drops the maximal run of trim characters at the front. */
  function TrimLeft(s: string): (r: string)
    ensures |r| <= |s| && r == s[|s| - |r|..]
    ensures r == [] || !IsTrimSpace(r[0])
    decreases |s|
  {
    if |s| > 0 && IsTrimSpace(s[0]) then TrimLeft(s[1..]) else s
  }

  /** `rtrim`: drops the maximal run of trim characters at the end. */
  function TrimRight(s: string): (r: string)
    ensures |r| <= |s| && r == s[..|r|]
    ensures r == [] || !IsTrimSpace(r[|r| - 1])
    decreases |s|
  {
    if |s| > 0 && IsTrimSpace(s[|s| - 1]) then TrimRight(s[..|s| - 1]) else s
  }

  /** Everything `ltrim` drops is a trim character. */
  lemma {:induction false} TrimLeftDropsSpaces(s: string)
    ensures AllTrimSpace(s[..|s| - |TrimLeft(s)|])
    decreases |s|
  {
    if |s| > 0 && IsTrimSpace(s[0]) {
      TrimLeftDropsSpaces(s[1..]);
      var k := |s| - |TrimLeft(s)|;
      forall i | 0 <= i < k ensures IsTrimSpace(s[i]) {
        if i > 0 { assert s[i] == s[1..][..k - 1][i - 1]; }
      }
    }
  }

  /** Everything `rtrim` drops is a trim character. */
  lemma {:induction false} TrimRightDropsSpaces(s: string)
    ensures AllTrimSpace(s[|TrimRight(s)|..])
    decreases |s|
  {
    if |s| > 0 && IsTrimSpace(s[|s| - 1]) {
      var n := |s| - 1;
      TrimRightDropsSpaces(s[..n]);
      var k := |TrimRight(s)|;
      forall i | k <= i < |s| ensures IsTrimSpace(s[i]) {
        if i < n { assert s[i] == s[..n][k..][i - k]; }
      }
    }
  }

  /** `trim`: the longest infix of `s` that neither starts nor ends with a trim character. */
  function Trim(s: string): (r: string)
    ensures IsTrimmed(r)
    ensures |r| <= |s|
  {
    TrimLeft(TrimRight(s))
  }

  /** `trim` gives `""` exactly for strings made only of trim characters. */
  lemma TrimEmptyIff(s: string)
    ensures Trim(s) == [] <==> AllTrimSpace(s)
  {
    var right := TrimRight(s);
    TrimRightDropsSpaces(s);
    TrimLeftDropsSpaces(right);
    if Trim(s) == [] {
      assert right == [];
      forall i | 0 <= i < |s| ensures IsTrimSpace(s[i]) {
        assert s[i] == s[|right|..][i - |right|];
      }
    } else {
      var r := Trim(s);
      assert r == right[|right| - |r|..];
      assert !IsTrimSpace(right[|right| - |r|]);
      assert right[|right| - |r|] == s[|right| - |r|];
    }
  }

  /** Trimming is idempotent, and leaves an already trimmed string alone. */
  lemma {:induction false} TrimOfTrimmed(s: string)
    requires IsTrimmed(s)
    ensures Trim(s) == s
  {
    assert TrimRight(s) == s;
    assert TrimLeft(s) == s;
  }

  lemma TrimIdempotent(s: string)
    ensures Trim(Trim(s)) == Trim(s)
  {
    TrimOfTrimmed(Trim(s));
  }

  lemma AllTrimSpaceAppend(a: string, b: string)
    requires AllTrimSpace(a) && AllTrimSpace(b)
    ensures AllTrimSpace(a + b)
  {
    forall i | 0 <= i < |a + b| ensures IsTrimSpace((a + b)[i]) {
      if i < |a| { assert (a + b)[i] == a[i]; } else { assert (a + b)[i] == b[i - |a|]; }
    }
  }

  /** `ltrim` of trim characters followed by text that does not start with one drops exactly them. */
  lemma {:induction false} TrimLeftPadded(l: string, x: string)
    requires AllTrimSpace(l)
    requires x == [] || !IsTrimSpace(x[0])
    ensures TrimLeft(l + x) == x
    decreases |l|
  {
    if |l| > 0 {
      assert (l + x)[0] == l[0];
      assert (l + x)[1..] == l[1..] + x;
      TrimLeftPadded(l[1..], x);
    } else {
      assert l + x == x;
    }
  }

  /** `rtrim` of text that does not end in a trim character, followed by trim characters. */
  lemma {:induction false} TrimRightPadded(x: string, r: string)
    requires AllTrimSpace(r)
    requires x == [] || !IsTrimSpace(x[|x| - 1])
    ensures TrimRight(x + r) == x
    decreases |r|
  {
    if |r| > 0 {
      var n := |x + r| - 1;
      assert (x + r)[n] == r[|r| - 1];
      assert (x + r)[..n] == x + r[..|r| - 1];
      var r' := r[..|r| - 1];
      assert AllTrimSpace(r') by {
        forall i | 0 <= i < |r'| ensures IsTrimSpace(r'[i]) {
          assert r'[i] == r[i];
        }
      }
      TrimRightPadded(x, r');
    } else {
      assert x + r == x;
    }
  }

  /** A trimmed core between two runs of trim characters is what `trim` returns. */
  lemma TrimUnique(l: string, m: string, r: string)
    requires AllTrimSpace(l) && AllTrimSpace(r) && IsTrimmed(m)
    ensures Trim(l + m + r) == m
  {
    if m == [] {
      AllTrimSpaceAppend(l, r);
      assert l + m + r == l + r;
      TrimEmptyIff(l + m + r);
    } else {
      assert (l + m)[|l + m| - 1] == m[|m| - 1];
      TrimRightPadded(l + m, r);
      TrimLeftPadded(l, m);
    }
  }

  /** `trim(s)` is the infix `s[j..k]`, with only trim characters outside it. */
  lemma TrimPieces(s: string) returns (j: nat, k: nat)
    ensures j <= k <= |s| && s[j..k] == Trim(s)
    ensures AllTrimSpace(s[..j]) && AllTrimSpace(s[k..])
    ensures s == s[..j] + Trim(s) + s[k..]
  {
    var right := TrimRight(s);
    TrimRightDropsSpaces(s);
    TrimLeftDropsSpaces(right);
    k := |right|;
    j := k - |Trim(s)|;
    assert right == s[..k];
    assert right[..j] == s[..j];
    assert Trim(s) == right[j..];
    assert s == s[..j] + s[j..k] + s[k..];
  }

  lemma Regroup(a: string, b: string, c: string, d: string, e: string)
    ensures a + (b + c + d) + e == (a + b) + c + (d + e)
  {
  }

  /** Trim characters added at either end do not change `trim`. */
  lemma TrimPadded(l: string, x: string, r: string)
    requires AllTrimSpace(l) && AllTrimSpace(r)
    ensures Trim(l + x + r) == Trim(x)
  {
    var j, k := TrimPieces(x);
    var front, core, back := x[..j], Trim(x), x[k..];
    Regroup(l, front, core, back, r);
    AllTrimSpaceAppend(l, front);
    AllTrimSpaceAppend(back, r);
    TrimUnique(l + front, core, back + r);
  }

  /** ASCII case mapping, as `strtolower` does from PHP 8.2 on. */
  function LowerChar(c: char): char {
    if 'A' <= c <= 'Z' then (c as int + 32) as char else c
  }

  function Lower(s: string): (r: string)
    ensures |r| == |s|
    ensures forall i :: 0 <= i < |s| ==> r[i] == LowerChar(s[i])
  {
    if |s| == 0 then [] else [LowerChar(s[0])] + Lower(s[1..])
  }

  /** PHP's `empty()` on a string: true for `""` and for `"0"`. */
  predicate PhpEmpty(s: string) {
    s == "" || s == "0"
  }

  /** `s` begins with `p`. */
  predicate StartsWith(s: string, p: string) {
    |p| <= |s| && s[..|p|] == p
  }

  /** `n` occurs somewhere in `s`. */
  predicate Occurs(s: string, n: string) {
    exists i :: 0 <= i <= |s| && StartsWith(s[i..], n)
  }

  /** Index of the leftmost `c` in `s`. */
  function IndexOf(s: string, c: char): (r: Option<nat>)
    ensures r.None? <==> c !in s
    ensures r.Some? ==> r.value < |s| && s[r.value] == c && c !in s[..r.value]
    decreases |s|
  {
    if |s| == 0 then None
    else if s[0] == c then Some(0)
    else
      match IndexOf(s[1..], c)
      case None => None
      case Some(i) =>
        assert s[..i + 1] == [s[0]] + s[1..][..i];
        Some(i + 1)
  }

  /** Position of the leftmost occurrence of `n` in `s` at or after `from`. */
  function FindFrom(s: string, n: string, from: nat): (r: Option<nat>)
    requires |n| > 0
    ensures r.Some? ==> from <= r.value && r.value + |n| <= |s| && StartsWith(s[r.value..], n)
    ensures r.Some? ==> forall q :: from <= q < r.value ==> !StartsWith(s[q..], n)
    ensures r.None? ==> forall q :: from <= q <= |s| ==> !StartsWith(s[q..], n)
    decreases |s| - from
  {
    if from + |n| > |s| then None
    else if StartsWith(s[from..], n) then Some(from)
    else FindFrom(s, n, from + 1)
  }

  /** The parts joined back with one `d` between neighbours (`implode`). */
  function Join(parts: seq<string>, d: char): string
    requires |parts| >= 1
    decreases |parts|
  {
    if |parts| == 1 then parts[0] else parts[0] + [d] + Join(parts[1..], d)
  }

  /** `explode`: the maximal `d`-free pieces of `s`, in order; never empty. */
  function Split(s: string, d: char): (parts: seq<string>)
    ensures |parts| >= 1
    ensures forall i :: 0 <= i < |parts| ==> d !in parts[i]
    ensures Join(parts, d) == s
    decreases |s|
  {
    match IndexOf(s, d)
    case None => [s]
    case Some(i) =>
      var rest := Split(s[i + 1..], d);
      assert s == s[..i] + [d] + s[i + 1..];
      [s[..i]] + rest
  }

  /** Splitting a join of `d`-free parts gives the parts back. */
  lemma {:induction false} SplitJoin(parts: seq<string>, d: char)
    requires |parts| >= 1
    requires forall i :: 0 <= i < |parts| ==> d !in parts[i]
    ensures Split(Join(parts, d), d) == parts
    decreases |parts|
  {
    if |parts| == 1 {
      assert IndexOf(parts[0], d).None?;
    } else {
      var s := Join(parts, d);
      var n := |parts[0]|;
      assert s == parts[0] + [d] + Join(parts[1..], d);
      assert s[..n] == parts[0];
      assert s[n] == d;
      assert IndexOf(s, d) == Some(n);
      assert s[n + 1..] == Join(parts[1..], d);
      SplitJoin(parts[1..], d);
      assert Split(s, d) == [parts[0]] + parts[1..];
    }
  }

  /** Joining two lists of parts puts one delimiter between their joins. */
  lemma {:induction false} JoinAppend(p: seq<string>, q: seq<string>, d: char)
    requires |p| >= 1 && |q| >= 1
    ensures Join(p + q, d) == Join(p, d) + [d] + Join(q, d)
    decreases |p|
  {
    if |p| == 1 {
      assert (p + q)[1..] == q;
    } else {
      assert (p + q)[1..] == p[1..] + q;
      JoinAppend(p[1..], q, d);
    }
  }

  /** `explode` at a delimiter between `a` and `b` is the pieces of `a` followed by those of `b`. */
  lemma SplitAppend(a: string, b: string, d: char)
    ensures Split(a + [d] + b, d) == Split(a, d) + Split(b, d)
  {
    var pa := Split(a, d);
    var pb := Split(b, d);
    JoinAppend(pa, pb, d);
    forall i | 0 <= i < |pa + pb| ensures d !in (pa + pb)[i] {
      if i < |pa| { assert (pa + pb)[i] == pa[i]; } else { assert (pa + pb)[i] == pb[i - |pa|]; }
    }
    SplitJoin(pa + pb, d);
  }

  /** `str_replace(needle, rep, s)`: every leftmost, non-overlapping occurrence replaced. */
  function Replace(s: string, needle: string, rep: string): string
    requires |needle| > 0
    decreases |s|
  {
    if |s| < |needle| then s
    else if s[..|needle|] == needle then rep + Replace(s[|needle|..], needle, rep)
    else [s[0]] + Replace(s[1..], needle, rep)
  }

  /** Replacing a needle that does not occur changes nothing. */
  lemma {:induction false} ReplaceAbsent(s: string, needle: string, rep: string)
    requires |needle| > 0
    requires !Occurs(s, needle)
    ensures Replace(s, needle, rep) == s
    decreases |s|
  {
    if |s| >= |needle| {
      assert s[0..] == s;
      assert !Occurs(s[1..], needle) by {
        forall i | 0 <= i <= |s[1..]|
          ensures !StartsWith(s[1..][i..], needle)
        {
          assert s[1..][i..] == s[i + 1..];
        }
      }
      ReplaceAbsent(s[1..], needle, rep);
    }
  }

  /** Replacing one character by another leaves no occurrence of the first. */
  lemma {:induction false} ReplaceCharRemoves(s: string, a: char, b: char)
    requires a != b
    ensures a !in Replace(s, [a], [b])
    ensures |Replace(s, [a], [b])| == |s|
    decreases |s|
  {
    if |s| >= 1 {
      ReplaceCharRemoves(s[1..], a, b);
      if s[..1] == [a] {
        assert s[1..] == s[|[a]|..];
      } else {
        assert s[0] != a by { assert s[..1] == [s[0]]; }
      }
    }
  }

  /** A suffix of `x` that is a proper prefix of `needle` would let an occurrence straddle a join. */
  predicate NoPartialTail(x: string, needle: string) {
    forall p :: 0 <= p < |x| && |x| - p < |needle| ==> x[p..] != needle[..|x| - p]
  }

  /** Dropping a prefix keeps the no-straddle property. */
  lemma NoPartialTailSuffix(x: string, k: nat, needle: string)
    requires k <= |x|
    requires NoPartialTail(x, needle)
    ensures NoPartialTail(x[k..], needle)
  {
    forall p | 0 <= p < |x[k..]| && |x[k..]| - p < |needle|
      ensures x[k..][p..] != needle[..|x[k..]| - p]
    {
      assert x[k..][p..] == x[p + k..];
    }
  }

  /** Replacement distributes over a concatenation when no occurrence can straddle the join. */
  lemma {:induction false} ReplaceAppend(x: string, y: string, needle: string, rep: string)
    requires |needle| > 0
    requires NoPartialTail(x, needle)
    ensures Replace(x + y, needle, rep) == Replace(x, needle, rep) + Replace(y, needle, rep)
    decreases |x|
  {
    var n := |needle|;
    if |x| == 0 {
      assert x + y == y;
    } else if |x| < n {
      ReplaceAppendShortHead(x, y, needle, rep);
    } else if x[..n] == needle {
      NoPartialTailSuffix(x, n, needle);
      ReplaceAppend(x[n..], y, needle, rep);
      ReplaceAppendMatch(x, y, needle, rep);
    } else {
      NoPartialTailSuffix(x, 1, needle);
      ReplaceAppend(x[1..], y, needle, rep);
      ReplaceAppendSkip(x, y, needle, rep);
    }
  }

  /** The step of `ReplaceAppend` where the head starts with the needle. */
  lemma ReplaceAppendMatch(x: string, y: string, needle: string, rep: string)
    requires 0 < |needle| <= |x|
    requires x[..|needle|] == needle
    requires Replace(x[|needle|..] + y, needle, rep) == Replace(x[|needle|..], needle, rep) + Replace(y, needle, rep)
    ensures Replace(x + y, needle, rep) == Replace(x, needle, rep) + Replace(y, needle, rep)
  {
    var n := |needle|;
    ReplaceStep(x, needle, rep);
    assert (x + y)[..n] == x[..n];
    assert (x + y)[n..] == x[n..] + y;
    ReplaceStep(x + y, needle, rep);
  }

  /** The step of `ReplaceAppend` where the head does not start with the needle. */
  lemma ReplaceAppendSkip(x: string, y: string, needle: string, rep: string)
    requires 0 < |needle| <= |x|
    requires x[..|needle|] != needle
    requires Replace(x[1..] + y, needle, rep) == Replace(x[1..], needle, rep) + Replace(y, needle, rep)
    ensures Replace(x + y, needle, rep) == Replace(x, needle, rep) + Replace(y, needle, rep)
  {
    var n := |needle|;
    ReplaceStep(x, needle, rep);
    assert (x + y)[..n] == x[..n];
    assert (x + y)[0] == x[0];
    assert (x + y)[1..] == x[1..] + y;
    ReplaceStep(x + y, needle, rep);
    calc {
      Replace(x + y, needle, rep);
      [x[0]] + Replace(x[1..] + y, needle, rep);
      [x[0]] + (Replace(x[1..], needle, rep) + Replace(y, needle, rep));
      ([x[0]] + Replace(x[1..], needle, rep)) + Replace(y, needle, rep);
      Replace(x, needle, rep) + Replace(y, needle, rep);
    }
  }

  /** One unfolding of `Replace` on a string at least as long as the needle. */
  lemma ReplaceStep(s: string, needle: string, rep: string)
    requires |needle| > 0
    requires |s| >= |needle|
    ensures s[..|needle|] == needle ==> Replace(s, needle, rep) == rep + Replace(s[|needle|..], needle, rep)
    ensures s[..|needle|] != needle ==> Replace(s, needle, rep) == [s[0]] + Replace(s[1..], needle, rep)
  {
  }

  /** The case of `ReplaceAppend` where the head is shorter than the needle. */
  lemma {:induction false} ReplaceAppendShortHead(x: string, y: string, needle: string, rep: string)
    requires 0 < |x| < |needle|
    requires NoPartialTail(x, needle)
    ensures Replace(x + y, needle, rep) == x + Replace(y, needle, rep)
    ensures Replace(x, needle, rep) == x
    decreases |x|
  {
    var n := |needle|;
    var xy := x + y;
    ReplaceShort(x, needle, rep);
    if |xy| < n {
      ReplaceShort(xy, needle, rep);
      ReplaceShort(y, needle, rep);
    } else {
      assert x[0..] == x;
      assert xy[..n] != needle by {
        assert xy[..n][..|x|] == x;
        assert needle[..|x|] != x;
      }
      ReplaceStep(xy, needle, rep);
      assert xy[1..] == x[1..] + y;
      if |x| == 1 {
        assert x[1..] + y == y;
      } else {
        NoPartialTailSuffix(x, 1, needle);
        ReplaceAppendShortHead(x[1..], y, needle, rep);
      }
      assert x == [x[0]] + x[1..];
    }
  }

  /** A string shorter than the needle is never changed. */
  lemma ReplaceShort(s: string, needle: string, rep: string)
    requires |needle| > 0
    requires |s| < |needle|
    ensures Replace(s, needle, rep) == s
  {
  }

  /** A decimal digit character for `d < 10`. */
  function DigitChar(d: nat): char
    requires d < 10
  {
    ('0' as int + d) as char
  }

  predicate IsDigit(c: char) {
    '0' <= c <= '9'
  }

  /** Value of a string of decimal digits. */
  function DigitsValue(s: string): nat
    requires forall i :: 0 <= i < |s| ==> IsDigit(s[i])
  {
    if |s| == 0 then 0
    else DigitsValue(s[..|s| - 1]) * 10 + DigitOf(s[|s| - 1])
  }

  function DigitOf(c: char): nat
    requires IsDigit(c)
  {
    c as int - '0' as int
  }

  /** PHP's decimal rendering of a natural number, as string concatenation produces it. */
  function NatToString(n: nat): (r: string)
    ensures |r| >= 1
    ensures forall i :: 0 <= i < |r| ==> IsDigit(r[i])
    ensures DigitsValue(r) == n
    ensures n >= 10 ==> r[0] != '0'
  {
    if n < 10 then [DigitChar(n)]
    else
      var r := NatToString(n / 10) + [DigitChar(n % 10)];
      assert r[..|r| - 1] == NatToString(n / 10);
      r
  }
}
