/** Splitting the `tags` cell into tag names (`s2p_parse_tags`). */
module Tags {
  import opened PhpText

  /** A well-formed tag name: non-empty, trimmed, without commas. */
  predicate IsTagName(t: string) {
    t != "" && IsTrimmed(t) && ',' !in t
  }

  predicate AreTagNames(tags: seq<string>) {
    forall i :: 0 <= i < |tags| ==> IsTagName(tags[i])
  }

  /** Trimming never introduces a character. */
  lemma TrimKeepsOut(s: string, c: char)
    requires c !in s
    ensures c !in Trim(s)
  {
    var right := TrimRight(s);
    forall i | 0 <= i < |right| ensures right[i] != c {
      assert right[i] == s[i];
    }
    var r := TrimLeft(right);
    forall i | 0 <= i < |r| ensures r[i] != c {
      assert r[i] == right[|right| - |r| + i];
    }
  }

  lemma AppendTagNames(a: seq<string>, b: seq<string>)
    requires AreTagNames(a) && AreTagNames(b)
    ensures AreTagNames(a + b)
  {
    forall i | 0 <= i < |a + b| ensures IsTagName((a + b)[i]) {
      if i < |a| { assert (a + b)[i] == a[i]; } else { assert (a + b)[i] == b[i - |a|]; }
    }
  }

  /** Trim every part and drop the ones that become empty, keeping order. */
  function TrimmedNonEmpty(parts: seq<string>): (tags: seq<string>)
    requires forall i :: 0 <= i < |parts| ==> ',' !in parts[i]
    ensures |tags| <= |parts|
    ensures AreTagNames(tags)
  {
    if |parts| == 0 then []
    else
      var t := Trim(parts[0]);
      TrimKeepsOut(parts[0], ',');
      var head := if t != "" then [t] else [];
      var rest := TrimmedNonEmpty(parts[1..]);
      assert AreTagNames(head);
      AppendTagNames(head, rest);
      head + rest
  }

  /** `s2p_parse_tags`: the comma-separated parts of the trimmed cell, trimmed, empties dropped. */
  function ParseTags(s: string): (tags: seq<string>)
    ensures AreTagNames(tags)
    ensures AllTrimSpace(s) ==> tags == []
  {
    var t := Trim(s);
    TrimEmptyIff(s);
    if t == "" then [] else TrimmedNonEmpty(Split(t, ','))
  }

  /** First and last character of a join of non-empty parts. */
  lemma {:induction false} JoinEnds(parts: seq<string>, d: char)
    requires |parts| >= 1
    requires forall i :: 0 <= i < |parts| ==> parts[i] != ""
    ensures |Join(parts, d)| >= 1
    ensures Join(parts, d)[0] == parts[0][0]
    ensures Join(parts, d)[|Join(parts, d)| - 1] == parts[|parts| - 1][|parts[|parts| - 1]| - 1]
    decreases |parts|
  {
    if |parts| > 1 {
      var rest := parts[1..];
      assert rest[|rest| - 1] == parts[|parts| - 1];
      if |rest| == 1 {
        assert Join(rest, d) == rest[0];
      } else {
        JoinEnds(rest, d);
      }
    }
  }

  /** Well-formed tags survive trimming and filtering unchanged. */
  lemma {:induction false} TrimmedNonEmptyOfTags(tags: seq<string>)
    requires AreTagNames(tags)
    ensures TrimmedNonEmpty(tags) == tags
    decreases |tags|
  {
    if |tags| > 0 {
      TrimOfTrimmed(tags[0]);
      TrimmedNonEmptyOfTags(tags[1..]);
    }
  }

  /** Joining well-formed tags with commas and parsing the result gives the tags back. */
  lemma {:induction false} ParseTagsJoin(tags: seq<string>)
    requires |tags| >= 1
    requires AreTagNames(tags)
    ensures ParseTags(Join(tags, ',')) == tags
  {
    var s := Join(tags, ',');
    JoinEnds(tags, ',');
    assert IsTrimmed(s);
    TrimOfTrimmed(s);
    SplitJoin(tags, ',');
    TrimmedNonEmptyOfTags(tags);
  }

  /**
   * Reference reading of the tag list: every comma-separated part of `s` trimmed, empty parts
   * dropped, in order, with no separate trim of the whole cell first.
   */
  function CommaTags(s: string): seq<string> {
    TrimmedNonEmpty(Split(s, ','))
  }

  /** The trim-and-drop step distributes over concatenated part lists. */
  lemma {:induction false} TrimmedNonEmptyAppend(a: seq<string>, b: seq<string>)
    requires forall i :: 0 <= i < |a| ==> ',' !in a[i]
    requires forall i :: 0 <= i < |b| ==> ',' !in b[i]
    ensures TrimmedNonEmpty(a + b) == TrimmedNonEmpty(a) + TrimmedNonEmpty(b)
    decreases |a|
  {
    if |a| == 0 {
      assert a + b == b;
    } else {
      assert (a + b)[0] == a[0];
      assert (a + b)[1..] == a[1..] + b;
      TrimmedNonEmptyAppend(a[1..], b);
    }
  }

  /** A comma-free part gives its trimmed text, or nothing when that is empty. */
  lemma CommaTagsPart(p: string)
    requires ',' !in p
    ensures CommaTags(p) == if Trim(p) == "" then [] else [Trim(p)]
  {
    assert IndexOf(p, ',').None?;
    assert Split(p, ',') == [p];
    assert [p][1..] == [];
  }

  /** A comma separates the tags of the text before it from those of the text after it. */
  lemma CommaTagsComma(a: string, b: string)
    ensures CommaTags(a + [','] + b) == CommaTags(a) + CommaTags(b)
  {
    SplitAppend(a, b, ',');
    TrimmedNonEmptyAppend(Split(a, ','), Split(b, ','));
  }

  lemma TrimSpaceHasNoComma(l: string)
    requires AllTrimSpace(l)
    ensures ',' !in l
  {
    forall i | 0 <= i < |l| ensures l[i] != ',' {
      assert IsTrimSpace(l[i]);
    }
  }

  /** Trim characters at either end of the cell do not change the reference reading. */
  lemma {:induction false} CommaTagsPadded(l: string, x: string, r: string)
    requires AllTrimSpace(l) && AllTrimSpace(r)
    ensures CommaTags(l + x + r) == CommaTags(x)
    decreases |x|
  {
    match IndexOf(x, ',')
    case None =>
      CommaTagsPaddedPart(l, x, r);
    case Some(i) =>
      var a, b := x[..i], x[i + 1..];
      var none: string := [];
      assert x == a + [','] + b;
      assert l + a + none == l + a;
      assert none + b + r == b + r;
      CommaTagsPadded(l, a, none);
      CommaTagsPadded(none, b, r);
      CommaTagsPaddedComma(l, a, b, r);
  }

  lemma CommaTagsPaddedPart(l: string, x: string, r: string)
    requires AllTrimSpace(l) && AllTrimSpace(r)
    requires ',' !in x
    ensures CommaTags(l + x + r) == CommaTags(x)
  {
    TrimSpaceHasNoComma(l);
    TrimSpaceHasNoComma(r);
    assert ',' !in l + x + r;
    CommaTagsPart(l + x + r);
    CommaTagsPart(x);
    TrimPadded(l, x, r);
  }

  lemma CommaTagsPaddedComma(l: string, a: string, b: string, r: string)
    requires CommaTags(l + a) == CommaTags(a)
    requires CommaTags(b + r) == CommaTags(b)
    ensures CommaTags(l + (a + [','] + b) + r) == CommaTags(a + [','] + b)
  {
    Regroup(l, a, [','], b, r);
    CommaTagsComma(l + a, b + r);
    CommaTagsComma(a, b);
  }

  /** `s2p_parse_tags` agrees with the reference reading on every cell. */
  lemma ParseTagsReference(s: string)
    ensures ParseTags(s) == CommaTags(s)
  {
    TrimEmptyIff(s);
    if Trim(s) == "" {
      assert s + [] + [] == s;
      CommaTagsPadded(s, [], []);
      CommaTagsPart([]);
    } else {
      var j, k := TrimPieces(s);
      CommaTagsPadded(s[..j], Trim(s), s[k..]);
    }
  }

  /** A comma splits the tags of a cell: `ParseTags(a + "," + b)` is the tags of `a`, then of `b`. */
  lemma ParseTagsComma(a: string, b: string)
    ensures ParseTags(a + [','] + b) == ParseTags(a) + ParseTags(b)
  {
    ParseTagsReference(a + [','] + b);
    ParseTagsReference(a);
    ParseTagsReference(b);
    CommaTagsComma(a, b);
  }

  /** A cell without commas gives its trimmed text as the one tag, or no tag when blank. */
  lemma ParseTagsPart(p: string)
    requires ',' !in p
    ensures ParseTags(p) == if Trim(p) == "" then [] else [Trim(p)]
  {
    ParseTagsReference(p);
    CommaTagsPart(p);
  }
}
