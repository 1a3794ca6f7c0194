/**
 * Developer-mode templating (`s2p_apply_template`): every `{{key}}` token of the header map is
 * replaced, in header-map order, by the escaped cell of that column; then a raw pass for
 * `{{content_html}}` runs; the result goes through `wp_kses_post`.
 *
 * Substitution is sequential `str_replace`, so a value written by an early key is itself
 * searched by later keys. The reference reading below (`Reference`) resolves every token of the
 * template independently; `ApplyTemplateMatchesReference` shows the two agree whenever neither
 * the keys nor the escaped values contain braces, and `ResubstitutionExample` shows they differ
 * when a value contains a later key's token.
 */
module Template {
  import opened Options
  import opened PhpText
  import opened WordPress
  import opened SheetRows

  /** The token `{{k}}`. */
  function Token(k: string): (t: string)
    ensures |t| == |k| + 4
  {
    "{{" + k + "}}"
  }

  /** `isset($row[$idx]) ? (string)$row[$idx] : ''`: the cell as stored, not trimmed. */
  function RawCell(row: Row, idx: nat): string {
    if idx < |row| then row[idx] else ""
  }

  /** The `foreach ($map as $key => $idx)` loop: one `str_replace` per entry, in map order. */
  function Substitute(out: string, entries: HeaderMap, row: Row, esc: string -> string): string
    decreases |entries|
  {
    if |entries| == 0 then out
    else
      var (k, idx) := entries[0];
      Substitute(Replace(out, Token(k), esc(RawCell(row, idx))), entries[1..], row, esc)
  }

  /** `s2p_apply_template`. */
  function ApplyTemplate(template: string, row: Row, m: HeaderMap, wp: Wp): string
  {
    var out := Substitute(template, m, row, wp.escHtml);
    var withRaw :=
      match Lookup(m, "content_html")
      case Some(idx) => Replace(out, Token("content_html"), RawCell(row, idx))
      case None => out;
    wp.ksesPost(withRaw)
  }

  // ---------------------------------------------------------------------------
  // Reference reading: a template as literal text and tokens
  // ---------------------------------------------------------------------------

  predicate BraceFree(s: string) {
    '{' !in s && '}' !in s
  }

  datatype Piece = Lit(text: string) | Tok(name: string)

  function PieceText(p: Piece): string {
    match p
    case Lit(x) => x
    case Tok(n) => Token(n)
  }

  /** The template text a piece list stands for. */
  function Flatten(ps: seq<Piece>): string
    decreases |ps|
  {
    if |ps| == 0 then "" else PieceText(ps[0]) + Flatten(ps[1..])
  }

  /** Literal text and token names without braces: every `{{` in the text starts a token. */
  predicate WellFormed(ps: seq<Piece>) {
    forall i :: 0 <= i < |ps| ==> BraceFree(if ps[i].Lit? then ps[i].text else ps[i].name)
  }

  /** A token for a key of the map becomes the escaped cell; any other piece stays as it is. */
  function Resolve(p: Piece, m: HeaderMap, row: Row, esc: string -> string): Piece {
    match p
    case Lit(_) => p
    case Tok(n) =>
      match Lookup(m, n)
      case Some(idx) => Lit(esc(RawCell(row, idx)))
      case None => p
  }

  function ResolveAll(ps: seq<Piece>, m: HeaderMap, row: Row, esc: string -> string): (r: seq<Piece>)
    ensures |r| == |ps|
    ensures forall i :: 0 <= i < |ps| ==> r[i] == Resolve(ps[i], m, row, esc)
  {
    seq(|ps|, i requires 0 <= i < |ps| => Resolve(ps[i], m, row, esc))
  }

  /** The intended output before `wp_kses_post`: every token resolved once, independently. */
  function Reference(ps: seq<Piece>, m: HeaderMap, row: Row, esc: string -> string): string {
    Flatten(ResolveAll(ps, m, row, esc))
  }

  // ---------------------------------------------------------------------------
  // Replacing one token in a well-formed piece list
  // ---------------------------------------------------------------------------

  /** Brace-free text holds no token and cannot end in the start of one. */
  lemma LitIsInert(x: string, k: string)
    requires BraceFree(x)
    ensures NoPartialTail(x, Token(k))
    ensures !Occurs(x, Token(k))
  {
    var needle := Token(k);
    forall p | 0 <= p < |x| && |x| - p < |needle| ensures x[p..] != needle[..|x| - p] {
      assert x[p..][0] == x[p];
    }
    forall i | 0 <= i <= |x| ensures !StartsWith(x[i..], needle) {
      if i < |x| && |needle| <= |x| - i {
        assert x[i..][..|needle|][0] == x[i];
      }
    }
  }

  /** No suffix of one token is a proper prefix of another token. */
  lemma TokNoPartialTail(n: string, k: string)
    requires BraceFree(n) && BraceFree(k)
    ensures NoPartialTail(Token(n), Token(k))
  {
    var x := Token(n);
    var needle := Token(k);
    forall p | 0 <= p < |x| && |x| - p < |needle| ensures x[p..] != needle[..|x| - p] {
      var l := |x| - p;
      if p == 0 {
        assert x[|n| + 2] == '}';
        assert needle[|n| + 2] == k[|n|];
        assert x[p..][|n| + 2] != needle[..l][|n| + 2];
      } else if p == 1 {
        assert x[2] != '{';
        assert x[p..][1] != needle[..l][1];
      } else {
        assert x[p] != '{';
        assert x[p..][0] != needle[..l][0];
      }
    }
  }

  /** A token occurs in another token only when the names are equal. */
  lemma TokOccurs(n: string, k: string)
    requires BraceFree(n) && BraceFree(k)
    requires n != k
    ensures !Occurs(Token(n), Token(k))
  {
    var x := Token(n);
    var needle := Token(k);
    forall i | 0 <= i <= |x| ensures !StartsWith(x[i..], needle) {
      if |needle| <= |x| - i {
        var w := x[i..][..|needle|];
        if i == 0 {
          if |k| < |n| {
            assert w[|k| + 2] == n[|k|];
            assert w[|k| + 2] != needle[|k| + 2];
          } else {
            assert |k| == |n|;
            assert exists j :: 0 <= j < |n| && n[j] != k[j];
            var j :| 0 <= j < |n| && n[j] != k[j];
            assert w[j + 2] == n[j] && needle[j + 2] == k[j];
          }
        } else if i == 1 {
          assert w[1] == x[2] && x[2] != '{';
        } else {
          assert w[0] == x[i] && x[i] != '{';
        }
      }
    }
  }

  /** `str_replace` of a whole string by itself. */
  lemma ReplaceWhole(n: string, rep: string)
    requires |n| > 0
    ensures Replace(n, n, rep) == rep
  {
    ReplaceStep(n, n, rep);
    assert n[|n|..] == "";
    ReplaceShort("", n, rep);
  }

  /** Replacing `{{k}}` inside one piece. */
  lemma ReplacePiece(p: Piece, k: string, v: string)
    requires BraceFree(if p.Lit? then p.text else p.name) && BraceFree(k)
    ensures NoPartialTail(PieceText(p), Token(k))
    ensures Replace(PieceText(p), Token(k), v) == (if p == Tok(k) then v else PieceText(p))
  {
    match p
    case Lit(x) =>
      LitIsInert(x, k);
      ReplaceAbsent(x, Token(k), v);
    case Tok(n) =>
      TokNoPartialTail(n, k);
      if n == k {
        ReplaceWhole(Token(k), v);
      } else {
        TokOccurs(n, k);
        ReplaceAbsent(Token(n), Token(k), v);
      }
  }

  /** Every `Tok(k)` written as `v`, everything else unchanged. */
  function FillToken(ps: seq<Piece>, k: string, v: string): (r: seq<Piece>)
    ensures |r| == |ps|
    ensures forall i :: 0 <= i < |ps| ==> r[i] == (if ps[i] == Tok(k) then Lit(v) else ps[i])
  {
    seq(|ps|, i requires 0 <= i < |ps| => if ps[i] == Tok(k) then Lit(v) else ps[i])
  }

  /** One `str_replace` of `{{k}}` over a well-formed template fills exactly the `k` tokens. */
  lemma {:induction false} ReplaceToken(ps: seq<Piece>, k: string, v: string)
    requires WellFormed(ps) && BraceFree(k)
    ensures Replace(Flatten(ps), Token(k), v) == Flatten(FillToken(ps, k, v))
    decreases |ps|
  {
    if |ps| > 0 {
      var head := PieceText(ps[0]);
      var tail := ps[1..];
      assert WellFormed(tail) by {
        forall i | 0 <= i < |tail| ensures BraceFree(if tail[i].Lit? then tail[i].text else tail[i].name) {
          assert tail[i] == ps[i + 1];
        }
      }
      ReplacePiece(ps[0], k, v);
      ReplaceAppend(head, Flatten(tail), Token(k), v);
      ReplaceToken(tail, k, v);
      var f := FillToken(ps, k, v);
      assert f[1..] == FillToken(tail, k, v);
    }
  }

  // ---------------------------------------------------------------------------
  // The sequential loop agrees with the reference reading
  // ---------------------------------------------------------------------------

  /** Keys of the map and the escaped values it writes contain no braces. */
  predicate QuietEntries(m: HeaderMap, row: Row, esc: string -> string) {
    forall i :: 0 <= i < |m| ==> BraceFree(m[i].0) && BraceFree(esc(RawCell(row, m[i].1)))
  }

  /** Resolving against `[e] + rest` is filling `e`'s token and then resolving against `rest`. */
  lemma ResolveStep(ps: seq<Piece>, m: HeaderMap, row: Row, esc: string -> string)
    requires |m| > 0
    ensures ResolveAll(FillToken(ps, m[0].0, esc(RawCell(row, m[0].1))), m[1..], row, esc)
         == ResolveAll(ps, m, row, esc)
  {
    var k := m[0].0;
    var v := esc(RawCell(row, m[0].1));
    var f := FillToken(ps, k, v);
    forall i | 0 <= i < |ps|
      ensures Resolve(f[i], m[1..], row, esc) == Resolve(ps[i], m, row, esc)
    {
      if ps[i].Tok? && ps[i].name != k {
        assert Lookup(m, ps[i].name) == Lookup(m[1..], ps[i].name);
      }
    }
  }

  /** The `foreach` loop computes the reference reading of a well-formed template. */
  lemma {:induction false} SubstituteMatchesReference(ps: seq<Piece>, m: HeaderMap, row: Row, esc: string -> string)
    requires WellFormed(ps)
    requires QuietEntries(m, row, esc)
    ensures Substitute(Flatten(ps), m, row, esc) == Reference(ps, m, row, esc)
    decreases |m|
  {
    if |m| == 0 {
      assert ResolveAll(ps, m, row, esc) == ps;
    } else {
      var k := m[0].0;
      var v := esc(RawCell(row, m[0].1));
      assert BraceFree(k) && BraceFree(v);
      ReplaceToken(ps, k, v);
      var f := FillToken(ps, k, v);
      assert WellFormed(f);
      assert QuietEntries(m[1..], row, esc) by {
        forall i | 0 <= i < |m[1..]| ensures BraceFree(m[1..][i].0) && BraceFree(esc(RawCell(row, m[1..][i].1))) {
          assert m[1..][i] == m[i + 1];
        }
      }
      SubstituteMatchesReference(f, m[1..], row, esc);
      ResolveStep(ps, m, row, esc);
    }
  }

  /**
   * For a well-formed template and brace-free keys and escaped values, `s2p_apply_template`
   * is `wp_kses_post` of the reference reading: each `{{k}}` for a key `k` of the map becomes
   * the escaped cell (empty when the row is short), every other token stays verbatim, and the
   * raw `content_html` pass changes nothing, because its token was already filled.
   */
  lemma ApplyTemplateMatchesReference(ps: seq<Piece>, m: HeaderMap, row: Row, wp: Wp)
    requires WellFormed(ps)
    requires QuietEntries(m, row, wp.escHtml)
    ensures ApplyTemplate(Flatten(ps), row, m, wp) == wp.ksesPost(Reference(ps, m, row, wp.escHtml))
  {
    var esc := wp.escHtml;
    SubstituteMatchesReference(ps, m, row, esc);
    match Lookup(m, "content_html")
    case Some(idx) =>
      RawPassInert(ps, m, row, esc, idx);
    case None =>
  }

  /** Once every key's token is resolved, the raw `content_html` pass finds nothing to replace. */
  lemma RawPassInert(ps: seq<Piece>, m: HeaderMap, row: Row, esc: string -> string, idx: nat)
    requires WellFormed(ps)
    requires QuietEntries(m, row, esc)
    requires Lookup(m, "content_html") == Some(idx)
    ensures var text := Reference(ps, m, row, esc);
      Replace(text, Token("content_html"), RawCell(row, idx)) == text
  {
    var resolved := ResolveAll(ps, m, row, esc);
    var i :| 0 <= i < |m| && m[i] == ("content_html", idx);
    assert BraceFree(m[i].0);
    assert WellFormed(resolved);
    ReplaceToken(resolved, "content_html", RawCell(row, idx));
    assert FillToken(resolved, "content_html", RawCell(row, idx)) == resolved;
  }

  /**
   * The sequential loop re-substitutes: with columns `a` then `b`, a row whose `a` cell is
   * `{{b}}` and whose `b` cell is `X`, the template `{{a}}` comes out as `X`, while the reference
   * reading gives the `a` cell `{{b}}` itself.
   */
  lemma ResubstitutionExample(wp: Wp)
    requires forall s :: wp.escHtml(s) == s
    ensures Substitute(Token("a"), [("a", 0), ("b", 1)], ["{{b}}", "X"], wp.escHtml) == "X"
    ensures Reference([Tok("a")], [("a", 0), ("b", 1)], ["{{b}}", "X"], wp.escHtml) == "{{b}}"
  {
    var m: HeaderMap := [("a", 0), ("b", 1)];
    var row: Row := ["{{b}}", "X"];
    ReplaceWhole(Token("a"), "{{b}}");
    assert Token("b") == "{{b}}";
    ReplaceWhole(Token("b"), "X");
    assert m[1..] == [("b", 1)];
    assert m[1..][1..] == [];
    assert Lookup(m, "a") == Some(0);
    var resolved := ResolveAll([Tok("a")], m, row, wp.escHtml);
    assert resolved == [Lit("{{b}}")];
    assert Flatten(resolved) == "{{b}}" + Flatten([]);
  }
}
