/** What the closing-tag search, the escapes and the variable pass compute, for every text. */
module TemplateTheorems {
  import opened Common
  import opened Template

  // ---- Closing tags ----

  /** How the tag at `i`, if any, changes the number of open blocks. */
  function Delta(s: string, i: nat): int {
    if At(s, IF_OPEN, i) then 1 else if At(s, IF_CLOSE, i) then -1 else 0
  }

  /** Opening minus closing tags that start in `[i, j)`. */
  function Net(s: string, i: nat, j: nat): int
    decreases j - i
  {
    if j <= i then 0 else Delta(s, i) + Net(s, i + 1, j)
  }

  /**
   `e` is the closing tag that balances: with `depth` blocks open at `cursor`, exactly one
   is left open at `e`, and more than one at every earlier closing tag.
   */
  ghost predicate EndsBlock(s: string, cursor: nat, depth: nat, e: nat) {
    && cursor <= e && At(s, IF_CLOSE, e) && depth + Net(s, cursor, e) == 1
    && forall c: nat :: cursor <= c < e && At(s, IF_CLOSE, c) ==> depth + Net(s, cursor, c) > 1
  }

  ghost predicate Quiet(s: string, i: nat, j: nat) {
    forall k: nat :: i <= k < j ==> !At(s, IF_OPEN, k) && !At(s, IF_CLOSE, k)
  }

  lemma {:induction false} NetSplit(s: string, i: nat, k: nat, j: nat)
    requires i <= k <= j
    ensures Net(s, i, j) == Net(s, i, k) + Net(s, k, j)
    decreases k - i
  {
    if i < k {
      NetSplit(s, i + 1, k, j);
    }
  }

  lemma {:induction false} NetQuiet(s: string, i: nat, j: nat)
    requires Quiet(s, i, j)
    ensures Net(s, i, j) == 0
    decreases j - i
  {
    if i < j {
      NetQuiet(s, i + 1, j);
    }
  }

  /** The first three characters of a tag tell where no other tag can start. */
  lemma TagPrefix(s: string, i: nat)
    ensures At(s, IF_OPEN, i) ==> i + 6 <= |s| && s[i..i + 6] == IF_OPEN
    ensures At(s, IF_CLOSE, i) ==> i + 7 <= |s| && s[i..i + 7] == IF_CLOSE
    ensures At(s, IF_OPEN, i) ==> s[i] == '{' && s[i + 1] == '{' && s[i + 2] == '#'
    ensures At(s, IF_CLOSE, i) ==> s[i] == '{' && s[i + 1] == '{' && s[i + 2] == '/'
  {
    AtIs(s, IF_OPEN, i);
    AtIs(s, IF_CLOSE, i);
    if At(s, IF_OPEN, i) {
      assert s[i] == s[i..i + 6][0] && s[i + 1] == s[i..i + 6][1] && s[i + 2] == s[i..i + 6][2];
    }
    if At(s, IF_CLOSE, i) {
      assert s[i] == s[i..i + 7][0] && s[i + 1] == s[i..i + 7][1] && s[i + 2] == s[i..i + 7][2];
    }
  }

  /** Tags do not overlap. */
  lemma TagQuiet(s: string, i: nat, j: nat)
    requires (At(s, IF_OPEN, i) && j == i + |IF_OPEN|) || (At(s, IF_CLOSE, i) && j == i + |IF_CLOSE|)
    ensures Quiet(s, i + 1, j)
  {
    TagPrefix(s, i);
    forall k: nat | i < k < j
      ensures !At(s, IF_OPEN, k) && !At(s, IF_CLOSE, k)
    {
      TagPrefix(s, k);
      assert s[k] == s[i..j][k - i];
    }
  }

  lemma NextTagQuiet(s: string, cursor: nat)
    ensures !NextTag(s, cursor).NoClose? ==> Quiet(s, cursor, NextTag(s, cursor).at)
    ensures NextTag(s, cursor).NoClose? ==> forall c: nat :: cursor <= c ==> !At(s, IF_CLOSE, c)
    ensures NextTag(s, cursor).Closes? ==> !At(s, IF_OPEN, NextTag(s, cursor).at)
  {
    FindFirst(s, IF_OPEN, cursor);
    FindFirst(s, IF_CLOSE, cursor);
    if NextTag(s, cursor).Closes? {
      TagPrefix(s, NextTag(s, cursor).at);
    }
  }

  /** Past a tag, the count goes on from the new depth. */
  lemma NetPastTag(s: string, cursor: nat, c: nat)
    requires !NextTag(s, cursor).NoClose? && NextTag(s, cursor).End() <= c
    ensures Net(s, cursor, c) == (if NextTag(s, cursor).Opens? then 1 else -1) + Net(s, NextTag(s, cursor).End(), c)
  {
    var tag := NextTag(s, cursor);
    NextTagQuiet(s, cursor);
    TagQuiet(s, tag.at, tag.End());
    NetSplit(s, cursor, tag.at, c);
    NetQuiet(s, cursor, tag.at);
    NetSplit(s, tag.at, tag.at + 1, c);
    NetSplit(s, tag.at + 1, tag.End(), c);
    NetQuiet(s, tag.at + 1, tag.End());
    TagPrefix(s, tag.at);
    assert Net(s, tag.at, tag.at + 1) == Delta(s, tag.at) + Net(s, tag.at + 1, tag.at + 1);
  }

  lemma EndsBlockPastTag(s: string, cursor: nat, depth: nat, depth': nat, e: nat)
    requires !NextTag(s, cursor).NoClose?
    requires depth' - depth == if NextTag(s, cursor).Opens? then 1 else -1
    requires NextTag(s, cursor).Opens? || depth > 1
    ensures EndsBlock(s, cursor, depth, e) <==> EndsBlock(s, NextTag(s, cursor).End(), depth', e)
  {
    var tag := NextTag(s, cursor);
    NextTagQuiet(s, cursor);
    TagQuiet(s, tag.at, tag.End());
    TagPrefix(s, tag.at);
    NetQuiet(s, cursor, tag.at);
    forall c: nat | cursor <= c && At(s, IF_CLOSE, c)
      ensures (c == tag.at && tag.Closes?) || tag.End() <= c
      ensures tag.End() <= c ==> depth + Net(s, cursor, c) == depth' + Net(s, tag.End(), c)
    {
      assert !(tag.at < c < tag.End());
      if tag.End() <= c {
        NetPastTag(s, cursor, c);
      }
    }
  }

  /** The search returns exactly the closing tag that balances. */
  lemma {:induction false} MatchCloseExact(s: string, cursor: nat, depth: nat, e: nat)
    requires 0 < depth
    ensures MatchClose(s, cursor, depth) == Some(e) <==> EndsBlock(s, cursor, depth, e)
    decreases |s| - cursor
  {
    var tag := NextTag(s, cursor);
    NextTagQuiet(s, cursor);
    if tag.NoClose? {
    } else if tag.Opens? {
      EndsBlockPastTag(s, cursor, depth, depth + 1, e);
      MatchCloseExact(s, tag.End(), depth + 1, e);
    } else if depth > 1 {
      EndsBlockPastTag(s, cursor, depth, depth - 1, e);
      MatchCloseExact(s, tag.End(), depth - 1, e);
    } else {
      NetQuiet(s, cursor, tag.at);
    }
  }

  /** The block that is replaced: its content is balanced, and no earlier closing tag is. */
  lemma BlockBalanced(s: string, from: nat, b: Block)
    requires FirstBlock(s, from) == Some(b)
    ensures At(s, IF_OPEN, b.start) && forall i: nat :: from <= i < b.start ==> !At(s, IF_OPEN, i)
    ensures At(s, CLOSE, b.nameEnd) && forall i: nat :: b.NameStart() <= i < b.nameEnd ==> !At(s, CLOSE, i)
    ensures EndsBlock(s, b.ContentStart(), 1, b.endStart)
  {
    FindFirst(s, IF_OPEN, from);
    FindFirst(s, CLOSE, b.NameStart());
    MatchCloseExact(s, b.ContentStart(), 1, b.endStart);
  }

  // ---- Escapes ----

  /** No `a` is directly followed by a `b`. */
  ghost predicate NoPair(s: string, a: char, b: char) {
    forall i :: 0 <= i < |s| - 1 ==> s[i] != a || s[i + 1] != b
  }

  /** A text without `\n` and `\t` escapes (`\r\n` contains one). */
  ghost predicate NoEscape(s: string) {
    NoPair(s, '\\', 'n') && NoPair(s, '\\', 't')
  }

  lemma {:induction false} ReplaceAbsent(s: string, p: string, to: string, k: nat)
    requires |p| > k + 1 && NoPair(s, p[k], p[k + 1])
    ensures ReplaceAll(s, p, to) == s
  {
    if |s| >= |p| {
      assert s[k] != p[k] || s[k + 1] != p[k + 1];
      assert NoPair(s[1..], p[k], p[k + 1]);
      ReplaceAbsent(s[1..], p, to, k);
      assert s == [s[0]] + s[1..];
    }
  }

  /** Replacing a two-character escape by one character removes it and brings no other back. */
  lemma {:induction false} ReplacePair(s: string, b: char, to: char, a: char)
    requires to != '\\' && to != b && to != a && (a == b || NoPair(s, '\\', a))
    ensures NoPair(ReplaceAll(s, ['\\', b], [to]), '\\', a)
    ensures s != "" ==> ReplaceAll(s, ['\\', b], [to]) != "" && ReplaceAll(s, ['\\', b], [to])[0] in [s[0], to]
  {
    var p := ['\\', b];
    if |s| >= 2 {
      if p <= s {
        assert NoPair(s[2..], '\\', a) || a == b;
        ReplacePair(s[2..], b, to, a);
      } else {
        assert NoPair(s[1..], '\\', a) || a == b;
        ReplacePair(s[1..], b, to, a);
        assert s[0] == '\\' && s[1] == b ==> p <= s;
      }
    }
  }

  /** Unescaping leaves no escape behind, so unescaping again changes nothing. */
  lemma UnescapeIdempotent(t: string)
    ensures NoEscape(Unescape(t)) && Unescape(Unescape(t)) == Unescape(t)
  {
    var u := ReplaceAll(t, "\\r\\n", "\r\n");
    var v := ReplaceAll(u, "\\n", "\n");
    assert "\\n" == ['\\', 'n'] && "\\t" == ['\\', 't'] && "\n" == ['\n'] && "\t" == ['\t'];
    ReplacePair(u, 'n', '\n', 'n');
    ReplacePair(v, 't', '\t', 'n');
    ReplacePair(v, 't', '\t', 't');
    UnescapeFixed(Unescape(t));
  }

  lemma UnescapeFixed(s: string)
    requires NoEscape(s)
    ensures Unescape(s) == s
  {
    assert "\\r\\n"[2] == '\\' && "\\r\\n"[3] == 'n';
    ReplaceAbsent(s, "\\r\\n", "\r\n", 2);
    ReplaceAbsent(s, "\\n", "\n", 0);
    ReplaceAbsent(s, "\\t", "\t", 0);
  }

  // ---- Segmentation ----

  lemma SourcePair(text: string, expr: string, ps: seq<Piece>)
    ensures Source([Literal(text), Reference(expr)] + ps) == text + (OPEN + expr + CLOSE + Source(ps))
  {
    var all := [Literal(text), Reference(expr)] + ps;
    assert all[1..] == [Reference(expr)] + ps && all[1..][1..] == ps;
  }

  lemma Cut(s: string, a: nat, b: nat, c: nat, d: nat, e: nat)
    requires a <= b <= c <= d <= e <= |s|
    ensures s[a..] == s[a..b] + (s[b..c] + s[c..d] + s[d..e] + s[e..])
  {
    assert s[a..] == s[a..b] + s[b..];
    assert s[b..] == s[b..c] + s[c..d] + s[d..];
    assert s[d..] == s[d..e] + s[e..];
  }

  lemma ReferenceBraces(s: string, from: nat)
    requires NextReference(s, from).Some?
    ensures s[NextReference(s, from).value.start..NextReference(s, from).value.ExprStart()] == OPEN
    ensures s[NextReference(s, from).value.exprEnd..NextReference(s, from).value.End()] == CLOSE
  {
    AtIs(s, OPEN, NextReference(s, from).value.start);
    AtIs(s, CLOSE, NextReference(s, from).value.exprEnd);
  }

  /** The segmentation is a cut of the text itself. */
  lemma {:induction false} PiecesSource(s: string, from: nat)
    requires from <= |s|
    ensures Source(Pieces(s, from)) == s[from..]
    decreases |s| - from
  {
    match NextReference(s, from)
    case None =>
      assert [Literal(s[from..])][1..] == [];
      assert s[from..] + "" == s[from..];
    case Some(x) =>
      PiecesSource(s, x.End());
      PiecesStep(s, from, x);
      SourcePair(s[from..x.start], s[x.ExprStart()..x.exprEnd], Pieces(s, x.End()));
      ReferenceBraces(s, from);
      Cut(s, from, x.start, x.ExprStart(), x.exprEnd, x.End());
  }

  /**
   Without a complete conditional block, the output is the segmentation of the unescaped
   template with each reference replaced by its value, whatever the variables hold.
   */
  lemma RenderWithoutBlocks(t: string, vars: Vars, date: DateFormatter)
    requires FirstBlock(Unescape(t), 0).None?
    ensures Render(t, vars, date, 0) == Expand(Pieces(Unescape(t), 0), vars, date)
    ensures Source(Pieces(Unescape(t), 0)) == Unescape(t)
  {
    var u := Unescape(t);
    assert u[0..] == u;
    PiecesSource(u, 0);
  }
}
