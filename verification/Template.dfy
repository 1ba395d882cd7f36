/**
 The response template language: escapes, `{{#if name}}...{{/if}}` blocks, and
 `{{name}}`, `{{name|default}}` and `{{date:format}}` references.

 Everything here reads one immutable text from an index on. The renderer itself,
 which rewrites a buffer, is in `TemplateRenderer`.
 */
module Template {
  import opened Common

  const MAX_DEPTH: nat := 16

  const IF_OPEN := "{{#if "
  const IF_CLOSE := "{{/if}}"
  const OPEN := "{{"
  const CLOSE := "}}"

  datatype RenderError = RecursionLimit | BadDate(format: string)

  type Rendered = Result<string, RenderError>
  type Vars = map<string, string>

  /** Formatting of the clock: `None` when the format makes the formatter panic. */
  type DateFormatter = string -> Option<string>

  function Prepend(pre: string, r: Rendered): Rendered {
    if r.Ok? then Ok(pre + r.value) else r
  }

  lemma PrependTwice(a: string, b: string, r: Rendered)
    ensures Prepend(a, Prepend(b, r)) == Prepend(a + b, r)
  {
    if r.Ok? {
      assert a + (b + r.value) == a + b + r.value;
    }
  }

  lemma PrependEmpty(r: Rendered)
    ensures Prepend("", r) == r
  {
    if r.Ok? {
      assert "" + r.value == r.value;
    }
  }

  function Unescape(t: string): string {
    ReplaceAll(ReplaceAll(ReplaceAll(t, "\\r\\n", "\r\n"), "\\n", "\n"), "\\t", "\t")
  }

  // ---- Conditional blocks ----

  /** The next block tag from `cursor` on, when there is a closing tag to come. */
  datatype Tag = Opens(at: nat) | Closes(at: nat) | NoClose {
    function End(): nat
      requires !NoClose?
    {
      if Opens? then at + |IF_OPEN| else at + |IF_CLOSE|
    }
  }

  function NextTag(s: string, cursor: nat): (r: Tag)
    ensures r.Opens? ==> cursor <= r.at && At(s, IF_OPEN, r.at)
    ensures r.Closes? ==> cursor <= r.at && At(s, IF_CLOSE, r.at)
  {
    var open, close := Find(s, IF_OPEN, cursor), Find(s, IF_CLOSE, cursor);
    if close.None? then NoClose
    else if open.Some? && open.value < close.value then Opens(open.value)
    else Closes(close.value)
  }

  /**
   The index of the closing tag that ends the outermost of `depth` blocks that are
   open at `cursor`.
   */
  function MatchClose(s: string, cursor: nat, depth: nat): (r: Option<nat>)
    requires 0 < depth
    ensures r.Some? ==> cursor <= r.value && At(s, IF_CLOSE, r.value)
    decreases |s| - cursor
  {
    var tag := NextTag(s, cursor);
    if tag.NoClose? then None
    else if tag.Opens? then MatchClose(s, tag.End(), depth + 1)
    else if depth == 1 then Some(tag.at)
    else MatchClose(s, tag.End(), depth - 1)
  }

  function AfterOpen(start: nat): nat { start + |IF_OPEN| }

  function AfterName(nameEnd: nat): nat { nameEnd + |CLOSE| }

  /** Indices of a block: its tag, the end of its name, and its closing tag. */
  datatype Block = Block(start: nat, nameEnd: nat, endStart: nat) {
    function NameStart(): nat { AfterOpen(start) }
    function ContentStart(): nat { AfterName(nameEnd) }
    function End(): nat { endStart + |IF_CLOSE| }

    ghost predicate In(s: string) {
      NameStart() <= nameEnd && ContentStart() <= endStart && End() <= |s|
    }
  }

  /** The block whose tag is at `start`, if its name and the block itself are closed. */
  function BlockAt(s: string, start: nat): (r: Option<Block>)
    ensures r.Some? ==> r.value.start == start && r.value.In(s)
  {
    if !At(s, IF_OPEN, start) then None
    else
      match Find(s, CLOSE, AfterOpen(start))
      case None => None
      case Some(nameEnd) =>
        match MatchClose(s, AfterName(nameEnd), 1)
        case None => None
        case Some(endStart) => Some(Block(start, nameEnd, endStart))
  }

  function FirstBlock(s: string, from: nat): (r: Option<Block>)
    ensures r.Some? ==> from <= r.value.start && r.value.In(s)
  {
    match Find(s, IF_OPEN, from)
    case None => None
    case Some(start) => BlockAt(s, start)
  }

  predicate Truthy(vars: Vars, name: string) {
    name in vars && vars[name] != ""
  }

  /** The rendering of the content of a block. */
  type Renderer = string -> Rendered

  /** What a block is replaced with. */
  function Replacement(s: string, b: Block, vars: Vars, render: Renderer): Rendered
    requires b.In(s)
  {
    if Truthy(vars, s[b.NameStart()..b.nameEnd]) then render(s[b.ContentStart()..b.endStart]) else Ok("")
  }

  /** The conditional pass over the text from `from` on. */
  function Conditionals(s: string, from: nat, vars: Vars, render: Renderer): Rendered
    requires from <= |s|
    decreases |s| - from
  {
    match FirstBlock(s, from)
    case None => Ok(s[from..])
    case Some(b) =>
      var replacement :- Replacement(s, b, vars, render);
      Prepend(s[from..b.start] + replacement, Conditionals(s, b.End(), vars, render))
  }

  // ---- References ----

  /** Indices of a `{{expr}}` reference: its braces. */
  datatype Span = Span(start: nat, exprEnd: nat) {
    function ExprStart(): nat { start + |OPEN| }
    function End(): nat { exprEnd + |CLOSE| }
  }

  /** The next reference from `from` on. */
  function NextReference(s: string, from: nat): (r: Option<Span>)
    ensures r.Some? ==> from <= r.value.start && r.value.ExprStart() <= r.value.exprEnd && r.value.End() <= |s|
  {
    match Find(s, OPEN, from)
    case None => None
    case Some(start) =>
      if At(s, "{{#", start) || At(s, "{{/", start) then None
      else
        match Find(s, CLOSE, start + |OPEN|)
        case None => None
        case Some(exprEnd) => Some(Span(start, exprEnd))
  }

  datatype Piece = Literal(text: string) | Reference(expr: string)

  /** The segmentation of a text: it looks at no variable. */
  function Pieces(s: string, from: nat): seq<Piece>
    requires from <= |s|
    decreases |s| - from
  {
    match NextReference(s, from)
    case None => [Literal(s[from..])]
    case Some(x) => [Literal(s[from..x.start]), Reference(s[x.ExprStart()..x.exprEnd])] + Pieces(s, x.End())
  }

  /** The text a segmentation was cut from. */
  function Source(ps: seq<Piece>): string {
    if ps == [] then ""
    else if ps[0].Literal? then ps[0].text + Source(ps[1..])
    else OPEN + ps[0].expr + CLOSE + Source(ps[1..])
  }

  function Value(expr: string, vars: Vars, date: DateFormatter): Rendered {
    if expr == "date" || "date:" <= expr then
      var format := if "date:" <= expr then expr[|"date:"|..] else "%Y-%m-%d %H:%M:%S";
      match date(format)
      case None => Err(BadDate(format))
      case Some(text) => Ok(text)
    else
      match Find(expr, "|", 0)
      case Some(bar) => Ok(if expr[..bar] in vars then vars[expr[..bar]] else expr[bar + 1..])
      case None => Ok(if expr in vars then vars[expr] else "")
  }

  /** The literals and the values of the references, in order, copied verbatim. */
  function Expand(ps: seq<Piece>, vars: Vars, date: DateFormatter): Rendered {
    if ps == [] then Ok("")
    else
      var head :- if ps[0].Literal? then Ok(ps[0].text) else Value(ps[0].expr, vars, date);
      Prepend(head, Expand(ps[1..], vars, date))
  }

  function Render(t: string, vars: Vars, date: DateFormatter, depth: nat): Rendered
    decreases if depth < MAX_DEPTH then MAX_DEPTH - depth else 0, 0
  {
    if depth >= MAX_DEPTH then Err(RecursionLimit)
    else
      var buffer :- Conditionals(Unescape(t), 0, vars, Inner(vars, date, depth));
      Expand(Pieces(buffer, 0), vars, date)
  }

  /** The renderer of the blocks found at `depth`. */
  function Inner(vars: Vars, date: DateFormatter, depth: nat): Renderer
    decreases if depth < MAX_DEPTH then MAX_DEPTH - depth - 1 else 0, 1
  {
    t => if depth < MAX_DEPTH then Render(t, vars, date, depth + 1) else Err(RecursionLimit)
  }

  lemma ExpandLiteral(text: string, vars: Vars, date: DateFormatter)
    ensures Expand([Literal(text)], vars, date) == Ok(text)
  {
    assert [Literal(text)][1..] == [];
    assert text + "" == text;
  }

  lemma PiecesStep(s: string, from: nat, x: Span)
    requires from <= |s| && NextReference(s, from) == Some(x)
    ensures Pieces(s, from)
         == [Literal(s[from..x.start]), Reference(s[x.ExprStart()..x.exprEnd])] + Pieces(s, x.End())
  {
  }

  lemma ExpandPair(text: string, expr: string, ps: seq<Piece>, vars: Vars, date: DateFormatter)
    ensures var v := Value(expr, vars, date);
      Expand([Literal(text), Reference(expr)] + ps, vars, date)
      == if v.Ok? then Prepend(text + v.value, Expand(ps, vars, date)) else v
  {
    var all := [Literal(text), Reference(expr)] + ps;
    assert all[1..] == [Reference(expr)] + ps && all[1..][1..] == ps;
    var v := Value(expr, vars, date);
    if v.Ok? {
      PrependTwice(text, v.value, Expand(ps, vars, date));
    }
  }

  // ---- Independence of the text before the starting index ----

  lemma TagAgree(s: string, a: nat, t: string, b: nat, i: nat, j: nat)
    requires Agree(s, a, t, b) && a <= i && b <= j && i - a == j - b
    ensures NextTag(s, i).NoClose? == NextTag(t, j).NoClose?
    ensures NextTag(s, i).Opens? == NextTag(t, j).Opens?
    ensures !NextTag(s, i).NoClose? ==> NextTag(s, i).at - a == NextTag(t, j).at - b
  {
    FindAgree(s, a, t, b, IF_OPEN, i, j);
    FindAgree(s, a, t, b, IF_CLOSE, i, j);
  }

  lemma {:induction false} MatchAgree(s: string, a: nat, t: string, b: nat, i: nat, j: nat, depth: nat)
    requires Agree(s, a, t, b) && a <= i && b <= j && i - a == j - b && 0 < depth
    ensures SameIndex(MatchClose(s, i, depth), a, MatchClose(t, j, depth), b)
    decreases |s| - i
  {
    TagAgree(s, a, t, b, i, j);
    var x, y := NextTag(s, i), NextTag(t, j);
    if x.Opens? {
      MatchAgree(s, a, t, b, x.End(), y.End(), depth + 1);
    } else if x.Closes? && depth > 1 {
      MatchAgree(s, a, t, b, x.End(), y.End(), depth - 1);
    }
  }

  ghost predicate SameBlock(r: Option<Block>, a: nat, q: Option<Block>, b: nat) {
    && r.Some? == q.Some?
    && (r.Some? ==>
          && r.value.start - a == q.value.start - b
          && r.value.nameEnd - a == q.value.nameEnd - b
          && r.value.endStart - a == q.value.endStart - b)
  }

  lemma BlockAgree(s: string, a: nat, t: string, b: nat, i: nat, j: nat)
    requires Agree(s, a, t, b) && a <= i && b <= j && i - a == j - b
    ensures SameBlock(FirstBlock(s, i), a, FirstBlock(t, j), b)
  {
    FindAgree(s, a, t, b, IF_OPEN, i, j);
    var start, start' := Find(s, IF_OPEN, i), Find(t, IF_OPEN, j);
    if start.Some? {
      FindAgree(s, a, t, b, CLOSE, AfterOpen(start.value), AfterOpen(start'.value));
      var name, name' := Find(s, CLOSE, AfterOpen(start.value)), Find(t, CLOSE, AfterOpen(start'.value));
      if name.Some? {
        MatchAgree(s, a, t, b, AfterName(name.value), AfterName(name'.value), 1);
      }
    }
  }

  lemma ReplacementAgree(s: string, a: nat, t: string, b: nat, x: Block, y: Block, vars: Vars, render: Renderer)
    requires Agree(s, a, t, b) && x.In(s) && y.In(t) && SameBlock(Some(x), a, Some(y), b) && a <= x.start
    ensures Replacement(s, x, vars, render) == Replacement(t, y, vars, render)
  {
    SliceAgree(s, a, t, b, x.NameStart(), x.nameEnd, y.NameStart(), y.nameEnd);
    SliceAgree(s, a, t, b, x.ContentStart(), x.endStart, y.ContentStart(), y.endStart);
  }

  /** The conditional pass never looks at what was rendered before its start. */
  lemma {:induction false} ConditionalsAgree(
    s: string, a: nat, t: string, b: nat, i: nat, j: nat, vars: Vars, render: Renderer)
    requires Agree(s, a, t, b) && a <= i <= |s| && b <= j && i - a == j - b
    ensures j <= |t| && Conditionals(s, i, vars, render) == Conditionals(t, j, vars, render)
    decreases |s| - i
  {
    BlockAgree(s, a, t, b, i, j);
    match FirstBlock(s, i)
    case None =>
      SliceAgree(s, a, t, b, i, |s|, j, |t|);
      assert s[i..] == s[i..|s|] && t[j..] == t[j..|t|];
    case Some(x) =>
      var y := FirstBlock(t, j).value;
      ReplacementAgree(s, a, t, b, x, y, vars, render);
      SliceAgree(s, a, t, b, i, x.start, j, y.start);
      ConditionalsAgree(s, a, t, b, x.End(), y.End(), vars, render);
  }
}

/** The renderer as it runs: one buffer rewritten in place, one output appended to. */
module TemplateRenderer {
  import opened Common
  import opened Template

  method FindTag(template: string, cursor: nat) returns (r: Tag)
    ensures r == NextTag(template, cursor)
  {
    var nextOpen := Find(template, IF_OPEN, cursor);
    var nextClose := Find(template, IF_CLOSE, cursor);
    if nextOpen.Some? && nextClose.Some? && nextOpen.value < nextClose.value {
      return Opens(nextOpen.value);
    } else if nextClose.Some? {
      return Closes(nextClose.value);
    } else {
      return NoClose;
    }
  }

  method FindMatchingConditional(template: string, start: nat) returns (r: Option<Block>)
    ensures r == BlockAt(template, start)
  {
    if !At(template, IF_OPEN, start) {
      return None;
    }
    var nameEnd := Find(template, CLOSE, AfterOpen(start));
    if nameEnd.None? {
      return None;
    }
    var contentStart := AfterName(nameEnd.value);
    var depth: nat, cursor := 1, contentStart;
    while cursor <= |template|
      invariant 1 <= depth && cursor <= |template|
      invariant MatchClose(template, cursor, depth) == MatchClose(template, contentStart, 1)
      decreases |template| - cursor
    {
      var tag := FindTag(template, cursor);
      if tag.NoClose? {
        return None;
      } else if tag.Opens? {
        depth := depth + 1;
      } else if depth == 1 {
        return Some(Block(start, nameEnd.value, tag.at));
      } else {
        depth := depth - 1;
      }
      cursor := tag.End();
    }
    assert false;
    r := None;
  }

  method RenderTemplateDepth(template: string, vars: Vars, date: DateFormatter, depth: nat) returns (r: Rendered)
    ensures r == Render(template, vars, date, depth)
    decreases if depth < MAX_DEPTH then MAX_DEPTH - depth else 0, 2
  {
    if depth >= MAX_DEPTH {
      return Err(RecursionLimit);
    }
    var buffer := RenderConditionals(Unescape(template), vars, date, depth);
    if buffer.Err? {
      return buffer;
    }
    r := ExpandReferences(buffer.value, vars, date);
  }

  method FindBlock(result: string, searchFrom: nat) returns (r: Option<Block>)
    ensures r == FirstBlock(result, searchFrom)
  {
    var start := Find(result, IF_OPEN, searchFrom);
    if start.None? {
      return None;
    }
    var nameEnd := Find(result, CLOSE, AfterOpen(start.value));
    if nameEnd.None? {
      return None;
    }
    r := FindMatchingConditional(result, start.value);
  }

  method RenderBlock(result: string, block: Block, vars: Vars, date: DateFormatter, depth: nat) returns (r: Rendered)
    requires block.In(result) && depth < MAX_DEPTH
    ensures r == Replacement(result, block, vars, Inner(vars, date, depth))
    decreases MAX_DEPTH - depth, 0
  {
    r := Ok("");
    if Truthy(vars, result[block.NameStart()..block.nameEnd]) {
      r := RenderTemplateDepth(result[block.ContentStart()..block.endStart], vars, date, depth + 1);
    }
  }

  /** The conditional pass: the buffer is rewritten block by block, and the search moves on past each replacement. */
  method RenderConditionals(unescaped: string, vars: Vars, date: DateFormatter, depth: nat) returns (r: Rendered)
    requires depth < MAX_DEPTH
    ensures r == Conditionals(unescaped, 0, vars, Inner(vars, date, depth))
    decreases MAX_DEPTH - depth, 1
  {
    var result, searchFrom: nat := unescaped, 0;
    ghost var scanned: nat := 0;
    ghost var render := Inner(vars, date, depth);
    ghost var goal := Conditionals(unescaped, 0, vars, render);
    PrependEmpty(goal);
    while true
      invariant searchFrom <= |result|
      // What is still to be scanned is a suffix of the unescaped template: no rendered text is in it.
      invariant Agree(result, searchFrom, unescaped, scanned)
      invariant goal == Prepend(result[..searchFrom], Conditionals(result, searchFrom, vars, render))
      decreases |result| - searchFrom
    {
      var found := FindBlock(result, searchFrom);
      if found.None? {
        break;
      }
      var block := found.value;
      var replacement := RenderBlock(result, block, vars, date, depth);
      if replacement.Err? {
        return replacement;
      }
      ConditionalsStep(result, searchFrom, block, replacement.value, vars, render);
      ghost var before, beforeFrom, beforeScanned := result, searchFrom, scanned;
      result := result[..block.start] + replacement.value + result[block.End()..];
      searchFrom := block.start + |replacement.value|;
      scanned := scanned + (block.End() - beforeFrom);
      Replaced(before, block, replacement.value, result, searchFrom, vars, render);
      AgreeTrans(result, searchFrom, before, block.End(), beforeFrom, unescaped, beforeScanned, scanned);
    }
    ConditionalsDone(result, searchFrom, vars, render);
    return Ok(result);
  }

  lemma ConditionalsStep(s: string, from: nat, b: Block, replacement: string, vars: Vars, render: Renderer)
    requires from <= |s|
    requires FirstBlock(s, from) == Some(b) && Replacement(s, b, vars, render) == Ok(replacement)
    ensures Prepend(s[..from], Conditionals(s, from, vars, render))
         == Prepend(s[..b.start] + replacement, Conditionals(s, b.End(), vars, render))
  {
    var rest := Conditionals(s, b.End(), vars, render);
    var middle := s[from..b.start] + replacement;
    assert Conditionals(s, from, vars, render) == Prepend(middle, rest);
    PrependTwice(s[..from], middle, rest);
    assert s[..from] + middle == s[..b.start] + replacement by {
      assert s[..from] + s[from..b.start] == s[..b.start];
    }
  }

  lemma ConditionalsDone(s: string, from: nat, vars: Vars, render: Renderer)
    requires from <= |s| && FirstBlock(s, from) == None
    ensures Prepend(s[..from], Conditionals(s, from, vars, render)) == Ok(s)
  {
    assert s[..from] + s[from..] == s;
  }

  /** One replacement in the buffer. */
  lemma Replaced(s: string, b: Block, replacement: string, s': string, k: nat, vars: Vars, render: Renderer)
    requires b.In(s) && s' == s[..b.start] + replacement + s[b.End()..] && k == b.start + |replacement|
    ensures k <= |s'| && Agree(s', k, s, b.End()) && s'[..k] == s[..b.start] + replacement
    ensures Conditionals(s, b.End(), vars, render) == Conditionals(s', k, vars, render)
  {
    ConditionalsAgree(s', k, s, b.End(), k, b.End(), vars, render);
  }

  method FindReference(result: string, from: nat) returns (r: Option<Span>)
    ensures r == NextReference(result, from)
  {
    var start := Find(result, OPEN, from);
    if start.None? || At(result, "{{#", start.value) || At(result, "{{/", start.value) {
      return None;
    }
    var end := Find(result, CLOSE, start.value + |OPEN|);
    if end.None? {
      return None;
    }
    r := Some(Span(start.value, end.value));
  }

  /** The variable pass. The unread rest of the buffer is the text from `from` on. */
  method ExpandReferences(result: string, vars: Vars, date: DateFormatter) returns (r: Rendered)
    ensures r == Expand(Pieces(result, 0), vars, date)
  {
    var output, from: nat := "", 0;
    ghost var goal := Expand(Pieces(result, 0), vars, date);
    PrependEmpty(goal);
    while true
      invariant from <= |result|
      invariant goal == Prepend(output, Expand(Pieces(result, from), vars, date))
      decreases |result| - from
    {
      var reference := FindReference(result, from);
      if reference.None? {
        break;
      }
      var x := reference.value;
      var literal, expr := result[from..x.start], result[x.ExprStart()..x.exprEnd];
      var value := Value(expr, vars, date);
      ghost var tail := Pieces(result, x.End());
      PiecesStep(result, from, x);
      ExpandPair(literal, expr, tail, vars, date);
      if value.Err? {
        return value;
      }
      PrependTwice(output, literal + value.value, Expand(tail, vars, date));
      output := output + (literal + value.value);
      from := x.End();
    }
    ExpandLiteral(result[from..], vars, date);
    return Ok(output + result[from..]);
  }
}
