/**
 Templates as trees. A template that is the printed form of a tree renders to the meaning
 of that tree.
 */
module TemplateTrees {
  import opened Common
  import opened Template
  import opened TemplateTheorems

  /** A text, a reference, or a conditional block, followed by the rest of the template. */
  datatype Doc =
    | End
    | Text(text: string, rest: Doc)
    | Ref(name: string, fallback: Option<string>, rest: Doc)
    | If(name: string, body: Doc, rest: Doc)

  function RefExpr(name: string, fallback: Option<string>): string {
    if fallback.Some? then name + "|" + fallback.value else name
  }

  function Print(doc: Doc): string {
    match doc
    case End => ""
    case Text(text, rest) => text + Print(rest)
    case Ref(name, fallback, rest) => OPEN + RefExpr(name, fallback) + CLOSE + Print(rest)
    case If(name, body, rest) => IF_OPEN + name + CLOSE + Print(body) + IF_CLOSE + Print(rest)
  }

  function Lookup(name: string, fallback: Option<string>, vars: Vars): string {
    if name in vars then vars[name] else if fallback.Some? then fallback.value else ""
  }

  /** The meaning of a template. */
  function Denote(doc: Doc, vars: Vars): string {
    match doc
    case End => ""
    case Text(text, rest) => text + Denote(rest, vars)
    case Ref(name, fallback, rest) => Lookup(name, fallback, vars) + Denote(rest, vars)
    case If(name, body, rest) => (if Truthy(vars, name) then Denote(body, vars) else "") + Denote(rest, vars)
  }

  /** How deep taken conditionals are nested. */
  function TakenDepth(doc: Doc, vars: Vars): nat {
    match doc
    case End => 0
    case Text(_, rest) => TakenDepth(rest, vars)
    case Ref(_, _, rest) => TakenDepth(rest, vars)
    case If(name, body, rest) =>
      var inside := if Truthy(vars, name) then 1 + TakenDepth(body, vars) else 0;
      var after := TakenDepth(rest, vars);
      if inside < after then after else inside
  }

  predicate NoBraces(s: string) {
    '{' !in s && '}' !in s
  }

  /** Not a directive such as `#if` or `/if`. */
  predicate Plain(x: string) {
    x == "" || (x[0] != '#' && x[0] != '/')
  }

  predicate RefName(name: string, fallback: Option<string>) {
    && NoBraces(name) && '|' !in name && Plain(name) && !("date:" <= name)
    && (fallback.None? ==> name != "date")
    && (fallback.Some? ==> NoBraces(fallback.value))
  }

  predicate CalmAt(s: string, i: nat)
    requires i < |s|
  {
    s[i] == '{' ==> i + 1 < |s| && s[i + 1] != '{'
  }

  /** No two opening braces in a row, and none at the end that could meet another. */
  predicate Calm(s: string) {
    forall i :: 0 <= i < |s| ==> CalmAt(s, i)
  }

  predicate WellFormed(doc: Doc) {
    match doc
    case End => true
    case Text(text, rest) => Calm(text) && WellFormed(rest)
    case Ref(name, fallback, rest) => RefName(name, fallback) && WellFormed(rest)
    case If(name, body, rest) => NoBraces(name) && WellFormed(body) && WellFormed(rest)
  }

  /** Nothing that a taken conditional expands to could open a reference. */
  predicate BodiesClean(doc: Doc, vars: Vars) {
    match doc
    case End => true
    case Text(_, rest) => BodiesClean(rest, vars)
    case Ref(_, _, rest) => BodiesClean(rest, vars)
    case If(name, body, rest) =>
      && (Truthy(vars, name) ==> Calm(Denote(body, vars)) && BodiesClean(body, vars))
      && BodiesClean(rest, vars)
  }

  // ---- Positions in a printed template ----

  lemma AtConcat(s: string, x: string, y: string, i: nat, j: nat)
    requires j == i + |x|
    ensures At(s, x + y, i) <==> At(s, x, i) && At(s, y, j)
  {
    AtIs(s, x + y, i);
    AtIs(s, x, i);
    AtIs(s, y, j);
    if j + |y| <= |s| {
      assert s[i..i + |x + y|] == s[i..j] + s[j..j + |y|];
      assert (x + y)[..|x|] == x && (x + y)[|x|..] == y;
    }
  }

  lemma AtSlice(s: string, x: string, i: nat, j: nat)
    requires At(s, x, i) && j == i + |x|
    ensures j <= |s| && s[i..j] == x
  {
    AtIs(s, x, i);
  }

  lemma AtChar(s: string, x: string, i: nat, k: nat)
    requires At(s, x, i) && k < |x|
    ensures i + k < |s| && s[i + k] == x[k]
  {
    AtIs(s, x, i);
    assert s[i..i + |x|][k] == x[k];
  }

  /** A pattern that starts with a character absent from `x` does not start inside `x`. */
  lemma AbsentInside(s: string, x: string, i: nat, p: string)
    requires At(s, x, i) && p != "" && p[0] !in x
    ensures forall k: nat :: i <= k < i + |x| ==> !At(s, p, k)
  {
    forall k: nat | i <= k < i + |x|
      ensures !At(s, p, k)
    {
      AtChar(s, x, i, k - i);
    }
  }

  /** A pattern that starts with two opening braces does not start inside a calm text. */
  lemma CalmInside(s: string, x: string, i: nat, p: string)
    requires At(s, x, i) && Calm(x) && |p| >= 2 && p[0] == '{' && p[1] == '{'
    ensures forall k: nat :: i <= k < i + |x| ==> !At(s, p, k)
  {
    forall k: nat | i <= k < i + |x|
      ensures !At(s, p, k)
    {
      assert CalmAt(x, k - i);
      AtChar(s, x, i, k - i);
      if At(s, p, k) {
        AtChar(s, p, k, 0);
        AtChar(s, p, k, 1);
        AtChar(s, x, i, k - i + 1);
      }
    }
  }

  lemma CalmConcat(x: string, y: string)
    requires Calm(x) && Calm(y)
    ensures Calm(x + y)
  {
    forall i | 0 <= i < |x + y|
      ensures CalmAt(x + y, i)
    {
      if i < |x| {
        assert CalmAt(x, i);
      } else {
        assert CalmAt(y, i - |x|);
      }
    }
  }

  lemma NoBraceCalm(x: string)
    requires '{' !in x
    ensures Calm(x)
  {
  }

  /** A reference holds no block tag. */
  lemma RefQuiet(s: string, x: string, i: nat, to: nat)
    requires At(s, OPEN + x + CLOSE, i) && '{' !in x && Plain(x) && to == i + |OPEN + x + CLOSE|
    ensures Quiet(s, i, to)
  {
    var all := OPEN + x + CLOSE;
    AtConcat(s, OPEN, x + CLOSE, i, i + 2);
    assert OPEN + (x + CLOSE) == all;
    AbsentInside(s, x + CLOSE, i + 2, IF_OPEN);
    AbsentInside(s, x + CLOSE, i + 2, IF_CLOSE);
    AtChar(s, all, i, 2);
    assert all[2] == if x == "" then '}' else x[0];
    TagPrefix(s, i);
    TagPrefix(s, i + 1);
  }

  lemma NameParts(s: string, name: string, k: nat, e: nat)
    requires At(s, name + CLOSE, k) && '}' !in name && e == k + |name|
    ensures e <= |s| && Find(s, CLOSE, k) == Some(e) && s[k..e] == name
  {
    AtConcat(s, name, CLOSE, k, e);
    AtSlice(s, name, k, e);
    AbsentInside(s, name, k, CLOSE);
    FindIs(s, CLOSE, k, e);
  }

  lemma NameQuiet(s: string, name: string, k: nat, to: nat)
    requires At(s, name + CLOSE, k) && '{' !in name && to == k + |name + CLOSE|
    ensures Quiet(s, k, to)
  {
    AbsentInside(s, name + CLOSE, k, IF_OPEN);
    AbsentInside(s, name + CLOSE, k, IF_CLOSE);
  }

  /** A block tag, its name and the braces after it. */
  lemma TagParts(s: string, name: string, after: string, i: nat, k: nat, e: nat)
    requires At(s, IF_OPEN + name + CLOSE + after, i) && NoBraces(name)
    requires k == AfterOpen(i) && e == k + |name|
    ensures At(s, IF_OPEN, i) && e <= |s| && Find(s, CLOSE, k) == Some(e) && s[k..e] == name
    ensures Quiet(s, k, AfterName(e)) && At(s, after, AfterName(e))
  {
    assert IF_OPEN + (name + CLOSE + after) == IF_OPEN + name + CLOSE + after;
    AtConcat(s, IF_OPEN, name + CLOSE + after, i, k);
    AtConcat(s, name + CLOSE, after, k, AfterName(e));
    NameParts(s, name, k, e);
    NameQuiet(s, name, k, AfterName(e));
  }

  // ---- Closing tags ----

  lemma MatchSkip(s: string, from: nat, to: nat, depth: nat)
    requires from <= to && Quiet(s, from, to) && 0 < depth
    ensures MatchClose(s, from, depth) == MatchClose(s, to, depth)
  {
    FindSkip(s, IF_OPEN, from, to);
    FindSkip(s, IF_CLOSE, from, to);
  }

  lemma MatchOverOpen(s: string, i: nat, c: nat, depth: nat)
    requires At(s, IF_OPEN, i) && i <= c && At(s, IF_CLOSE, c) && 0 < depth
    ensures MatchClose(s, i, depth) == MatchClose(s, AfterOpen(i), depth + 1)
  {
    FindIs(s, IF_OPEN, i, i);
    FindFirst(s, IF_CLOSE, i);
    TagPrefix(s, i);
    assert NextTag(s, i) == Opens(i);
  }

  lemma MatchOverClose(s: string, i: nat, next: nat, depth: nat)
    requires At(s, IF_CLOSE, i) && 0 < depth && next == i + |IF_CLOSE|
    ensures MatchClose(s, i, depth + 1) == MatchClose(s, next, depth)
    ensures MatchClose(s, i, 1) == Some(i)
  {
    FindIs(s, IF_CLOSE, i, i);
    TagPrefix(s, i);
    assert NextTag(s, i) == Closes(i);
  }

  /** The block that a conditional printed at `from` is. */
  function DocBlock(doc: Doc, from: nat): Block
    requires doc.If?
  {
    var nameEnd := AfterOpen(from) + |doc.name|;
    Block(from, nameEnd, AfterName(nameEnd) + |Print(doc.body)|)
  }

  /** The parts of a printed conditional are where its block says. */
  ghost predicate BlockParts(s: string, doc: Doc, b: Block)
    requires doc.If?
  {
    && b.In(s) && b.End() + |Print(doc.rest)| == b.start + |Print(doc)|
    && b.endStart == b.ContentStart() + |Print(doc.body)|
    && At(s, IF_OPEN, b.start) && s[b.NameStart()..b.nameEnd] == doc.name
    && Find(s, CLOSE, b.NameStart()) == Some(b.nameEnd)
    && Quiet(s, b.NameStart(), b.ContentStart())
    && At(s, Print(doc.body), b.ContentStart()) && At(s, IF_CLOSE, b.endStart) && At(s, Print(doc.rest), b.End())
  }

  lemma PrintIf(doc: Doc)
    requires doc.If?
    ensures Print(doc) == IF_OPEN + doc.name + CLOSE + (Print(doc.body) + (IF_CLOSE + Print(doc.rest)))
  {
  }

  lemma SplitBlock(s: string, doc: Doc, b: Block)
    requires doc.If? && NoBraces(doc.name) && At(s, Print(doc), b.start) && b == DocBlock(doc, b.start)
    ensures BlockParts(s, doc, b)
  {
    var tail := Print(doc.body) + (IF_CLOSE + Print(doc.rest));
    PrintIf(doc);
    TagParts(s, doc.name, tail, b.start, b.NameStart(), b.nameEnd);
    AtConcat(s, Print(doc.body), IF_CLOSE + Print(doc.rest), b.ContentStart(), b.endStart);
    AtConcat(s, IF_CLOSE, Print(doc.rest), b.endStart, b.End());
  }

  lemma MatchOverBlock(s: string, doc: Doc, b: Block, depth: nat)
    requires doc.If? && BlockParts(s, doc, b) && 0 < depth
    ensures MatchClose(s, b.start, depth) == MatchClose(s, b.ContentStart(), depth + 1)
    ensures MatchClose(s, b.endStart, depth + 1) == MatchClose(s, b.End(), depth)
  {
    MatchOverOpen(s, b.start, b.endStart, depth);
    MatchSkip(s, b.NameStart(), b.ContentStart(), depth + 1);
    MatchOverClose(s, b.endStart, b.End(), depth);
  }

  /** A printed template is balanced: the search for a closing tag passes over it. */
  lemma {:induction false} MatchOverDoc(s: string, doc: Doc, from: nat, to: nat, depth: nat)
    requires WellFormed(doc) && At(s, Print(doc), from) && to == from + |Print(doc)| && 0 < depth
    ensures MatchClose(s, from, depth) == MatchClose(s, to, depth)
    decreases doc
  {
    match doc
    case End =>
    case Text(text, rest) =>
      var next := from + |text|;
      AtConcat(s, text, Print(rest), from, next);
      CalmInside(s, text, from, IF_OPEN);
      CalmInside(s, text, from, IF_CLOSE);
      MatchSkip(s, from, next, depth);
      MatchOverDoc(s, rest, next, to, depth);
    case Ref(name, fallback, rest) =>
      var x := RefExpr(name, fallback);
      var next := from + |OPEN + x + CLOSE|;
      AtConcat(s, OPEN + x + CLOSE, Print(rest), from, next);
      RefExprClean(name, fallback);
      RefQuiet(s, x, from, next);
      MatchSkip(s, from, next, depth);
      MatchOverDoc(s, rest, next, to, depth);
    case If(name, body, rest) =>
      var b := DocBlock(doc, from);
      SplitBlock(s, doc, b);
      MatchOverBlock(s, doc, b, depth);
      MatchOverDoc(s, body, b.ContentStart(), b.endStart, depth + 1);
      MatchOverDoc(s, rest, b.End(), to, depth);
  }

  lemma RefExprClean(name: string, fallback: Option<string>)
    requires RefName(name, fallback)
    ensures NoBraces(RefExpr(name, fallback)) && Plain(RefExpr(name, fallback))
  {
    var x := RefExpr(name, fallback);
    assert name != "" ==> x[0] == name[0];
    assert name == "" && fallback.Some? ==> x[0] == '|';
  }

  // ---- The conditional pass ----

  /** The buffer after the conditional pass: blocks are replaced, references are still there. */
  function Flatten(doc: Doc, vars: Vars, render: Renderer): Rendered {
    match doc
    case End => Ok("")
    case Text(text, rest) => Prepend(text, Flatten(rest, vars, render))
    case Ref(name, fallback, rest) => Prepend(OPEN + RefExpr(name, fallback) + CLOSE, Flatten(rest, vars, render))
    case If(name, body, rest) =>
      var replacement :- if Truthy(vars, name) then render(Print(body)) else Ok("");
      Prepend(replacement, Flatten(rest, vars, render))
  }

  lemma Glue(s: string, from: nat, to: nat, start: nat, x: string)
    requires from <= to <= start <= |s|
    ensures s[from..to] + (s[to..start] + x) == s[from..start] + x
  {
    assert s[from..start] == s[from..to] + s[to..start];
  }

  lemma ConditionalsFrom(s: string, from: nat, to: nat, vars: Vars, render: Renderer)
    requires from <= to <= |s| && FirstBlock(s, from) == FirstBlock(s, to)
    ensures Conditionals(s, from, vars, render) == Prepend(s[from..to], Conditionals(s, to, vars, render))
  {
    var b := FirstBlock(s, to);
    if b.None? {
      assert s[from..] == s[from..to] + s[to..];
    } else {
      var r := Replacement(s, b.value, vars, render);
      if r.Ok? {
        Glue(s, from, to, b.value.start, r.value);
        PrependTwice(s[from..to], s[to..b.value.start] + r.value, Conditionals(s, b.value.End(), vars, render));
      }
    }
  }

  lemma ConditionalsSkip(s: string, x: string, from: nat, to: nat, vars: Vars, render: Renderer)
    requires At(s, x, from) && to == from + |x| && Quiet(s, from, to)
    ensures Conditionals(s, from, vars, render) == Prepend(x, Conditionals(s, to, vars, render))
  {
    FindSkip(s, IF_OPEN, from, to);
    ConditionalsFrom(s, from, to, vars, render);
    AtSlice(s, x, from, to);
  }

  lemma BlockOfDoc(s: string, doc: Doc, b: Block)
    requires doc.If? && WellFormed(doc) && BlockParts(s, doc, b)
    ensures FirstBlock(s, b.start) == Some(b)
  {
    FindIs(s, IF_OPEN, b.start, b.start);
    MatchOverDoc(s, doc.body, b.ContentStart(), b.endStart, 1);
    MatchOverClose(s, b.endStart, b.End(), 1);
  }

  /** The conditional pass over a printed template, with no condition on the variables. */
  lemma {:induction false} ConditionalsOfDoc(s: string, doc: Doc, from: nat, vars: Vars, render: Renderer)
    requires WellFormed(doc) && At(s, Print(doc), from) && from + |Print(doc)| == |s|
    ensures Conditionals(s, from, vars, render) == Flatten(doc, vars, render)
    decreases doc
  {
    match doc
    case End =>
      FindFirst(s, IF_OPEN, from);
      assert FirstBlock(s, from) == None && s[from..] == "";
    case Text(text, rest) =>
      var to := from + |text|;
      AtConcat(s, text, Print(rest), from, to);
      CalmInside(s, text, from, IF_OPEN);
      CalmInside(s, text, from, IF_CLOSE);
      ConditionalsOfDoc(s, rest, to, vars, render);
      ConditionalsSkip(s, text, from, to, vars, render);
    case Ref(name, fallback, rest) =>
      var x := OPEN + RefExpr(name, fallback) + CLOSE;
      var to := from + |x|;
      AtConcat(s, x, Print(rest), from, to);
      RefExprClean(name, fallback);
      RefQuiet(s, RefExpr(name, fallback), from, to);
      ConditionalsOfDoc(s, rest, to, vars, render);
      ConditionalsSkip(s, x, from, to, vars, render);
    case If(name, body, rest) =>
      var b := DocBlock(doc, from);
      SplitBlock(s, doc, b);
      BlockOfDoc(s, doc, b);
      ConditionalsOfDoc(s, rest, b.End(), vars, render);
      ConditionalsOfIf(s, doc, b, vars, render);
  }

  lemma ReplacementOfIf(s: string, doc: Doc, b: Block, vars: Vars, render: Renderer)
    requires doc.If? && BlockParts(s, doc, b)
    ensures Replacement(s, b, vars, render) == if Truthy(vars, doc.name) then render(Print(doc.body)) else Ok("")
  {
    AtSlice(s, Print(doc.body), b.ContentStart(), b.endStart);
  }

  lemma ConditionalsOfIf(s: string, doc: Doc, b: Block, vars: Vars, render: Renderer)
    requires doc.If? && BlockParts(s, doc, b) && FirstBlock(s, b.start) == Some(b)
    requires Conditionals(s, b.End(), vars, render) == Flatten(doc.rest, vars, render)
    ensures Conditionals(s, b.start, vars, render) == Flatten(doc, vars, render)
  {
    ReplacementOfIf(s, doc, b, vars, render);
    ConditionalsAtBlock(s, b, vars, render);
  }

  lemma ConditionalsAtBlock(s: string, b: Block, vars: Vars, render: Renderer)
    requires b.In(s) && FirstBlock(s, b.start) == Some(b)
    ensures var r := Replacement(s, b, vars, render);
      Conditionals(s, b.start, vars, render)
      == if r.Ok? then Prepend(r.value, Conditionals(s, b.End(), vars, render)) else r
  {
    var r := Replacement(s, b, vars, render);
    if r.Ok? {
      assert s[b.start..b.start] + r.value == r.value;
    }
  }

  // ---- The variable pass ----

  lemma ValueOfRef(name: string, fallback: Option<string>, vars: Vars, date: DateFormatter)
    requires RefName(name, fallback)
    ensures Value(RefExpr(name, fallback), vars, date) == Ok(Lookup(name, fallback, vars))
  {
    var x := RefExpr(name, fallback);
    FindFirst(x, "|", 0);
    assert "|"[0] == '|' && "date:"[..4] == "date" && "date:"[4] == ':';
    if fallback.Some? {
      assert x[|name|] == '|';
      assert "date:" <= x ==> |name| >= 5 && "date:" <= name;
      forall i: nat | i < |name|
        ensures !At(x, "|", i)
      {
        assert x[i] == name[i];
      }
      FindIs(x, "|", 0, |name|);
      assert x[..|name|] == name && x[|name| + 1..] == fallback.value;
    }
  }

  lemma ExpandLonger(x: string, text: string, expr: string, ps: seq<Piece>, vars: Vars, date: DateFormatter)
    ensures Expand([Literal(x + text), Reference(expr)] + ps, vars, date)
         == Prepend(x, Expand([Literal(text), Reference(expr)] + ps, vars, date))
  {
    ExpandPair(x + text, expr, ps, vars, date);
    ExpandPair(text, expr, ps, vars, date);
    var v := Value(expr, vars, date);
    if v.Ok? {
      PrependTwice(x, text + v.value, Expand(ps, vars, date));
      assert x + (text + v.value) == x + text + v.value;
    }
  }

  lemma ExpandFrom(s: string, from: nat, to: nat, vars: Vars, date: DateFormatter)
    requires from <= to <= |s| && NextReference(s, from) == NextReference(s, to)
    ensures Expand(Pieces(s, from), vars, date) == Prepend(s[from..to], Expand(Pieces(s, to), vars, date))
  {
    var r := NextReference(s, to);
    if r.None? {
      ExpandLiteral(s[from..], vars, date);
      ExpandLiteral(s[to..], vars, date);
      assert s[from..] == s[from..to] + s[to..];
    } else {
      var x := r.value;
      PiecesStep(s, from, x);
      PiecesStep(s, to, x);
      assert s[from..x.start] == s[from..to] + s[to..x.start];
      ExpandLonger(s[from..to], s[to..x.start], s[x.ExprStart()..x.exprEnd], Pieces(s, x.End()), vars, date);
    }
  }

  lemma ExpandSkip(s: string, x: string, from: nat, to: nat, vars: Vars, date: DateFormatter)
    requires At(s, x, from) && to == from + |x| && Calm(x)
    ensures Expand(Pieces(s, from), vars, date) == Prepend(x, Expand(Pieces(s, to), vars, date))
  {
    CalmInside(s, x, from, OPEN);
    FindSkip(s, OPEN, from, to);
    ExpandFrom(s, from, to, vars, date);
    AtSlice(s, x, from, to);
  }

  /** A reference at `from` is replaced by its value. */
  lemma ExpandRef(s: string, x: string, from: nat, to: nat, vars: Vars, date: DateFormatter)
    requires At(s, OPEN + x + CLOSE, from) && to == from + |OPEN + x + CLOSE|
    requires NoBraces(x) && Plain(x) && Value(x, vars, date).Ok?
    ensures Expand(Pieces(s, from), vars, date)
         == Prepend(Value(x, vars, date).value, Expand(Pieces(s, to), vars, date))
  {
    var i := from + |OPEN|;
    var e := i + |x|;
    RefSpan(s, x, from, i, e);
    var span := Span(from, e);
    assert span.ExprStart() == i && span.End() == to;
    PiecesStep(s, from, span);
    ExpandPair(s[from..from], x, Pieces(s, to), vars, date);
    assert s[from..from] + Value(x, vars, date).value == Value(x, vars, date).value;
  }

  lemma NotAt(s: string, p: string, i: nat, k: nat)
    requires k < |p| && i + k < |s| && s[i + k] != p[k]
    ensures !At(s, p, i)
  {
    AtIs(s, p, i);
    assert i + |p| <= |s| ==> s[i..i + |p|][k] == s[i + k];
  }

  lemma RefSpan(s: string, x: string, from: nat, i: nat, e: nat)
    requires At(s, OPEN + x + CLOSE, from) && i == from + |OPEN| && e == i + |x|
    requires NoBraces(x) && Plain(x)
    ensures NextReference(s, from) == Some(Span(from, e)) && s[i..e] == x
  {
    var all := OPEN + x + CLOSE;
    AtChar(s, all, from, 2);
    assert all[2] == if x == "" then '}' else x[0];
    NotAt(s, "{{#", from, 2);
    NotAt(s, "{{/", from, 2);
    RefBraces(s, x, from, i, e);
  }

  lemma RefBraces(s: string, x: string, from: nat, i: nat, e: nat)
    requires At(s, OPEN + x + CLOSE, from) && i == from + |OPEN| && e == i + |x| && '}' !in x
    ensures Find(s, OPEN, from) == Some(from) && Find(s, CLOSE, i) == Some(e)
    ensures At(s, OPEN, from) && e <= |s| && s[i..e] == x
  {
    assert OPEN + (x + CLOSE) == OPEN + x + CLOSE;
    AtConcat(s, OPEN, x + CLOSE, from, i);
    AtConcat(s, x, CLOSE, i, e);
    AbsentInside(s, x, i, CLOSE);
    FindIs(s, CLOSE, i, e);
    AtSlice(s, x, i, e);
  }

  /** The buffer of a template whose taken bodies rendered to their meanings. */
  function Flat(doc: Doc, vars: Vars): string {
    match doc
    case End => ""
    case Text(text, rest) => text + Flat(rest, vars)
    case Ref(name, fallback, rest) => OPEN + RefExpr(name, fallback) + CLOSE + Flat(rest, vars)
    case If(name, body, rest) => (if Truthy(vars, name) then Denote(body, vars) else "") + Flat(rest, vars)
  }

  /** The variable pass gives the meaning. */
  lemma {:induction false} ExpandOfDoc(s: string, doc: Doc, from: nat, vars: Vars, date: DateFormatter)
    requires WellFormed(doc) && BodiesClean(doc, vars)
    requires At(s, Flat(doc, vars), from) && from + |Flat(doc, vars)| == |s|
    ensures Expand(Pieces(s, from), vars, date) == Ok(Denote(doc, vars))
    decreases doc
  {
    match doc
    case End =>
      ExpandEnd(s, vars, date);
    case Text(text, rest) =>
      var to := from + |text|;
      AtConcat(s, text, Flat(rest, vars), from, to);
      ExpandOfDoc(s, rest, to, vars, date);
      ExpandSkip(s, text, from, to, vars, date);
    case Ref(name, fallback, rest) =>
      var x := RefExpr(name, fallback);
      var to := from + |OPEN + x + CLOSE|;
      AtConcat(s, OPEN + x + CLOSE, Flat(rest, vars), from, to);
      ExpandOfDoc(s, rest, to, vars, date);
      ExpandOfRef(s, name, fallback, from, to, vars, date);
    case If(name, body, rest) =>
      var text := if Truthy(vars, name) then Denote(body, vars) else "";
      var to := from + |text|;
      AtConcat(s, text, Flat(rest, vars), from, to);
      ExpandOfDoc(s, rest, to, vars, date);
      ExpandSkip(s, text, from, to, vars, date);
  }

  lemma ExpandEnd(s: string, vars: Vars, date: DateFormatter)
    ensures Expand(Pieces(s, |s|), vars, date) == Ok("")
  {
    FindFirst(s, OPEN, |s|);
    assert s[|s|..] == "";
    ExpandLiteral("", vars, date);
  }

  lemma ExpandOfRef(
    s: string, name: string, fallback: Option<string>, from: nat, to: nat, vars: Vars, date: DateFormatter)
    requires RefName(name, fallback)
    requires At(s, OPEN + RefExpr(name, fallback) + CLOSE, from)
    requires to == from + |OPEN + RefExpr(name, fallback) + CLOSE|
    ensures Expand(Pieces(s, from), vars, date)
         == Prepend(Lookup(name, fallback, vars), Expand(Pieces(s, to), vars, date))
  {
    RefExprClean(name, fallback);
    ValueOfRef(name, fallback, vars, date);
    ExpandRef(s, RefExpr(name, fallback), from, to, vars, date);
  }

  // ---- The theorem ----

  /** Variables whose values could not open a reference are enough. */
  lemma {:induction false} CalmValues(doc: Doc, vars: Vars)
    requires WellFormed(doc) && forall name :: name in vars ==> Calm(vars[name])
    ensures Calm(Denote(doc, vars)) && BodiesClean(doc, vars)
  {
    match doc
    case End =>
    case Text(text, rest) =>
      CalmValues(rest, vars);
      CalmConcat(text, Denote(rest, vars));
    case Ref(name, fallback, rest) =>
      CalmValues(rest, vars);
      assert Calm(Lookup(name, fallback, vars));
      CalmConcat(Lookup(name, fallback, vars), Denote(rest, vars));
    case If(name, body, rest) =>
      CalmValues(body, vars);
      CalmValues(rest, vars);
      CalmConcat(if Truthy(vars, name) then Denote(body, vars) else "", Denote(rest, vars));
  }

  lemma BodyNoEscape(pre: string, s: string, post: string)
    requires NoEscape(pre + s + post)
    ensures NoEscape(s)
  {
    var t := pre + s + post;
    forall i | 0 <= i < |s| - 1
      ensures (s[i] != '\\' || s[i + 1] != 'n') && (s[i] != '\\' || s[i + 1] != 't')
    {
      assert s[i] == t[|pre| + i] && s[i + 1] == t[|pre| + i + 1];
    }
  }

  lemma AtWhole(s: string)
    ensures At(s, s, 0)
  {
    AtIs(s, s, 0);
    assert s[0..|s|] == s;
  }

  /** The variable pass over the outcome of the conditional pass. */
  function ThenExpand(buffer: Rendered, vars: Vars, date: DateFormatter): Rendered {
    if buffer.Ok? then Expand(Pieces(buffer.value, 0), vars, date) else buffer
  }

  /**
   For every tree and all variables: a template whose unescaped form is the printed tree
   renders to the variable pass over the flattened tree.
   */
  lemma RenderFlattened(t: string, doc: Doc, vars: Vars, date: DateFormatter, depth: nat)
    requires WellFormed(doc) && Unescape(t) == Print(doc) && depth < MAX_DEPTH
    ensures Render(t, vars, date, depth) == ThenExpand(Flatten(doc, vars, Inner(vars, date, depth)), vars, date)
  {
    AtWhole(Print(doc));
    ConditionalsOfDoc(Print(doc), doc, 0, vars, Inner(vars, date, depth));
  }

  function Bounded(depth: nat, text: string): Rendered {
    if depth >= MAX_DEPTH then Err(RecursionLimit) else Ok(text)
  }

  lemma {:induction false} FlattenMeaning(doc: Doc, vars: Vars, date: DateFormatter, depth: nat)
    requires WellFormed(doc) && NoEscape(Print(doc)) && BodiesClean(doc, vars) && depth < MAX_DEPTH
    ensures Flatten(doc, vars, Inner(vars, date, depth)) == Bounded(depth + TakenDepth(doc, vars), Flat(doc, vars))
    decreases doc, 0
  {
    if !doc.End? {
      NoEscapeParts(doc);
      FlattenMeaning(doc.rest, vars, date, depth);
    }
    if doc.If? {
      var inside, after := depth + 1 + TakenDepth(doc.body, vars), depth + TakenDepth(doc.rest, vars);
      if Truthy(vars, doc.name) {
        BodyMeaning(doc.body, vars, date, depth, inside);
      }
      FlattenIf(doc, vars, Inner(vars, date, depth), depth, inside, after);
    }
  }

  lemma InnerIs(t: string, vars: Vars, date: DateFormatter, depth: nat, next: nat)
    requires depth < MAX_DEPTH && next == depth + 1
    ensures Inner(vars, date, depth)(t) == Render(t, vars, date, next)
  {
  }

  lemma BodyMeaning(body: Doc, vars: Vars, date: DateFormatter, depth: nat, inside: nat)
    requires WellFormed(body) && NoEscape(Print(body)) && BodiesClean(body, vars)
    requires depth < MAX_DEPTH && inside == depth + 1 + TakenDepth(body, vars)
    ensures Inner(vars, date, depth)(Print(body)) == Bounded(inside, Denote(body, vars))
    decreases body, 3
  {
    var next := depth + 1;
    UnescapeFixed(Print(body));
    RenderMeaning(Print(body), body, vars, date, next, inside);
    InnerIs(Print(body), vars, date, depth, next);
  }

  lemma FlattenIf(doc: Doc, vars: Vars, render: Renderer, depth: nat, inside: nat, after: nat)
    requires doc.If? && depth < MAX_DEPTH
    requires after == depth + TakenDepth(doc.rest, vars)
    requires Flatten(doc.rest, vars, render) == Bounded(after, Flat(doc.rest, vars))
    requires Truthy(vars, doc.name) ==>
               && inside == depth + 1 + TakenDepth(doc.body, vars)
               && render(Print(doc.body)) == Bounded(inside, Denote(doc.body, vars))
    ensures Flatten(doc, vars, render) == Bounded(depth + TakenDepth(doc, vars), Flat(doc, vars))
  {
    var replacement := if Truthy(vars, doc.name) then render(Print(doc.body)) else Ok("");
    var total := depth + TakenDepth(doc, vars);
    if replacement.Err? {
      assert total >= inside;
    } else {
      assert total >= MAX_DEPTH <==> after >= MAX_DEPTH;
      assert Flatten(doc, vars, render) == Prepend(replacement.value, Bounded(after, Flat(doc.rest, vars)));
    }
  }

  lemma NoEscapeParts(doc: Doc)
    requires NoEscape(Print(doc)) && !doc.End?
    ensures NoEscape(Print(doc.rest)) && (doc.If? ==> NoEscape(Print(doc.body)))
  {
    var all, rest := Print(doc), Print(doc.rest);
    var pre := all[..|all| - |rest|];
    assert all == pre + rest + "" by {
      assert all[|all| - |rest|..] == rest;
    }
    BodyNoEscape(pre, rest, "");
    if doc.If? {
      NoEscapeBody(IF_OPEN + doc.name + CLOSE, Print(doc.body), IF_CLOSE, rest);
    }
  }

  lemma NoEscapeBody(pre: string, body: string, close: string, rest: string)
    requires NoEscape(pre + body + close + rest)
    ensures NoEscape(body)
  {
    assert pre + body + (close + rest) == pre + body + close + rest;
    BodyNoEscape(pre, body, close + rest);
  }

  /**
   The renderer computes the meaning of the tree, and fails with the recursion limit exactly
   when taken conditionals are nested to the limit. Only what taken conditionals expand to
   must not be able to open a reference; all other variables may hold anything.
   */
  lemma RenderMeaning(t: string, doc: Doc, vars: Vars, date: DateFormatter, depth: nat, total: nat)
    requires WellFormed(doc) && Unescape(t) == Print(doc) && BodiesClean(doc, vars)
    requires total == depth + TakenDepth(doc, vars)
    ensures Render(t, vars, date, depth) == Bounded(total, Denote(doc, vars))
    decreases doc, 2
  {
    if depth < MAX_DEPTH {
      UnescapedMeaning(t, doc, vars, date, depth, total);
      FlatMeaning(doc, vars, date);
      RenderBounded(t, doc, vars, date, depth, total, Flat(doc, vars), Denote(doc, vars));
    } else {
      TooDeep(t, vars, date, depth);
    }
  }

  lemma UnescapedMeaning(t: string, doc: Doc, vars: Vars, date: DateFormatter, depth: nat, total: nat)
    requires WellFormed(doc) && Unescape(t) == Print(doc) && BodiesClean(doc, vars) && depth < MAX_DEPTH
    requires total == depth + TakenDepth(doc, vars)
    ensures Flatten(doc, vars, Inner(vars, date, depth)) == Bounded(total, Flat(doc, vars))
    decreases doc, 1
  {
    UnescapeIdempotent(t);
    FlattenMeaning(doc, vars, date, depth);
  }

  lemma FlatMeaning(doc: Doc, vars: Vars, date: DateFormatter)
    requires WellFormed(doc) && BodiesClean(doc, vars)
    ensures Expand(Pieces(Flat(doc, vars), 0), vars, date) == Ok(Denote(doc, vars))
  {
    AtWhole(Flat(doc, vars));
    ExpandOfDoc(Flat(doc, vars), doc, 0, vars, date);
  }

  lemma RenderBounded(
    t: string, doc: Doc, vars: Vars, date: DateFormatter, depth: nat, total: nat, flat: string, meaning: string)
    requires WellFormed(doc) && Unescape(t) == Print(doc) && depth < MAX_DEPTH
    requires Flatten(doc, vars, Inner(vars, date, depth)) == Bounded(total, flat)
    requires Expand(Pieces(flat, 0), vars, date) == Ok(meaning)
    ensures Render(t, vars, date, depth) == Bounded(total, meaning)
  {
    RenderFlattened(t, doc, vars, date, depth);
  }

  lemma TooDeep(t: string, vars: Vars, date: DateFormatter, depth: nat)
    requires depth >= MAX_DEPTH
    ensures Render(t, vars, date, depth) == Err(RecursionLimit)
  {
  }

  /** With calm values, every tree renders to its meaning. */
  lemma RenderCalmValues(t: string, doc: Doc, vars: Vars, date: DateFormatter)
    requires WellFormed(doc) && Unescape(t) == Print(doc)
    requires forall name :: name in vars ==> Calm(vars[name])
    ensures Render(t, vars, date, 0) == Bounded(TakenDepth(doc, vars), Denote(doc, vars))
  {
    CalmValues(doc, vars);
    RenderMeaning(t, doc, vars, date, 0, TakenDepth(doc, vars));
  }

  /** In particular with values that hold no opening brace. */
  lemma RenderCleanValues(t: string, doc: Doc, vars: Vars, date: DateFormatter)
    requires WellFormed(doc) && Unescape(t) == Print(doc)
    requires forall name :: name in vars ==> '{' !in vars[name]
    ensures Render(t, vars, date, 0) == Bounded(TakenDepth(doc, vars), Denote(doc, vars))
  {
    forall name | name in vars
      ensures Calm(vars[name])
    {
      NoBraceCalm(vars[name]);
    }
    RenderCalmValues(t, doc, vars, date);
  }

  // ---- Values inside a taken conditional ----

  /** `{{#if flag}}{{name}}{{/if}}` */
  function Nested(flag: string, name: string): Doc {
    If(flag, Ref(name, None, End), End)
  }

  ghost predicate NestedNames(flag: string, name: string) {
    NoBraces(flag) && RefName(name, None) && '\\' !in flag && '\\' !in name
  }

  lemma NestedPlain(flag: string, name: string)
    requires NestedNames(flag, name)
    ensures WellFormed(Nested(flag, name))
    ensures NoEscape(Print(Nested(flag, name))) && NoEscape(Print(Ref(name, None, End)))
  {
    assert '\\' !in Print(Ref(name, None, End));
    assert '\\' !in Print(Nested(flag, name));
  }

  lemma RefAlone(name: string, vars: Vars, date: DateFormatter, depth: nat)
    requires RefName(name, None) && NoEscape(Print(Ref(name, None, End))) && depth < MAX_DEPTH
    ensures Render(Print(Ref(name, None, End)), vars, date, depth) == Ok(Lookup(name, None, vars))
  {
    var doc := Ref(name, None, End);
    UnescapeFixed(Print(doc));
    RenderMeaning(Print(doc), doc, vars, date, depth, depth);
    assert Lookup(name, None, vars) + "" == Lookup(name, None, vars);
  }

  /** A value printed by a taken conditional is scanned once more for references. */
  lemma NestedValueScanned(flag: string, name: string, vars: Vars, date: DateFormatter)
    requires NestedNames(flag, name) && Truthy(vars, flag)
    ensures Render(Print(Nested(flag, name)), vars, date, 0) == Expand(Pieces(Lookup(name, None, vars), 0), vars, date)
  {
    var doc := Nested(flag, name);
    NestedPlain(flag, name);
    UnescapeFixed(Print(doc));
    RenderFlattened(Print(doc), doc, vars, date, 0);
    RefAlone(name, vars, date, 1);
    assert Lookup(name, None, vars) + "" == Lookup(name, None, vars);
  }

  /** So a value that is itself a reference is expanded, where its meaning is to be copied. */
  lemma NestedValueExpanded(flag: string, name: string, other: string, vars: Vars, date: DateFormatter)
    requires NestedNames(flag, name) && Truthy(vars, flag) && RefName(other, None)
    requires name in vars && vars[name] == OPEN + other + CLOSE
    ensures Render(Print(Nested(flag, name)), vars, date, 0) == Ok(Lookup(other, None, vars))
    ensures Denote(Nested(flag, name), vars) == OPEN + other + CLOSE
  {
    NestedValueScanned(flag, name, vars, date);
    var inner := Ref(other, None, End);
    assert Flat(inner, vars) == vars[name];
    AtWhole(vars[name]);
    ExpandOfDoc(vars[name], inner, 0, vars, date);
    assert Lookup(other, None, vars) + "" == Lookup(other, None, vars);
    assert vars[name] + "" + "" == vars[name];
  }

  /** A concrete case: `host` renders as the value of `y` instead of as itself. */
  lemma NestedValueWitness(date: DateFormatter)
    ensures Render(Print(Nested("a", "host")), map["a" := "1", "host" := "{{y}}", "y" := "z"], date, 0) == Ok("z")
  {
    assert OPEN + "y" + CLOSE == "{{y}}";
    NestedValueExpanded("a", "host", "y", map["a" := "1", "host" := "{{y}}", "y" := "z"], date);
  }
}
