/**
 Which templates render to their meaning whatever the variables hold: exactly those
 within the nesting limit and without a reference inside a conditional.
 */
module TemplateValues {
  import opened Common
  import opened Template
  import opened TemplateTheorems
  import opened TemplateTrees

  predicate HasRef(doc: Doc) {
    match doc
    case End => false
    case Text(_, rest) => HasRef(rest)
    case Ref(_, _, _) => true
    case If(_, body, rest) => HasRef(body) || HasRef(rest)
  }

  /** Some conditional has a reference inside it. */
  predicate NestedRef(doc: Doc) {
    match doc
    case End => false
    case Text(_, rest) => NestedRef(rest)
    case Ref(_, _, rest) => NestedRef(rest)
    case If(_, body, rest) => HasRef(body) || NestedRef(rest)
  }

  /** How deep conditionals are nested, taken or not. */
  function IfDepth(doc: Doc): nat {
    match doc
    case End => 0
    case Text(_, rest) => IfDepth(rest)
    case Ref(_, _, rest) => IfDepth(rest)
    case If(_, body, rest) => if IfDepth(body) + 1 < IfDepth(rest) then IfDepth(rest) else IfDepth(body) + 1
  }

  function Names(doc: Doc): set<string> {
    match doc
    case End => {}
    case Text(_, rest) => Names(rest)
    case Ref(name, _, rest) => {name} + Names(rest)
    case If(name, body, rest) => {name} + Names(body) + Names(rest)
  }

  lemma {:induction false} TakenWithin(doc: Doc, vars: Vars)
    ensures TakenDepth(doc, vars) <= IfDepth(doc)
  {
    if !doc.End? {
      TakenWithin(doc.rest, vars);
    }
    if doc.If? {
      TakenWithin(doc.body, vars);
    }
  }

  // ---- Without a nested reference ----

  lemma {:induction false} TextCalm(doc: Doc, vars: Vars)
    requires WellFormed(doc) && !HasRef(doc)
    ensures Calm(Denote(doc, vars)) && BodiesClean(doc, vars)
  {
    match doc
    case End =>
    case Text(text, rest) =>
      TextCalm(rest, vars);
      CalmConcat(text, Denote(rest, vars));
    case If(name, body, rest) =>
      TextCalm(body, vars);
      TextCalm(rest, vars);
      CalmConcat(if Truthy(vars, name) then Denote(body, vars) else "", Denote(rest, vars));
  }

  lemma {:induction false} UnnestedClean(doc: Doc, vars: Vars)
    requires WellFormed(doc) && !NestedRef(doc)
    ensures BodiesClean(doc, vars)
  {
    if !doc.End? {
      UnnestedClean(doc.rest, vars);
    }
    if doc.If? {
      TextCalm(doc.body, vars);
    }
  }

  // ---- With one: every name holds a reference to a name that holds nothing ----

  ghost predicate Echoes(doc: Doc, vars: Vars, y: string) {
    && RefName(y, None) && y !in vars
    && forall name :: name in Names(doc) ==> name in vars && vars[name] == OPEN + y + CLOSE
  }

  /** What is left once the references inside conditionals have been expanded twice. */
  function Hollow(doc: Doc): string {
    match doc
    case End => ""
    case Text(text, rest) => text + Hollow(rest)
    case Ref(_, _, rest) => Hollow(rest)
    case If(_, body, rest) => Hollow(body) + Hollow(rest)
  }

  /** What the template renders to. */
  function Output(doc: Doc, y: string): string {
    match doc
    case End => ""
    case Text(text, rest) => text + Output(rest, y)
    case Ref(_, _, rest) => OPEN + y + CLOSE + Output(rest, y)
    case If(_, body, rest) => Hollow(body) + Output(rest, y)
  }

  /** The buffer between the two passes. */
  function Buffer(doc: Doc, y: string): string {
    match doc
    case End => ""
    case Text(text, rest) => text + Buffer(rest, y)
    case Ref(name, fallback, rest) => OPEN + RefExpr(name, fallback) + CLOSE + Buffer(rest, y)
    case If(_, body, rest) => Output(body, y) + Buffer(rest, y)
  }

  lemma {:induction false} HollowCalm(doc: Doc)
    requires WellFormed(doc)
    ensures Calm(Hollow(doc))
  {
    match doc
    case End =>
    case Text(text, rest) =>
      HollowCalm(rest);
      CalmConcat(text, Hollow(rest));
    case Ref(_, _, rest) => HollowCalm(rest);
    case If(_, body, rest) =>
      HollowCalm(body);
      HollowCalm(rest);
      CalmConcat(Hollow(body), Hollow(rest));
  }

  /** A rendered body, scanned once more, loses its references. */
  lemma {:induction false} ExpandBody(
    s: string, doc: Doc, y: string, from: nat, to: nat, vars: Vars, date: DateFormatter)
    requires WellFormed(doc) && RefName(y, None) && y !in vars
    requires At(s, Output(doc, y), from) && to == from + |Output(doc, y)| <= |s|
    ensures Expand(Pieces(s, from), vars, date) == Prepend(Hollow(doc), Expand(Pieces(s, to), vars, date))
    decreases doc
  {
    var after := Expand(Pieces(s, to), vars, date);
    match doc
    case End => PrependEmpty(after);
    case Text(text, rest) =>
      var next := from + |text|;
      AtConcat(s, text, Output(rest, y), from, next);
      ExpandBody(s, rest, y, next, to, vars, date);
      ExpandSkip(s, text, from, next, vars, date);
      PrependTwice(text, Hollow(rest), after);
    case Ref(_, _, rest) =>
      var next := from + |OPEN + y + CLOSE|;
      AtConcat(s, OPEN + y + CLOSE, Output(rest, y), from, next);
      ExpandBody(s, rest, y, next, to, vars, date);
      ExpandOfRef(s, y, None, from, next, vars, date);
      PrependEmpty(Expand(Pieces(s, next), vars, date));
    case If(_, body, rest) =>
      var next := from + |Hollow(body)|;
      AtConcat(s, Hollow(body), Output(rest, y), from, next);
      HollowCalm(body);
      ExpandBody(s, rest, y, next, to, vars, date);
      ExpandSkip(s, Hollow(body), from, next, vars, date);
      PrependTwice(Hollow(body), Hollow(rest), after);
  }

  lemma {:induction false} ExpandBuffer(s: string, doc: Doc, y: string, from: nat, vars: Vars, date: DateFormatter)
    requires WellFormed(doc) && Echoes(doc, vars, y)
    requires At(s, Buffer(doc, y), from) && from + |Buffer(doc, y)| == |s|
    ensures Expand(Pieces(s, from), vars, date) == Ok(Output(doc, y))
    decreases doc
  {
    match doc
    case End => ExpandEnd(s, vars, date);
    case Text(text, rest) =>
      var to := from + |text|;
      AtConcat(s, text, Buffer(rest, y), from, to);
      ExpandBuffer(s, rest, y, to, vars, date);
      ExpandSkip(s, text, from, to, vars, date);
    case Ref(name, fallback, rest) =>
      var x := OPEN + RefExpr(name, fallback) + CLOSE;
      var to := from + |x|;
      AtConcat(s, x, Buffer(rest, y), from, to);
      ExpandBuffer(s, rest, y, to, vars, date);
      ExpandOfRef(s, name, fallback, from, to, vars, date);
    case If(_, body, rest) =>
      var to := from + |Output(body, y)|;
      AtConcat(s, Output(body, y), Buffer(rest, y), from, to);
      ExpandBuffer(s, rest, y, to, vars, date);
      ExpandBody(s, body, y, from, to, vars, date);
  }

  lemma {:induction false} FlattenEchoes(doc: Doc, vars: Vars, y: string, date: DateFormatter, depth: nat)
    requires WellFormed(doc) && NoEscape(Print(doc)) && Echoes(doc, vars, y) && depth + IfDepth(doc) < MAX_DEPTH
    ensures Flatten(doc, vars, Inner(vars, date, depth)) == Ok(Buffer(doc, y))
    decreases doc, 0
  {
    if !doc.End? {
      NoEscapeParts(doc);
      FlattenEchoes(doc.rest, vars, y, date, depth);
    }
    if doc.If? {
      BodyEchoes(doc.body, vars, y, date, depth, depth + 1);
      FlattenIfEchoes(doc, vars, y, Inner(vars, date, depth));
    }
  }

  lemma BodyEchoes(body: Doc, vars: Vars, y: string, date: DateFormatter, depth: nat, next: nat)
    requires WellFormed(body) && NoEscape(Print(body)) && Echoes(body, vars, y)
    requires next == depth + 1 && next + IfDepth(body) < MAX_DEPTH
    ensures Inner(vars, date, depth)(Print(body)) == Ok(Output(body, y))
    decreases body, 2
  {
    UnescapeFixed(Print(body));
    RenderEchoes(Print(body), body, vars, y, date, next);
    InnerIs(Print(body), vars, date, depth, next);
  }

  lemma FlattenIfEchoes(doc: Doc, vars: Vars, y: string, render: Renderer)
    requires doc.If? && Echoes(doc, vars, y)
    requires Flatten(doc.rest, vars, render) == Ok(Buffer(doc.rest, y))
    requires render(Print(doc.body)) == Ok(Output(doc.body, y))
    ensures Flatten(doc, vars, render) == Ok(Buffer(doc, y))
  {
    assert doc.name in Names(doc);
    assert Truthy(vars, doc.name);
  }

  lemma RenderEchoes(t: string, doc: Doc, vars: Vars, y: string, date: DateFormatter, depth: nat)
    requires WellFormed(doc) && Unescape(t) == Print(doc) && Echoes(doc, vars, y) && depth + IfDepth(doc) < MAX_DEPTH
    ensures Render(t, vars, date, depth) == Ok(Output(doc, y))
    decreases doc, 1
  {
    UnescapeIdempotent(t);
    FlattenEchoes(doc, vars, y, date, depth);
    RenderFlattened(t, doc, vars, date, depth);
    AtWhole(Buffer(doc, y));
    ExpandBuffer(Buffer(doc, y), doc, y, 0, vars, date);
  }

  lemma {:induction false} OutputShorter(doc: Doc, vars: Vars, y: string)
    requires Echoes(doc, vars, y)
    ensures |Hollow(doc)| <= |Denote(doc, vars)| && (HasRef(doc) ==> |Hollow(doc)| < |Denote(doc, vars)|)
    ensures |Output(doc, y)| <= |Denote(doc, vars)| && (NestedRef(doc) ==> |Output(doc, y)| < |Denote(doc, vars)|)
  {
    if !doc.End? {
      OutputShorter(doc.rest, vars, y);
    }
    if doc.Ref? || doc.If? {
      assert doc.name in Names(doc);
      assert |OPEN + y + CLOSE| >= 4;
    }
    if doc.If? {
      OutputShorter(doc.body, vars, y);
    }
  }

  lemma {:induction false} NamesShort(doc: Doc)
    ensures forall name :: name in Names(doc) ==> |name| <= |Print(doc)|
  {
    if !doc.End? {
      NamesShort(doc.rest);
    }
    if doc.If? {
      NamesShort(doc.body);
    }
  }

  lemma FreshName(doc: Doc) returns (y: string)
    ensures RefName(y, None) && y !in Names(doc)
  {
    y := seq(|Print(doc)| + 5, _ => 'x');
    NamesShort(doc);
    assert y[0] == 'x' && |y| > |Print(doc)|;
    assert y != "date" && !("date:" <= y) by {
      assert "date"[0] == 'd' && "date:"[0] == 'd';
    }
  }

  lemma EchoVariables(doc: Doc) returns (vars: Vars, y: string)
    ensures Echoes(doc, vars, y)
  {
    y := FreshName(doc);
    vars := map name | name in Names(doc) :: OPEN + y + CLOSE;
  }

  /**
   A template renders to its meaning for every variable map if and only if its conditionals
   are nested below the limit and no reference is inside one.
   */
  lemma MeaningForAllVariables(t: string, doc: Doc, date: DateFormatter, depth: nat)
    requires WellFormed(doc) && Unescape(t) == Print(doc)
    ensures (forall vars: Vars :: Render(t, vars, date, depth) == Ok(Denote(doc, vars)))
       <==> !NestedRef(doc) && depth + IfDepth(doc) < MAX_DEPTH
  {
    if depth + IfDepth(doc) >= MAX_DEPTH {
      var vars := DeepFails(t, doc, date, depth);
    } else if NestedRef(doc) {
      var vars := NestedFails(t, doc, date, depth);
    } else {
      forall vars: Vars
        ensures Render(t, vars, date, depth) == Ok(Denote(doc, vars))
      {
        UnnestedHolds(t, doc, vars, date, depth);
      }
    }
  }

  ghost predicate AllTaken(doc: Doc, vars: Vars) {
    forall name :: name in Names(doc) ==> Truthy(vars, name)
  }

  lemma {:induction false} TakenAll(doc: Doc, vars: Vars)
    requires AllTaken(doc, vars)
    ensures TakenDepth(doc, vars) == IfDepth(doc)
  {
    if !doc.End? {
      TakenAll(doc.rest, vars);
    }
    if doc.If? {
      assert doc.name in Names(doc);
      TakenAll(doc.body, vars);
    }
  }

  /** Too deep a template fails when all its conditionals are taken. */
  lemma DeepFails(t: string, doc: Doc, date: DateFormatter, depth: nat) returns (vars: Vars)
    requires WellFormed(doc) && Unescape(t) == Print(doc) && depth + IfDepth(doc) >= MAX_DEPTH
    ensures Render(t, vars, date, depth) == Err(RecursionLimit)
  {
    vars := map name | name in Names(doc) :: "x";
    TakenAll(doc, vars);
    CalmValues(doc, vars);
    var total := depth + TakenDepth(doc, vars);
    RenderMeaning(t, doc, vars, date, depth, total);
  }

  lemma NestedFails(t: string, doc: Doc, date: DateFormatter, depth: nat) returns (vars: Vars)
    requires WellFormed(doc) && Unescape(t) == Print(doc) && depth + IfDepth(doc) < MAX_DEPTH && NestedRef(doc)
    ensures Render(t, vars, date, depth) != Ok(Denote(doc, vars))
  {
    var y;
    vars, y := EchoVariables(doc);
    RenderEchoes(t, doc, vars, y, date, depth);
    OutputShorter(doc, vars, y);
  }

  lemma UnnestedHolds(t: string, doc: Doc, vars: Vars, date: DateFormatter, depth: nat)
    requires WellFormed(doc) && Unescape(t) == Print(doc) && depth + IfDepth(doc) < MAX_DEPTH && !NestedRef(doc)
    ensures Render(t, vars, date, depth) == Ok(Denote(doc, vars))
  {
    UnnestedClean(doc, vars);
    TakenWithin(doc, vars);
    var total := depth + TakenDepth(doc, vars);
    RenderMeaning(t, doc, vars, date, depth, total);
  }
}
