/** The template language on the page: what the texts people write render to, whatever the variables hold. */
module TemplateTexts {
  import opened Common
  import opened Template
  import opened TemplateTheorems
  import opened TemplateTrees
  import opened TemplateValues

  lemma NoSlash(s: string)
    requires '\\' !in s
    ensures Unescape(s) == s
  {
    UnescapeFixed(s);
  }

  lemma EndIs(doc: Doc, vars: Vars)
    requires doc.End?
    ensures Print(doc) == "" && Denote(doc, vars) == "" && WellFormed(doc) && !HasRef(doc) && !NestedRef(doc)
    ensures IfDepth(doc) == 0
  {
  }

  lemma TextIs(doc: Doc, vars: Vars)
    requires doc.Text? && doc.rest.End? && Calm(doc.text)
    ensures Print(doc) == doc.text && Denote(doc, vars) == doc.text && WellFormed(doc) && !HasRef(doc)
    ensures IfDepth(doc) == 0
  {
    EndIs(doc.rest, vars);
  }

  lemma FlaggedIs(doc: Doc, vars: Vars)
    requires doc.If? && doc.body.Text? && doc.body.rest.End? && doc.rest.End?
    requires NoBraces(doc.name) && Calm(doc.body.text)
    ensures Print(doc) == "{{#if " + doc.name + "}}" + doc.body.text + "{{/if}}"
    ensures WellFormed(doc) && IfDepth(doc) == 1 && !NestedRef(doc)
    ensures Denote(doc, vars) == if doc.name in vars && |vars[doc.name]| > 0 then doc.body.text else ""
  {
    TextIs(doc.body, vars);
    EndIs(doc.rest, vars);
  }

  /** A conditional shows its text just when its variable is there and not empty. */
  lemma ConditionalText(t: string, name: string, text: string, vars: Vars, date: DateFormatter, depth: nat)
    requires NoBraces(name) && Calm(text) && '\\' !in t && t == "{{#if " + name + "}}" + text + "{{/if}}" && depth < 15
    ensures Render(t, vars, date, depth) == Ok(if name in vars && |vars[name]| > 0 then text else "")
  {
    var doc := If(name, Text(text, End), End);
    FlaggedIs(doc, vars);
    NoSlash(t);
    UnnestedHolds(t, doc, vars, date, depth);
  }

  /** A reference is its variable, also an empty one, and nothing when there is none. */
  lemma ReferenceText(t: string, name: string, vars: Vars, date: DateFormatter, depth: nat)
    requires RefName(name, None) && '\\' !in t && t == "{{" + name + "}}" && depth < 16
    ensures Render(t, vars, date, depth) == Ok(if name in vars then vars[name] else "")
  {
    ReferenceAlone(name, None, t, vars, date, depth);
  }

  /** A default stands in for a variable that is not there, not for an empty one. */
  lemma DefaultText(t: string, name: string, other: string, vars: Vars, date: DateFormatter, depth: nat)
    requires RefName(name, Some(other)) && '\\' !in t && t == "{{" + name + "|" + other + "}}" && depth < 16
    ensures Render(t, vars, date, depth) == Ok(if name in vars then vars[name] else other)
  {
    assert "{{" + (name + "|" + other) + "}}" == "{{" + name + "|" + other + "}}";
    ReferenceAlone(name, Some(other), t, vars, date, depth);
  }

  lemma AloneIs(name: string, fallback: Option<string>, vars: Vars)
    requires RefName(name, fallback)
    ensures var doc := Ref(name, fallback, End);
      && Print(doc) == OPEN + RefExpr(name, fallback) + CLOSE && WellFormed(doc) && IfDepth(doc) == 0
      && !NestedRef(doc) && Denote(doc, vars) == Lookup(name, fallback, vars)
  {
    EndIs(Ref(name, fallback, End).rest, vars);
  }

  lemma ReferenceAlone(
    name: string, fallback: Option<string>, t: string, vars: Vars, date: DateFormatter, depth: nat)
    requires RefName(name, fallback) && t == OPEN + RefExpr(name, fallback) + CLOSE && '\\' !in t && depth < 16
    ensures Render(t, vars, date, depth) == Ok(Lookup(name, fallback, vars))
  {
    AloneIs(name, fallback, vars);
    NoSlash(t);
    UnnestedHolds(t, Ref(name, fallback, End), vars, date, depth);
  }

  // ---- Dates ----

  /** What a date reference renders to. */
  function Dated(format: string, date: DateFormatter): Rendered {
    match date(format)
    case None => Err(BadDate(format))
    case Some(text) => Ok(text)
  }

  lemma NoBlock(s: string)
    requires forall i: nat :: !At(s, IF_OPEN, i)
    ensures FirstBlock(s, 0).None?
  {
    FindFirst(s, IF_OPEN, 0);
  }

  lemma OneReference(x: string, t: string, vars: Vars, date: DateFormatter, depth: nat)
    requires NoBraces(x) && Plain(x) && '\\' !in x && t == OPEN + x + CLOSE && depth < 16
    ensures Render(t, vars, date, depth) == Value(x, vars, date)
  {
    NoSlash(t);
    OneQuiet(x, t);
    NothingToReplace(t, vars, date, depth);
    ExpandOne(x, t, vars, date);
  }

  lemma OneQuiet(x: string, t: string)
    requires NoBraces(x) && Plain(x) && t == OPEN + x + CLOSE
    ensures FirstBlock(t, 0).None?
  {
    AtWhole(t);
    RefQuiet(t, x, 0, |t|);
    assert forall i: nat :: i >= |t| ==> !At(t, IF_OPEN, i);
    NoBlock(t);
  }

  lemma NothingToReplace(t: string, vars: Vars, date: DateFormatter, depth: nat)
    requires Unescape(t) == t && FirstBlock(t, 0).None? && depth < 16
    ensures Render(t, vars, date, depth) == Expand(Pieces(t, 0), vars, date)
  {
    assert t[0..] == t;
  }

  lemma ExpandOne(x: string, t: string, vars: Vars, date: DateFormatter)
    requires NoBraces(x) && Plain(x) && t == OPEN + x + CLOSE
    ensures Expand(Pieces(t, 0), vars, date) == Value(x, vars, date)
  {
    AtWhole(t);
    RefSpan(t, x, 0, 2, 2 + |x|);
    PiecesStep(t, 0, Span(0, 2 + |x|));
    assert t[0..0] == "" && |t| == 4 + |x|;
    ExpandPair("", x, Pieces(t, |t|), vars, date);
    ExpandEnd(t, vars, date);
    var v := Value(x, vars, date);
    assert v.Ok? ==> "" + v.value + "" == v.value;
  }

  /** `{{date}}` is the clock in the default format. */
  lemma DateText(t: string, vars: Vars, date: DateFormatter, depth: nat)
    requires t == "{{date}}" && depth < 16
    ensures Render(t, vars, date, depth) == Dated("%Y-%m-%d %H:%M:%S", date)
  {
    var x := "date";
    DateValue("", vars, date);
    OneReference(x, t, vars, date, depth);
  }

  /** `{{date:format}}` is the clock in that format; one the formatter cannot take is an error that names it. */
  lemma FormatText(t: string, format: string, vars: Vars, date: DateFormatter, depth: nat)
    requires NoBraces(format) && '\\' !in t && t == "{{date:" + format + "}}" && depth < 16
    ensures Render(t, vars, date, depth) == Dated(format, date)
  {
    var x := "date:" + format;
    assert t == OPEN + x + CLOSE;
    DateValue(format, vars, date);
    OneReference(x, t, vars, date, depth);
  }

  lemma DateValue(format: string, vars: Vars, date: DateFormatter)
    ensures Value("date", vars, date) == Dated("%Y-%m-%d %H:%M:%S", date)
    ensures Value("date:" + format, vars, date) == Dated(format, date)
  {
    assert !("date:" <= "date") by {
      assert |"date:"| == 5 && |"date"| == 4;
    }
    assert ("date:" + format)[5..] == format && "date:" <= "date:" + format;
  }

  // ---- What is left alone ----

  /** No reference can be cut out of `s` from `from` on: the first braces are a directive's, or are not closed. */
  ghost predicate Stray(s: string, from: nat, start: nat) {
    && from <= start <= |s| && At(s, "{{", start) && (forall i: nat :: from <= i < start ==> !At(s, "{{", i))
    && (At(s, "{{#", start) || At(s, "{{/", start) || forall i: nat :: start + 2 <= i ==> !At(s, "}}", i))
  }

  /** From a stray directive or unclosed braces on, everything is copied. */
  lemma StrayCopied(s: string, from: nat, start: nat, vars: Vars, date: DateFormatter)
    requires Stray(s, from, start)
    ensures Expand(Pieces(s, from), vars, date) == Ok(s[from..])
  {
    FindIs(s, OPEN, from, start);
    FindFirst(s, CLOSE, start + 2);
    assert NextReference(s, from).None?;
    ExpandLiteral(s[from..], vars, date);
  }

  /** A conditional that is never closed is left as it was written, and all that follows it. */
  lemma UnmatchedLeftAlone(text: string, rest: string, vars: Vars, date: DateFormatter, depth: nat)
    requires depth < 16 && Calm(text) && NoEscape(text + "{{#if " + rest)
    requires forall i: nat :: !At(text + "{{#if " + rest, IF_CLOSE, i)
    ensures Render(text + "{{#if " + rest, vars, date, depth) == Ok(text + "{{#if " + rest)
  {
    var s, k := text + "{{#if " + rest, |text|;
    UnescapeFixed(s);
    AtIs(s, text, 0);
    AtIs(s, "{{#if ", k);
    AtIs(s, "{{#", k);
    AtIs(s, "{{", k);
    assert s[0..k] == text && s[k..k + 6] == "{{#if " && s[k..k + 3] == "{{#" && s[k..k + 2] == "{{";
    CalmInside(s, text, 0, "{{");
    NeverClosed(s);
    NothingToReplace(s, vars, date, depth);
    StrayCopied(s, 0, k, vars, date);
    assert s[0..] == s;
  }

  lemma NeverClosed(s: string)
    requires forall i: nat :: !At(s, IF_CLOSE, i)
    ensures FirstBlock(s, 0).None?
  {
    var b := FirstBlock(s, 0);
    if b.Some? {
      BlockBalanced(s, 0, b.value);
    }
  }

  // ---- The limit ----

  /** With calm values a printed tree fails with the recursion limit just when 16 taken conditionals are nested. */
  lemma LimitSixteen(t: string, doc: Doc, vars: Vars, date: DateFormatter, depth: nat, total: nat)
    requires WellFormed(doc) && Unescape(t) == Print(doc) && forall name :: name in vars ==> Calm(vars[name])
    requires total == depth + TakenDepth(doc, vars)
    ensures Render(t, vars, date, depth) == if total >= 16 then Err(RecursionLimit) else Ok(Denote(doc, vars))
  {
    CalmValues(doc, vars);
    RenderMeaning(t, doc, vars, date, depth, total);
  }
}
