/**
 What the escapes of a template stand for. Three replacements over the whole text, one after
 another, decode it as one pass from left to right would.
 */
module TemplateEscapes {
  import opened Common
  import opened Template
  import opened TemplateTheorems
  import opened TemplateTrees

  /** `s` starts with these characters. */
  predicate Starts(s: string, p: string) {
    |p| <= |s| && s[..|p|] == p
  }

  /** One pass: `\r\n`, `\n` and `\t` become the characters they name, everything else stays. */
  function Decode(s: string): string {
    if s == "" then ""
    else if Starts(s, "\\r\\n") then ['\U{0D}', '\U{0A}'] + Decode(s[4..])
    else if Starts(s, "\\n") then ['\U{0A}'] + Decode(s[2..])
    else if Starts(s, "\\t") then ['\U{09}'] + Decode(s[2..])
    else [s[0]] + Decode(s[1..])
  }

  lemma StartsChar(s: string, p: string, k: nat)
    requires k < |p|
    ensures Starts(s, p) ==> s[k] == p[k]
  {
    assert Starts(s, p) ==> s[..|p|][k] == s[k];
  }

  // ---- One replacement ----

  lemma ReplaceHere(s: string, p: string, to: string)
    requires p != "" && Starts(s, p)
    ensures ReplaceAll(s, p, to) == to + ReplaceAll(s[|p|..], p, to)
  {
    assert p <= s;
  }

  lemma ReplacePast(c: char, rest: string, p: string, to: string)
    requires p != "" && !Starts([c] + rest, p)
    ensures ReplaceAll([c] + rest, p, to) == [c] + ReplaceAll(rest, p, to)
  {
    var s := [c] + rest;
    assert s[1..] == rest;
    assert p <= s <==> Starts(s, p);
  }

  /** The first character is the old one or the first of the replacement. */
  lemma ReplaceFirst(s: string, p: string, to: string)
    requires p != "" && to != "" && s != ""
    ensures ReplaceAll(s, p, to) != "" && ReplaceAll(s, p, to)[0] in [s[0], to[0]]
  {
  }

  /** A character that no pattern starts with is passed over by all three replacements. */
  lemma PassPlain(c: char, rest: string, p: string, to: string)
    requires p != "" && p[0] == '\\' && c != '\\'
    ensures ReplaceAll([c] + rest, p, to) == [c] + ReplaceAll(rest, p, to)
  {
    StartsChar([c] + rest, p, 0);
    ReplacePast(c, rest, p, to);
  }

  /** A backslash is passed over when the character after it does not make an escape with it. */
  lemma PassSlash(rest: string, b: char, to: string)
    requires rest == "" || rest[0] != b
    ensures ReplaceAll("\\" + rest, ['\\', b], to) == "\\" + ReplaceAll(rest, ['\\', b], to)
  {
    var s := "\\" + rest;
    StartsChar(s, ['\\', b], 1);
    assert s == ['\\'] + rest;
    ReplacePast('\\', rest, ['\\', b], to);
  }

  // ---- All three ----

  function First(t: string): string { ReplaceAll(t, "\\r\\n", "\r\n") }

  function Second(t: string): string { ReplaceAll(t, "\\n", "\n") }

  function Third(t: string): string { ReplaceAll(t, "\\t", "\t") }

  lemma UnescapeIs(t: string)
    ensures Unescape(t) == Third(Second(First(t)))
  {
  }

  lemma OverPlain(c: char, rest: string)
    requires c != '\\'
    ensures First([c] + rest) == [c] + First(rest)
    ensures Second([c] + rest) == [c] + Second(rest) && Third([c] + rest) == [c] + Third(rest)
  {
    PassPlain(c, rest, "\\r\\n", "\r\n");
    PassPlain(c, rest, "\\n", "\n");
    PassPlain(c, rest, "\\t", "\t");
  }

  lemma UnescapePlain(c: char, rest: string)
    requires c != '\\'
    ensures Unescape([c] + rest) == [c] + Unescape(rest)
  {
    OverPlain(c, rest);
    OverPlain(c, First(rest));
    OverPlain(c, Second(First(rest)));
  }

  lemma UnescapeCrLf(rest: string)
    ensures Unescape("\\r\\n" + rest) == ['\U{0D}', '\U{0A}'] + Unescape(rest)
  {
    var s := "\\r\\n" + rest;
    assert s[..4] == "\\r\\n" && s[4..] == rest;
    ReplaceHere(s, "\\r\\n", "\r\n");
    var a := First(rest);
    assert "\r\n" + a == ['\U{0D}'] + (['\U{0A}'] + a);
    OverPlain('\U{0A}', a);
    OverPlain('\U{0D}', ['\U{0A}'] + a);
    var b := Second(a);
    OverPlain('\U{0A}', b);
    OverPlain('\U{0D}', ['\U{0A}'] + b);
    assert ['\U{0D}'] + (['\U{0A}'] + Third(b)) == ['\U{0D}', '\U{0A}'] + Third(b);
  }

  /** `\n` and `\t` do not start a `\r\n`. */
  lemma FirstOverPair(b: char, rest: string)
    requires b != 'r' && b != '\\'
    ensures First(['\\', b] + rest) == ['\\', b] + First(rest)
  {
    var s := ['\\', b] + rest;
    assert s == ['\\'] + ([b] + rest);
    StartsChar(s, "\\r\\n", 1);
    ReplacePast('\\', [b] + rest, "\\r\\n", "\r\n");
    OverPlain(b, rest);
    assert ['\\'] + ([b] + First(rest)) == ['\\', b] + First(rest);
  }

  lemma UnescapeLf(rest: string)
    ensures Unescape("\\n" + rest) == ['\U{0A}'] + Unescape(rest)
  {
    FirstOverPair('n', rest);
    var a := First(rest);
    var s := "\\n" + a;
    assert s[..2] == "\\n" && s[2..] == a && ['\\', 'n'] + a == s && ['\\', 'n'] + rest == "\\n" + rest;
    ReplaceHere(s, "\\n", "\n");
    OverPlain('\U{0A}', Second(a));
  }

  lemma UnescapeTab(rest: string)
    ensures Unescape("\\t" + rest) == ['\U{09}'] + Unescape(rest)
  {
    FirstOverPair('t', rest);
    var a := First(rest);
    assert ['\\', 't'] + a == "\\" + (['t'] + a) && ['\\', 't'] + rest == "\\t" + rest && "\\n" == ['\\', 'n'];
    PassSlash(['t'] + a, 'n', "\n");
    OverPlain('t', a);
    var b := Second(a);
    var s := "\\" + (['t'] + b);
    assert s == "\\t" + b && s[..2] == "\\t" && s[2..] == b;
    ReplaceHere(s, "\\t", "\t");
  }

  /** A backslash that starts no escape stays. */
  lemma UnescapeSlash(rest: string)
    requires rest == "" || (rest[0] != 'n' && rest[0] != 't')
    requires !Starts("\\" + rest, "\\r\\n")
    ensures Unescape("\\" + rest) == "\\" + Unescape(rest)
  {
    assert "\\" + rest == ['\\'] + rest && "\\n" == ['\\', 'n'] && "\\t" == ['\\', 't'];
    ReplacePast('\\', rest, "\\r\\n", "\r\n");
    var a := First(rest);
    if rest != "" {
      ReplaceFirst(rest, "\\r\\n", "\r\n");
    }
    PassSlash(a, 'n', "\n");
    var b := Second(a);
    if a != "" {
      ReplaceFirst(a, "\\n", "\n");
    }
    PassSlash(b, 't', "\t");
  }

  /** Unescaping decodes every text from left to right. */
  lemma {:induction false} UnescapeExact(t: string)
    ensures Unescape(t) == Decode(t)
  {
    if t == "" {
    } else if Starts(t, "\\r\\n") {
      UnescapeExact(t[4..]);
      UnescapeCrLf(t[4..]);
      assert t == "\\r\\n" + t[4..];
    } else if Starts(t, "\\n") {
      UnescapeExact(t[2..]);
      UnescapeLf(t[2..]);
      assert t == "\\n" + t[2..];
    } else if Starts(t, "\\t") {
      UnescapeExact(t[2..]);
      UnescapeTab(t[2..]);
      assert t == "\\t" + t[2..];
    } else {
      UnescapeExact(t[1..]);
      UnescapeOther(t);
    }
  }

  lemma UnescapeOther(t: string)
    requires t != "" && !Starts(t, "\\r\\n") && !Starts(t, "\\n") && !Starts(t, "\\t")
    ensures Unescape(t) == [t[0]] + Unescape(t[1..])
  {
    assert t == [t[0]] + t[1..];
    if t[0] == '\\' {
      if |t| > 1 {
        assert t[..2] == ['\\', t[1]] && "\\n" == ['\\', 'n'] && "\\t" == ['\\', 't'];
      }
      assert t == "\\" + t[1..];
      UnescapeSlash(t[1..]);
    } else {
      UnescapePlain(t[0], t[1..]);
    }
  }

  // ---- Templates written with escapes ----

  /** How a stretch of text is written: as it is, or as an escape. */
  datatype Spelled = Raw(text: string) | CrLf | Lf | Tab

  function Written(x: Spelled): string {
    match x
    case Raw(text) => text
    case CrLf => "\\r\\n"
    case Lf => "\\n"
    case Tab => "\\t"
  }

  function Meant(x: Spelled): string {
    match x
    case Raw(text) => text
    case CrLf => ['\U{0D}', '\U{0A}']
    case Lf => ['\U{0A}']
    case Tab => ['\U{09}']
  }

  function WrittenAll(xs: seq<Spelled>): string {
    if xs == [] then "" else Written(xs[0]) + WrittenAll(xs[1..])
  }

  function MeantAll(xs: seq<Spelled>): string {
    if xs == [] then "" else Meant(xs[0]) + MeantAll(xs[1..])
  }

  predicate Sound(xs: seq<Spelled>) {
    forall i :: 0 <= i < |xs| && xs[i].Raw? ==> '\\' !in xs[i].text
  }

  lemma {:induction false} UnescapeRaw(text: string, rest: string)
    requires '\\' !in text
    ensures Unescape(text + rest) == text + Unescape(rest)
  {
    if text == "" {
      assert text + rest == rest;
    } else {
      var c, after := text[0], text[1..];
      UnescapeRaw(after, rest);
      UnescapePlain(c, after + rest);
      PrependChar(c, after, text, rest, Unescape(rest));
    }
  }

  lemma PrependChar(c: char, after: string, text: string, x: string, y: string)
    requires text == [c] + after
    ensures text + x == [c] + (after + x) && text + y == [c] + (after + y)
  {
  }

  lemma UnescapeOne(x: Spelled, rest: string)
    requires x.Raw? ==> '\\' !in x.text
    ensures Unescape(Written(x) + rest) == Meant(x) + Unescape(rest)
  {
    match x
    case Raw(text) => UnescapeRaw(text, rest);
    case CrLf => UnescapeCrLf(rest);
    case Lf => UnescapeLf(rest);
    case Tab => UnescapeTab(rest);
  }

  /** A text written with escapes is unescaped to what it stands for. */
  lemma {:induction false} UnescapeSpelled(xs: seq<Spelled>)
    requires Sound(xs)
    ensures Unescape(WrittenAll(xs)) == MeantAll(xs)
  {
    if xs != [] {
      UnescapeSpelled(xs[1..]);
      UnescapeOne(xs[0], WrittenAll(xs[1..]));
    }
  }

  /** However a printed tree is written with escapes, it renders to the meaning of the tree. */
  lemma RenderSpelled(xs: seq<Spelled>, doc: Doc, vars: Vars, date: DateFormatter, depth: nat, total: nat)
    requires Sound(xs) && WellFormed(doc) && MeantAll(xs) == Print(doc) && BodiesClean(doc, vars)
    requires total == depth + TakenDepth(doc, vars)
    ensures Render(WrittenAll(xs), vars, date, depth) == Bounded(total, Denote(doc, vars))
  {
    UnescapeSpelled(xs);
    RenderMeaning(WrittenAll(xs), doc, vars, date, depth, total);
  }
}
