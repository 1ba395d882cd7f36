/**
 Command lines as people write them: words of unquoted, single-quoted and double-quoted parts,
 with whitespace around them. Splitting a written line gives its words, a line that breaks off
 inside a quote or holds a control character is refused, and there are no other lines.
 */
module CommandGrammar {
  import opened Common
  import opened CommandWords

  /** What stands between double quotes: a character, an escaped one, or a backslash that escapes nothing. */
  datatype Unit = Lit(c: char) | Esc(c: char) | Slash

  /** A stretch of a word. */
  datatype Part = Bare(text: string) | Single(text: string) | Double(units: seq<Unit>)

  /** By code point: tab, line feed, form feed, carriage return, space. */
  predicate Blank(c: char) {
    (c as int) in {9, 10, 12, 13, 32}
  }

  predicate Control(c: char) {
    (c as int) < 32 || 127 <= (c as int) <= 159
  }

  /** What may stand outside quotes and is no separator. */
  predicate Ordinary(c: char) {
    c != '"' && c != '\'' && !Blank(c) && !Control(c)
  }

  predicate NoControl(s: string) {
    forall i :: 0 <= i < |s| ==> !Control(s[i])
  }

  predicate Fine(part: Part) {
    match part
    case Bare(text) => text != "" && forall i :: 0 <= i < |text| ==> Ordinary(text[i])
    case Single(text) => '\'' !in text && NoControl(text)
    case Double(units) => FineUnits(units) && (units == [] || !units[|units| - 1].Slash?)
  }

  /** A backslash that escapes nothing is followed by a plain character, or by nothing. */
  predicate FineUnit(units: seq<Unit>, i: nat)
    requires i < |units|
  {
    match units[i]
    case Lit(c) => c != '"' && c != '\\' && !Control(c)
    case Esc(c) => c == '"' || c == '\\'
    case Slash => i + 1 < |units| ==> units[i + 1].Lit?
  }

  predicate FineUnits(units: seq<Unit>) {
    forall i :: 0 <= i < |units| ==> FineUnit(units, i)
  }

  function SpellUnits(units: seq<Unit>): string {
    if units == [] then ""
    else
      (match units[0]
       case Lit(c) => [c]
       case Esc(c) => ['\\', c]
       case Slash => "\\") + SpellUnits(units[1..])
  }

  function TextOf(units: seq<Unit>): string {
    if units == [] then ""
    else [if units[0].Slash? then '\\' else units[0].c] + TextOf(units[1..])
  }

  function ValueOf(part: Part): string {
    if part.Double? then TextOf(part.units) else part.text
  }

  function Spell(part: Part): string {
    match part
    case Bare(text) => text
    case Single(text) => "'" + text + "'"
    case Double(units) => "\"" + SpellUnits(units) + "\""
  }

  function SpellWord(parts: seq<Part>): string {
    if parts == [] then "" else Spell(parts[0]) + SpellWord(parts[1..])
  }

  function WordOf(parts: seq<Part>): string {
    if parts == [] then "" else ValueOf(parts[0]) + WordOf(parts[1..])
  }

  predicate FineWord(parts: seq<Part>) {
    parts != [] && forall i :: 0 <= i < |parts| ==> Fine(parts[i])
  }

  predicate AllBlank(s: string) {
    forall i :: 0 <= i < |s| ==> Blank(s[i])
  }

  /** A word and the whitespace after it. */
  datatype Item = Item(parts: seq<Part>, gap: string)

  function Line(items: seq<Item>): string {
    if items == [] then "" else SpellWord(items[0].parts) + (items[0].gap + Line(items[1..]))
  }

  function WordsOf(items: seq<Item>): (r: seq<string>)
    ensures |r| == |items|
  {
    if items == [] then [] else [WordOf(items[0].parts)] + WordsOf(items[1..])
  }

  predicate FineItem(items: seq<Item>, i: nat)
    requires i < |items|
  {
    FineWord(items[i].parts) && AllBlank(items[i].gap) && (i + 1 < |items| ==> items[i].gap != "")
  }

  /** Only the last word may have nothing after it. */
  predicate FineLine(items: seq<Item>) {
    forall i :: 0 <= i < |items| ==> FineItem(items, i)
  }

  // ---- Characters ----

  lemma Classes(c: char)
    ensures IsAsciiWhitespace(c) <==> Blank(c)
    ensures IsControl(c) <==> Control(c)
    ensures IsQuote(c) <==> c == '"' || c == '\''
  {
  }

  lemma Regroup(a: string, b: string, c: string)
    ensures a + b + c == a + (b + c)
  {
  }

  lemma RegroupFour(a: string, b: string, c: string, d: string)
    ensures a + (b + (c + d)) == a + (b + c) + d
  {
  }

  // ---- Parts ----

  lemma {:induction false} ScanBare(l: Lexer, text: string, rest: string)
    requires l.quote.None? && forall i :: 0 <= i < |text| ==> Ordinary(text[i])
    ensures Scan(l, text + rest)
         == Scan(if text == "" then l else l.(current := l.current + text, started := true), rest)
    decreases |text|
  {
    if text == "" {
      assert text + rest == rest;
    } else {
      var c, s := text[0], text + rest;
      Classes(c);
      assert s[0] == c && s[1..] == text[1..] + rest;
      ScanBare(l.Push(c), text[1..], rest);
      assert l.current + [c] + text[1..] == l.current + text;
      assert text[1..] == "" ==> l.current + [c] == l.current + text;
    }
  }

  /** Inside single quotes everything but the quote is taken as it is. */
  lemma {:induction false} ScanInSingle(l: Lexer, text: string, rest: string)
    requires l.quote == Some('\'') && l.started && '\'' !in text && NoControl(text)
    ensures Scan(l, text + rest) == Scan(l.(current := l.current + text), rest)
    decreases |text|
  {
    if text == "" {
      assert text + rest == rest && l.current + text == l.current;
    } else {
      var c, s := text[0], text + rest;
      Classes(c);
      assert s[0] == c && s[1..] == text[1..] + rest && c in text;
      ScanInSingle(l.Push(c), text[1..], rest);
      assert l.current + [c] + text[1..] == l.current + text;
    }
  }

  /** After a backslash that escapes nothing comes no quote and no other backslash. */
  predicate Follows(units: seq<Unit>, rest: string) {
    units != [] && units[|units| - 1].Slash? ==> rest == "" || (rest[0] != '"' && rest[0] != '\\')
  }

  lemma ScanLit(l: Lexer, c: char, rest: string)
    requires l.quote == Some('"') && c != '"' && c != '\\' && !Control(c)
    ensures Scan(l, [c] + rest) == Scan(l.Push(c), rest)
  {
    var s := [c] + rest;
    Classes(c);
    assert s[0] == c && s[1..] == rest;
  }

  lemma ScanEscape(l: Lexer, c: char, rest: string)
    requires l.quote == Some('"') && (c == '"' || c == '\\')
    ensures Scan(l, ['\\', c] + rest) == Scan(l.Push(c), rest)
  {
    var s := ['\\', c] + rest;
    assert s[0] == '\\' && s[1] == c && s[2..] == rest;
  }

  lemma ScanSlash(l: Lexer, rest: string)
    requires l.quote == Some('"') && (rest == "" || (rest[0] != '"' && rest[0] != '\\'))
    ensures Scan(l, "\\" + rest) == Scan(l.Push('\\'), rest)
  {
    var s := "\\" + rest;
    assert s[0] == '\\' && s[1..] == rest;
  }

  lemma ScanUnit(l: Lexer, unit: Unit, rest: string)
    requires l.quote == Some('"')
    requires unit.Lit? ==> unit.c != '"' && unit.c != '\\' && !Control(unit.c)
    requires unit.Esc? ==> unit.c == '"' || unit.c == '\\'
    requires unit.Slash? ==> rest == "" || (rest[0] != '"' && rest[0] != '\\')
    ensures Scan(l, SpellUnits([unit]) + rest) == Scan(l.Push(if unit.Slash? then '\\' else unit.c), rest)
  {
    OneUnit(unit);
    match unit
    case Lit(c) => ScanLit(l, c, rest);
    case Esc(c) => ScanEscape(l, c, rest);
    case Slash => ScanSlash(l, rest);
  }

  lemma OneUnit(unit: Unit)
    ensures SpellUnits([unit]) == match unit case Lit(c) => [c] case Esc(c) => ['\\', c] case Slash => "\\"
  {
    assert [unit][1..] == [];
  }

  lemma FirstUnit(units: seq<Unit>, rest: string)
    requires units != []
    ensures SpellUnits(units) + rest == SpellUnits([units[0]]) + (SpellUnits(units[1..]) + rest)
  {
    assert [units[0]][1..] == [];
  }

  lemma RestFollows(units: seq<Unit>, rest: string)
    requires FineUnits(units) && Follows(units, rest) && units != []
    ensures FineUnits(units[1..]) && Follows(units[1..], rest)
    ensures units[0].Slash? ==> var s := SpellUnits(units[1..]) + rest; s == "" || (s[0] != '"' && s[0] != '\\')
  {
    assert FineUnit(units, 0);
    forall i | 0 <= i < |units| - 1
      ensures FineUnit(units[1..], i)
    {
      assert FineUnit(units, i + 1);
    }
    var after := units[1..];
    if after != [] {
      assert after[|after| - 1] == units[|units| - 1];
      assert FineUnit(after, 0) && (units[0].Slash? ==> after[0].Lit?);
      assert after[0].Lit? ==> SpellUnits(after) == [after[0].c] + SpellUnits(after[1..]);
    }
  }

  /** Between double quotes the units are read one by one. */
  lemma {:induction false} ScanUnits(l: Lexer, units: seq<Unit>, rest: string)
    requires l.quote == Some('"') && l.started && FineUnits(units) && Follows(units, rest)
    ensures Scan(l, SpellUnits(units) + rest) == Scan(l.(current := l.current + TextOf(units)), rest)
    decreases |units|
  {
    if units == [] {
      assert SpellUnits(units) + rest == rest && l.current + TextOf(units) == l.current;
    } else {
      var c, after := if units[0].Slash? then '\\' else units[0].c, units[1..];
      assert FineUnit(units, 0);
      FirstUnit(units, rest);
      RestFollows(units, rest);
      ScanUnit(l, units[0], SpellUnits(after) + rest);
      ScanUnits(l.Push(c), after, rest);
      Regroup(l.current, [c], TextOf(after));
    }
  }

  lemma ScanOpen(l: Lexer, q: char, rest: string)
    requires l.quote.None? && IsQuote(q)
    ensures Scan(l, [q] + rest) == Scan(l.(quote := Some(q), started := true), rest)
  {
    var s := [q] + rest;
    assert s[0] == q && s[1..] == rest;
  }

  lemma ScanSingle(l: Lexer, text: string, rest: string)
    requires l.quote.None? && '\'' !in text && NoControl(text)
    ensures Scan(l, "'" + text + "'" + rest) == Scan(l.(current := l.current + text, started := true), rest)
  {
    var inside := l.(quote := Some('\''), started := true);
    assert "'" + text + "'" + rest == ['\''] + (text + ("'" + rest));
    ScanOpen(l, '\'', text + ("'" + rest));
    ScanInSingle(inside, text, "'" + rest);
    var s := "'" + rest;
    assert s[0] == '\'' && s[1..] == rest;
  }

  lemma ScanDouble(l: Lexer, units: seq<Unit>, rest: string)
    requires l.quote.None? && FineUnits(units) && (units == [] || !units[|units| - 1].Slash?)
    ensures Scan(l, "\"" + SpellUnits(units) + "\"" + rest)
         == Scan(l.(current := l.current + TextOf(units), started := true), rest)
  {
    var inside := l.(quote := Some('"'), started := true);
    assert "\"" + SpellUnits(units) + "\"" + rest == ['"'] + (SpellUnits(units) + ("\"" + rest));
    ScanOpen(l, '"', SpellUnits(units) + ("\"" + rest));
    ScanUnits(inside, units, "\"" + rest);
    var s := "\"" + rest;
    assert s[0] == '"' && s[1..] == rest;
  }

  lemma ScanPart(l: Lexer, part: Part, rest: string)
    requires l.quote.None? && Fine(part)
    ensures Scan(l, Spell(part) + rest) == Scan(l.(current := l.current + ValueOf(part), started := true), rest)
  {
    match part
    case Bare(text) => ScanBare(l, text, rest);
    case Single(text) => ScanSingle(l, text, rest);
    case Double(units) => ScanDouble(l, units, rest);
  }

  // ---- Words and gaps ----

  lemma {:induction false} ScanParts(l: Lexer, parts: seq<Part>, rest: string)
    requires l.quote.None? && (forall i :: 0 <= i < |parts| ==> Fine(parts[i])) && (l.started || parts != [])
    ensures Scan(l, SpellWord(parts) + rest) == Scan(l.(current := l.current + WordOf(parts), started := true), rest)
    decreases |parts|
  {
    if parts == [] {
      assert SpellWord(parts) + rest == rest && l.current + WordOf(parts) == l.current;
    } else {
      var part, after := parts[0], SpellWord(parts[1..]);
      var next := l.(current := l.current + ValueOf(part), started := true);
      Regroup(Spell(part), after, rest);
      Regroup(l.current, ValueOf(part), WordOf(parts[1..]));
      ScanPart(l, part, after + rest);
      ScanParts(next, parts[1..], rest);
    }
  }

  lemma ScanBlank(l: Lexer, c: char, rest: string)
    requires l.quote.None? && Blank(c)
    ensures Scan(l, [c] + rest) == Scan(l.Flush(), rest)
  {
    var s := [c] + rest;
    Classes(c);
    assert s[0] == c && s[1..] == rest;
  }

  lemma {:induction false} ScanGap(l: Lexer, gap: string, rest: string)
    requires l.quote.None? && AllBlank(gap)
    ensures Scan(l, gap + rest) == Scan(if gap == "" then l else l.Flush(), rest)
    decreases |gap|
  {
    if gap == "" {
      assert gap + rest == rest;
    } else {
      assert gap + rest == [gap[0]] + (gap[1..] + rest);
      ScanBlank(l, gap[0], gap[1..] + rest);
      ScanGap(l.Flush(), gap[1..], rest);
    }
  }

  /** Where the splitter is after a line. */
  function After(words: seq<string>, items: seq<Item>): Lexer {
    if items == [] then Lexer(words, "", None, false)
    else
      var all, last := WordsOf(items), items[|items| - 1];
      if last.gap == "" then Lexer(words + all[..|all| - 1], all[|all| - 1], None, true)
      else Lexer(words + all, "", None, false)
  }

  lemma AfterStep(words: seq<string>, items: seq<Item>)
    requires items != [] && (|items| > 1 ==> items[0].gap != "")
    ensures After(words, items)
         == if |items| == 1 && items[0].gap == "" then Lexer(words, WordOf(items[0].parts), None, true)
            else After(words + [WordOf(items[0].parts)], items[1..])
  {
    var w, rest := WordOf(items[0].parts), items[1..];
    assert WordsOf(items) == [w] + WordsOf(rest);
    assert |items| == 1 ==> WordsOf(rest) == [] && words + [w] + [] == words + [w];
    if rest != [] {
      assert rest[|rest| - 1] == items[|items| - 1];
      var all := WordsOf(rest);
      assert words + ([w] + all) == words + [w] + all;
      assert ([w] + all)[..|all|] == [w] + all[..|all| - 1];
      assert words + ([w] + all[..|all| - 1]) == words + [w] + all[..|all| - 1];
    }
  }

  lemma ScanItem(words: seq<string>, item: Item, more: string)
    requires FineWord(item.parts) && AllBlank(item.gap)
    ensures Scan(Lexer(words, "", None, false), SpellWord(item.parts) + (item.gap + more))
         == Scan(if item.gap == "" then Lexer(words, WordOf(item.parts), None, true)
                 else Lexer(words + [WordOf(item.parts)], "", None, false), more)
  {
    ScanParts(Lexer(words, "", None, false), item.parts, item.gap + more);
    assert "" + WordOf(item.parts) == WordOf(item.parts);
    ScanGap(Lexer(words, WordOf(item.parts), None, true), item.gap, more);
  }

  lemma RestFine(items: seq<Item>)
    requires FineLine(items) && items != []
    ensures FineItem(items, 0) && FineLine(items[1..])
  {
    forall i | 0 <= i < |items| - 1
      ensures FineItem(items[1..], i)
    {
      assert FineItem(items, i + 1);
    }
  }

  /** A line stays fine when its last word is replaced or a word is put after a gap. */
  lemma FineSnoc(init: seq<Item>, item: Item)
    requires (forall i :: 0 <= i < |init| ==> FineItem(init, i) && init[i].gap != "")
    requires FineWord(item.parts) && AllBlank(item.gap)
    ensures FineLine(init + [item])
  {
    forall i | 0 <= i < |init + [item]|
      ensures FineItem(init + [item], i)
    {
      assert i < |init| ==> FineItem(init, i);
    }
  }

  lemma FineInit(items: seq<Item>)
    requires FineLine(items) && items != []
    ensures var init := items[..|items| - 1]; forall i :: 0 <= i < |init| ==> FineItem(init, i) && init[i].gap != ""
    ensures FineItem(items, |items| - 1)
  {
    forall i | 0 <= i < |items| - 1
      ensures FineItem(items[..|items| - 1], i) && items[i].gap != ""
    {
      assert FineItem(items, i);
    }
  }

  lemma {:induction false} ScanLine(words: seq<string>, items: seq<Item>, rest: string)
    requires FineLine(items)
    ensures Scan(Lexer(words, "", None, false), Line(items) + rest) == Scan(After(words, items), rest)
    decreases |items|
  {
    var l := Lexer(words, "", None, false);
    if items == [] {
      assert Line(items) + rest == rest;
    } else {
      var item, more := items[0], Line(items[1..]) + rest;
      RestFine(items);
      Regroup(SpellWord(item.parts), item.gap + Line(items[1..]), rest);
      Regroup(item.gap, Line(items[1..]), rest);
      ScanItem(words, item, more);
      AfterStep(words, items);
      if item.gap == "" {
        assert |items| == 1 && more == rest;
      } else {
        ScanLine(words + [WordOf(item.parts)], items[1..], rest);
      }
    }
  }

  lemma ScanLed(lead: string, items: seq<Item>, rest: string)
    requires AllBlank(lead) && FineLine(items)
    ensures Scan(START, lead + Line(items) + rest) == Scan(After([], items), rest)
  {
    var line := Line(items);
    Regroup(lead, line, rest);
    ScanGap(START, lead, line + rest);
    assert START.Flush() == START;
    ScanLine([], items, rest);
  }

  lemma LastBack(all: seq<string>)
    requires all != []
    ensures [] + all == all && [] + all[..|all| - 1] + [all[|all| - 1]] == all
  {
  }

  lemma FinishAfter(items: seq<Item>)
    ensures Finish(After([], items)) == Ok(WordsOf(items))
  {
    if items != [] {
      var all := WordsOf(items);
      LastBack(all);
    }
  }

  /** A written line is split into its words. */
  lemma WrittenLine(lead: string, items: seq<Item>)
    requires AllBlank(lead) && FineLine(items)
    ensures Scan(START, lead + Line(items)) == Ok(WordsOf(items))
  {
    assert lead + Line(items) + "" == lead + Line(items);
    ScanLed(lead, items, "");
    FinishAfter(items);
  }

  // ---- Lines that are refused ----

  lemma AfterUnquoted(items: seq<Item>)
    ensures After([], items).quote.None?
  {
  }

  /** How a line stops after its last word: it ends, it ends inside a quote, or a control character stands there. */
  datatype Ending =
    | Whole
    | InSingle(text: string)
    | InDouble(units: seq<Unit>)
    | BareControl(c: char, rest: string)
    | SingleControl(text: string, c: char, rest: string)
    | DoubleControl(units: seq<Unit>, c: char, rest: string)

  predicate FineEnding(e: Ending) {
    match e
    case Whole => true
    case InSingle(text) => '\'' !in text && NoControl(text)
    case InDouble(units) => FineUnits(units)
    case BareControl(c, _) => Control(c) && !Blank(c)
    case SingleControl(text, c, _) => '\'' !in text && NoControl(text) && Control(c)
    case DoubleControl(units, c, _) => FineUnits(units) && Control(c)
  }

  function Tail(e: Ending): string {
    match e
    case Whole => ""
    case InSingle(text) => ['\''] + (text + "")
    case InDouble(units) => ['"'] + (SpellUnits(units) + "")
    case BareControl(c, rest) => [c] + rest
    case SingleControl(text, c, rest) => ['\''] + (text + ([c] + rest))
    case DoubleControl(units, c, rest) => ['"'] + (SpellUnits(units) + ([c] + rest))
  }

  function Outcome(items: seq<Item>, e: Ending): Result<seq<string>, Error> {
    match e
    case Whole => Ok(WordsOf(items))
    case InSingle(_) => Err(Unterminated('\''))
    case InDouble(_) => Err(Unterminated('"'))
    case _ => Err(ControlCharacters)
  }

  lemma ScanControl(l: Lexer, c: char, rest: string)
    requires Control(c) && (l.quote.None? ==> !Blank(c))
    ensures Scan(l, [c] + rest) == Err(ControlCharacters)
  {
    var s := [c] + rest;
    Classes(c);
    assert s[0] == c;
  }

  lemma ScanTail(l: Lexer, e: Ending)
    requires l.quote.None? && FineEnding(e) && !e.Whole?
    ensures Scan(l, Tail(e)) == Outcome([], e)
  {
    var single, double := l.(quote := Some('\''), started := true), l.(quote := Some('"'), started := true);
    match e
    case InSingle(text) =>
      ScanOpen(l, '\'', text + "");
      ScanInSingle(single, text, "");
    case InDouble(units) =>
      ScanOpen(l, '"', SpellUnits(units) + "");
      ScanUnits(double, units, "");
    case BareControl(c, rest) => ScanControl(l, c, rest);
    case SingleControl(text, c, rest) =>
      ScanOpen(l, '\'', text + ([c] + rest));
      ScanInSingle(single, text, [c] + rest);
      ScanControl(single.(current := single.current + text), c, rest);
    case DoubleControl(units, c, rest) =>
      ScanOpen(l, '"', SpellUnits(units) + ([c] + rest));
      ScanUnits(double, units, [c] + rest);
      ScanControl(double.(current := double.current + TextOf(units)), c, rest);
  }

  /** What a command line comes to: its words, or the reason it is refused. */
  lemma LineOutcome(lead: string, items: seq<Item>, e: Ending)
    requires AllBlank(lead) && FineLine(items) && FineEnding(e)
    ensures Scan(START, lead + Line(items) + Tail(e)) == Outcome(items, e)
  {
    ScanLed(lead, items, Tail(e));
    if e.Whole? {
      FinishAfter(items);
    } else {
      AfterUnquoted(items);
      ScanTail(After([], items), e);
    }
  }

  // ---- Every command is such a line ----

  lemma {:induction false} LineSnoc(items: seq<Item>, item: Item)
    ensures Line(items + [item]) == Line(items) + (SpellWord(item.parts) + item.gap)
    decreases |items|
  {
    if items == [] {
      assert [item][1..] == [] && [] + [item] == [item];
      assert SpellWord(item.parts) + (item.gap + "") == "" + (SpellWord(item.parts) + item.gap);
    } else {
      LineSnoc(items[1..], item);
      assert (items + [item])[1..] == items[1..] + [item] && (items + [item])[0] == items[0];
      RegroupFour(SpellWord(items[0].parts), items[0].gap, Line(items[1..]), SpellWord(item.parts) + item.gap);
    }
  }

  lemma {:induction false} WordSnoc(parts: seq<Part>, part: Part)
    ensures SpellWord(parts + [part]) == SpellWord(parts) + Spell(part)
    decreases |parts|
  {
    if parts == [] {
      assert [] + [part] == [part] && [part][1..] == [];
      assert Spell(part) + "" == "" + Spell(part);
    } else {
      WordSnoc(parts[1..], part);
      assert (parts + [part])[1..] == parts[1..] + [part] && (parts + [part])[0] == parts[0];
      assert Spell(parts[0]) + (SpellWord(parts[1..]) + Spell(part)) == SpellWord(parts) + Spell(part);
    }
  }

  /** One more part, in the last word if nothing has ended that. */
  function AddPart(items: seq<Item>, part: Part): seq<Item> {
    if items == [] || items[|items| - 1].gap != "" then items + [Item([part], "")]
    else items[..|items| - 1] + [Item(items[|items| - 1].parts + [part], "")]
  }

  lemma AllGaps(items: seq<Item>)
    requires FineLine(items) && (items == [] || items[|items| - 1].gap != "")
    ensures forall i :: 0 <= i < |items| ==> FineItem(items, i) && items[i].gap != ""
  {
    forall i | 0 <= i < |items|
      ensures FineItem(items, i) && items[i].gap != ""
    {
      assert FineItem(items, i);
    }
  }

  lemma NewWord(items: seq<Item>, part: Part)
    ensures Line(items + [Item([part], "")]) == Line(items) + Spell(part)
  {
    LineSnoc(items, Item([part], ""));
    assert [part][1..] == [];
    assert Spell(part) + "" + "" == Spell(part);
  }

  lemma RegroupEmpty(a: string, b: string, c: string)
    ensures a + ((b + c) + "") == a + (b + "") + c
  {
  }

  lemma LongerWord(init: seq<Item>, last: Item, part: Part)
    requires last.gap == ""
    ensures Line(init + [Item(last.parts + [part], "")]) == Line(init + [last]) + Spell(part)
  {
    LineSnoc(init, last);
    LineSnoc(init, Item(last.parts + [part], ""));
    WordSnoc(last.parts, part);
    RegroupEmpty(Line(init), SpellWord(last.parts), Spell(part));
  }

  lemma AddPartIs(items: seq<Item>, part: Part)
    requires FineLine(items) && Fine(part)
    ensures FineLine(AddPart(items, part)) && Line(AddPart(items, part)) == Line(items) + Spell(part)
  {
    if items == [] || items[|items| - 1].gap != "" {
      NewWord(items, part);
      AllGaps(items);
      FineSnoc(items, Item([part], ""));
    } else {
      var init, last := items[..|items| - 1], items[|items| - 1];
      assert items == init + [last];
      LongerWord(init, last, part);
      FineInit(items);
      FineSnoc(init, Item(last.parts + [part], ""));
    }
  }

  /** One more blank after the last word. */
  function AddBlank(items: seq<Item>, c: char): seq<Item>
    requires items != []
  {
    items[..|items| - 1] + [Item(items[|items| - 1].parts, items[|items| - 1].gap + [c])]
  }

  lemma AddBlankIs(items: seq<Item>, c: char)
    requires FineLine(items) && items != [] && Blank(c)
    ensures FineLine(AddBlank(items, c)) && Line(AddBlank(items, c)) == Line(items) + [c]
  {
    var init, last := items[..|items| - 1], items[|items| - 1];
    assert items == init + [last];
    LineSnoc(init, last);
    LineSnoc(init, Item(last.parts, last.gap + [c]));
    RegroupFour(Line(init), SpellWord(last.parts), last.gap, [c]);
    FineInit(items);
    FineSnoc(init, Item(last.parts, last.gap + [c]));
  }

  /** The text up to the closing quote, the end or a control character. */
  lemma {:induction false} CutSingle(s: string) returns (text: string, rest: string)
    ensures s == text + rest && '\'' !in text && NoControl(text)
    ensures rest == "" || rest[0] == '\'' || Control(rest[0])
  {
    if s == "" || s[0] == '\'' || Control(s[0]) {
      text, rest := "", s;
    } else {
      var t, r := CutSingle(s[1..]);
      text, rest := [s[0]] + t, r;
    }
  }

  lemma UnitSpelled(unit: Unit, us: seq<Unit>)
    ensures SpellUnits([unit] + us) == (if unit.Esc? then ['\\', unit.c] else [if unit.Slash? then '\\' else unit.c])
                                       + SpellUnits(us)
  {
    assert ([unit] + us)[1..] == us;
  }

  lemma UnitsGrow(unit: Unit, us: seq<Unit>)
    requires FineUnits(us) && FineUnits([unit]) && (unit.Slash? && us != [] ==> us[0].Lit?)
    ensures FineUnits([unit] + us)
  {
    var all := [unit] + us;
    assert FineUnit([unit], 0);
    forall i | 0 <= i < |all|
      ensures FineUnit(all, i)
    {
      assert i > 0 ==> FineUnit(us, i - 1);
    }
  }

  lemma {:induction false} CutDouble(s: string) returns (units: seq<Unit>, rest: string)
    ensures s == SpellUnits(units) + rest && FineUnits(units)
    ensures rest == "" || rest[0] == '"' || Control(rest[0])
    ensures units != [] && units[|units| - 1].Slash? ==> rest == "" || rest[0] != '"'
    ensures s != "" && s[0] != '"' && s[0] != '\\' && !Control(s[0]) ==> units != [] && units[0].Lit?
    ensures s == "" || Control(s[0]) ==> units == []
    decreases |s|
  {
    if s == "" || s[0] == '"' || Control(s[0]) {
      units, rest := [], s;
    } else if s[0] == '\\' && |s| > 1 && (s[1] == '"' || s[1] == '\\') {
      var us, r := CutDouble(s[2..]);
      units, rest := [Esc(s[1])] + us, r;
      UnitsGrow(Esc(s[1]), us);
      UnitSpelled(Esc(s[1]), us);
      assert s == ['\\', s[1]] + s[2..];
      Regroup(['\\', s[1]], SpellUnits(us), rest);
    } else {
      var us, r := CutDouble(s[1..]);
      var unit := if s[0] == '\\' then Slash else Lit(s[0]);
      units, rest := [unit] + us, r;
      UnitsGrow(unit, us);
      UnitSpelled(unit, us);
      assert s == [s[0]] + s[1..];
      Regroup([s[0]], SpellUnits(us), rest);
    }
  }

  /** The rest of a command, after a line. */
  lemma {:induction false} CutRest(lead: string, items: seq<Item>, s: string)
    returns (lead': string, items': seq<Item>, e: Ending)
    requires AllBlank(lead) && FineLine(items)
    ensures AllBlank(lead') && FineLine(items') && FineEnding(e)
    ensures lead' + Line(items') + Tail(e) == lead + Line(items) + s
    decreases |s|, 2
  {
    if s == "" {
      lead', items', e := lead, items, Whole;
    } else if Blank(s[0]) {
      lead', items', e := CutBlank(lead, items, s);
    } else if Control(s[0]) {
      lead', items', e := lead, items, BareControl(s[0], s[1..]);
      assert s == [s[0]] + s[1..];
    } else if s[0] == '\'' {
      lead', items', e := CutQuoted(lead, items, s);
    } else if s[0] == '"' {
      lead', items', e := CutDoubled(lead, items, s);
    } else {
      assert Ordinary(s[0]) && s == [s[0]] + s[1..];
      lead', items', e := CutPart(lead, items, Bare([s[0]]), s[1..], s);
    }
  }

  lemma CutPart(lead: string, items: seq<Item>, part: Part, rest: string, s: string)
    returns (lead': string, items': seq<Item>, e: Ending)
    requires AllBlank(lead) && FineLine(items) && Fine(part) && s == Spell(part) + rest && |rest| < |s|
    ensures AllBlank(lead') && FineLine(items') && FineEnding(e)
    ensures lead' + Line(items') + Tail(e) == lead + Line(items) + s
    decreases |s|, 0
  {
    AddPartIs(items, part);
    Regroup(lead, Line(items), Spell(part));
    Regroup(lead + Line(items), Spell(part), rest);
    lead', items', e := CutRest(lead, AddPart(items, part), rest);
  }

  lemma CutBlank(lead: string, items: seq<Item>, s: string)
    returns (lead': string, items': seq<Item>, e: Ending)
    requires AllBlank(lead) && FineLine(items) && s != "" && Blank(s[0])
    ensures AllBlank(lead') && FineLine(items') && FineEnding(e)
    ensures lead' + Line(items') + Tail(e) == lead + Line(items) + s
    decreases |s|, 1
  {
    var c, rest := s[0], s[1..];
    assert s == [c] + rest;
    if items == [] {
      assert lead + "" + s == lead + [c] + "" + rest;
      lead', items', e := CutRest(lead + [c], items, rest);
    } else {
      AddBlankIs(items, c);
      assert lead + Line(items) + ([c] + rest) == lead + (Line(items) + [c]) + rest;
      lead', items', e := CutRest(lead, AddBlank(items, c), rest);
    }
  }

  lemma CutQuoted(lead: string, items: seq<Item>, s: string)
    returns (lead': string, items': seq<Item>, e: Ending)
    requires AllBlank(lead) && FineLine(items) && s != "" && s[0] == '\''
    ensures AllBlank(lead') && FineLine(items') && FineEnding(e)
    ensures lead' + Line(items') + Tail(e) == lead + Line(items) + s
    decreases |s|, 1
  {
    var text, rest := CutSingle(s[1..]);
    assert s == ['\''] + (text + rest);
    if rest == "" {
      lead', items', e := lead, items, InSingle(text);
    } else if rest[0] == '\'' {
      assert rest == "'" + rest[1..] && s == "'" + text + "'" + rest[1..];
      lead', items', e := CutPart(lead, items, Single(text), rest[1..], s);
    } else {
      assert rest == [rest[0]] + rest[1..];
      lead', items', e := lead, items, SingleControl(text, rest[0], rest[1..]);
    }
  }

  lemma CutDoubled(lead: string, items: seq<Item>, s: string)
    returns (lead': string, items': seq<Item>, e: Ending)
    requires AllBlank(lead) && FineLine(items) && s != "" && s[0] == '"'
    ensures AllBlank(lead') && FineLine(items') && FineEnding(e)
    ensures lead' + Line(items') + Tail(e) == lead + Line(items) + s
    decreases |s|, 1
  {
    var units, rest := CutDouble(s[1..]);
    assert s == ['"'] + (SpellUnits(units) + rest);
    if rest == "" {
      lead', items', e := lead, items, InDouble(units);
    } else if rest[0] == '"' {
      assert rest == "\"" + rest[1..] && s == "\"" + SpellUnits(units) + "\"" + rest[1..];
      lead', items', e := CutPart(lead, items, Double(units), rest[1..], s);
    } else {
      assert rest == [rest[0]] + rest[1..];
      lead', items', e := lead, items, DoubleControl(units, rest[0], rest[1..]);
    }
  }

  ghost predicate Reads(command: string, lead: string, items: seq<Item>, e: Ending) {
    AllBlank(lead) && FineLine(items) && FineEnding(e) && command == lead + Line(items) + Tail(e)
  }

  /** Every command is a line with one of the endings, and splitting it comes to what that line means. */
  lemma EveryCommand(command: string)
    ensures exists lead, items, e :: Reads(command, lead, items, e)
    ensures forall lead, items, e :: Reads(command, lead, items, e) ==> Scan(START, command) == Outcome(items, e)
  {
    var lead, items, e := CutRest("", [], command);
    assert "" + Line([]) + command == command;
    assert Reads(command, lead, items, e);
    forall lead, items, e | Reads(command, lead, items, e)
      ensures Scan(START, command) == Outcome(items, e)
    {
      LineOutcome(lead, items, e);
    }
  }
}
