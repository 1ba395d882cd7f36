/** Splitting a configured command line into words. */
module CommandWords {
  import opened Common

  datatype Error = ControlCharacters | Unterminated(quote: char) | Blank | EmptyProgram

  /** The words so far, and the word being built. */
  datatype Lexer = Lexer(words: seq<string>, current: string, quote: Option<char>, started: bool) {
    function Push(c: char): Lexer {
      this.(current := current + [c], started := true)
    }

    function Flush(): Lexer {
      if started || current != "" then Lexer(words + [current], "", quote, false) else this
    }
  }

  const START := Lexer([], "", None, false)

  predicate IsAsciiWhitespace(c: char) {
    c == ' ' || c == '\t' || c == '\n' || c == '\U{0C}' || c == '\r'
  }

  predicate IsQuote(c: char) {
    c == '"' || c == '\''
  }

  function Finish(l: Lexer): Result<seq<string>, Error> {
    if l.quote.Some? then Err(Unterminated(l.quote.value)) else Ok(l.Flush().words)
  }

  function Scan(l: Lexer, s: string): Result<seq<string>, Error>
    decreases |s|
  {
    if s == "" then Finish(l)
    else
      var c := s[0];
      if c == '\\' && l.quote == Some('"') then
        if |s| > 1 && (s[1] == '"' || s[1] == '\\') then Scan(l.Push(s[1]), s[2..]) else Scan(l.Push(c), s[1..])
      else if IsQuote(c) && l.quote == Some(c) then Scan(l.(quote := None), s[1..])
      else if IsQuote(c) && l.quote.None? then Scan(l.(quote := Some(c), started := true), s[1..])
      else if IsAsciiWhitespace(c) && l.quote.None? then Scan(l.Flush(), s[1..])
      else if IsControl(c) then Err(ControlCharacters)
      else Scan(l.Push(c), s[1..])
  }

  method SplitCommandWords(command: string) returns (r: Result<seq<string>, Error>)
    ensures r == Scan(START, command)
  {
    var words: seq<string> := [];
    var current := "";
    var quote: Option<char> := None;
    var tokenStarted := false;
    var i := 0;
    while i < |command|
      invariant 0 <= i <= |command|
      invariant Scan(Lexer(words, current, quote, tokenStarted), command[i..]) == Scan(START, command)
    {
      var ch := command[i];
      assert command[i..][0] == ch && command[i..][1..] == command[i + 1..];
      assert i + 2 <= |command| ==> command[i..][1] == command[i + 1] && command[i..][2..] == command[i + 2..];
      i := i + 1;
      if ch == '\\' && quote == Some('"') {
        if i == |command| {
          current := current + [ch];
          tokenStarted := true;
          continue;
        }
        var next := command[i];
        if next == '"' || next == '\\' {
          i := i + 1;
          current := current + [next];
        } else {
          current := current + [ch];
        }
        tokenStarted := true;
      } else if IsQuote(ch) && quote == Some(ch) {
        quote := None;
      } else if IsQuote(ch) && quote.None? {
        quote := Some(ch);
        tokenStarted := true;
      } else if IsAsciiWhitespace(ch) && quote.None? {
        if tokenStarted || current != "" {
          words := words + [current];
          current := "";
          tokenStarted := false;
        }
      } else if IsControl(ch) {
        return Err(ControlCharacters);
      } else {
        current := current + [ch];
        tokenStarted := true;
      }
    }
    if quote.Some? {
      return Err(Unterminated(quote.value));
    }
    if tokenStarted || current != "" {
      words := words + [current];
    }
    r := Ok(words);
  }

  // ---- Quoting, and reading it back ----

  function Escape(w: string): string {
    if w == "" then ""
    else (if w[0] == '"' || w[0] == '\\' then ['\\', w[0]] else [w[0]]) + Escape(w[1..])
  }

  function Quote(w: string): string {
    "\"" + Escape(w) + "\""
  }

  function QuoteAll(ws: seq<string>): string {
    if ws == [] then "" else if |ws| == 1 then Quote(ws[0]) else Quote(ws[0]) + " " + QuoteAll(ws[1..])
  }

  predicate Plain(w: string) {
    forall i :: 0 <= i < |w| ==> !IsControl(w[i])
  }

  predicate AllPlain(ws: seq<string>) {
    forall i :: 0 <= i < |ws| ==> Plain(ws[i])
  }

  lemma {:induction false} ScanEscaped(l: Lexer, w: string, rest: string)
    requires l.quote == Some('"') && l.started
    ensures Scan(l, Escape(w) + "\"" + rest) ==
            if Plain(w) then Scan(l.(current := l.current + w, quote := None), rest) else Err(ControlCharacters)
    decreases |w|
  {
    var s := Escape(w) + "\"" + rest;
    if w == "" {
      assert s == "\"" + rest && s[1..] == rest;
      assert l.current + w == l.current;
    } else {
      var c, tail := w[0], Escape(w[1..]) + "\"" + rest;
      assert Plain(w) <==> !IsControl(c) && Plain(w[1..]) by {
        assert w == [c] + w[1..];
      }
      assert l.Push(c).current + w[1..] == l.current + w;
      ScanEscaped(l.Push(c), w[1..], rest);
      if c == '"' || c == '\\' {
        assert s == ['\\', c] + tail && s[2..] == tail;
      } else {
        assert s == [c] + tail && s[1..] == tail;
      }
    }
  }

  lemma ScanQuoted(words: seq<string>, w: string, rest: string)
    ensures Scan(Lexer(words, "", None, false), Quote(w) + rest) ==
            if Plain(w) then Scan(Lexer(words, w, None, true), rest) else Err(ControlCharacters)
  {
    var s := Quote(w) + rest;
    var l := Lexer(words, "", Some('"'), true);
    assert s[0] == '"' && s[1..] == Escape(w) + "\"" + rest;
    ScanEscaped(l, w, rest);
    assert "" + w == w;
  }

  lemma ScanSpace(words: seq<string>, w: string, rest: string)
    ensures Scan(Lexer(words, w, None, true), " " + rest) == Scan(Lexer(words + [w], "", None, false), rest)
  {
    var s := " " + rest;
    assert s[0] == ' ' && s[1..] == rest;
  }

  lemma {:induction false} ScanAll(words: seq<string>, ws: seq<string>)
    ensures Scan(Lexer(words, "", None, false), QuoteAll(ws)) ==
            if AllPlain(ws) then Ok(words + ws) else Err(ControlCharacters)
    decreases |ws|
  {
    if ws == [] {
      assert words + ws == words;
    } else if |ws| == 1 {
      assert Quote(ws[0]) + "" == Quote(ws[0]);
      ScanQuoted(words, ws[0], "");
      assert ws == [ws[0]];
    } else {
      var w, rest := ws[0], ws[1..];
      assert Quote(w) + " " + QuoteAll(rest) == Quote(w) + (" " + QuoteAll(rest));
      ScanQuoted(words, w, " " + QuoteAll(rest));
      ScanSpace(words, w, QuoteAll(rest));
      ScanAll(words + [w], rest);
      assert ws == [w] + rest;
      assert words + [w] + rest == words + ws;
    }
  }

  /** Quoted words come back as they were, or are refused just when one has a control character. */
  lemma RoundTrip(ws: seq<string>)
    ensures Scan(START, QuoteAll(ws)) == if AllPlain(ws) then Ok(ws) else Err(ControlCharacters)
  {
    ScanAll([], ws);
    assert [] + ws == ws;
  }

  /** No word that comes out holds a control character. */
  lemma {:induction false} WordsPlain(l: Lexer, s: string)
    requires AllPlain(l.words) && Plain(l.current)
    ensures Scan(l, s).Ok? ==> AllPlain(Scan(l, s).value)
    decreases |s|
  {
    if s != "" {
      var c := s[0];
      if c == '\\' && l.quote == Some('"') {
        if |s| > 1 && (s[1] == '"' || s[1] == '\\') {
          WordsPlain(l.Push(s[1]), s[2..]);
        } else {
          WordsPlain(l.Push(c), s[1..]);
        }
      } else if IsQuote(c) && l.quote == Some(c) {
        WordsPlain(l.(quote := None), s[1..]);
      } else if IsQuote(c) && l.quote.None? {
        WordsPlain(l.(quote := Some(c), started := true), s[1..]);
      } else if IsAsciiWhitespace(c) && l.quote.None? {
        WordsPlain(l.Flush(), s[1..]);
      } else if !IsControl(c) {
        WordsPlain(l.Push(c), s[1..]);
      }
    }
  }

  /** Whatever command is accepted has a quoted spelling that splits the same way. */
  lemma Requote(command: string)
    requires Scan(START, command).Ok?
    ensures Scan(START, QuoteAll(Scan(START, command).value)) == Scan(START, command)
  {
    WordsPlain(START, command);
    RoundTrip(Scan(START, command).value);
  }

  // ---- The DNS flush command ----

  datatype Command = Command(program: string, args: seq<string>, text: string)

  method ParseDnsFlushCommand(command: string) returns (r: Result<Command, Error>)
    ensures r.Ok? <==>
            Scan(START, command).Ok? && Scan(START, command).value != [] && Scan(START, command).value[0] != ""
    ensures r.Ok? ==> [r.value.program] + r.value.args == Scan(START, command).value && r.value.text == command
    ensures Scan(START, command).Err? ==> r == Err(Scan(START, command).error)
    ensures Scan(START, command) == Ok([]) ==> r == Err(Blank)
    ensures Scan(START, command).Ok? && Scan(START, command).value != [] && Scan(START, command).value[0] == "" ==>
              r == Err(EmptyProgram)
  {
    var words := SplitCommandWords(command);
    if words.Err? {
      return Err(words.error);
    }
    if words.value == [] {
      return Err(Blank);
    }
    if words.value[0] == "" {
      return Err(EmptyProgram);
    }
    r := Ok(Command(words.value[0], words.value[1..], command));
  }
}
