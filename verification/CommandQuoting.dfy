/** What splitting achieves: quoted words come back, and a small automaton tells how it ends. */
module CommandQuoting {
  import opened CommandSplit

  // ---------------------------------------------------------- round trips

  /** A word between single quotes; a quote is written as '\'' since it cannot be inside. */
  function QuoteBody(w: string): string {
    if w == "" then ""
    else (if w[0] == '\'' then "'\\''" else [w[0]]) + QuoteBody(w[1..])
  }

  function Quote(w: string): string {
    "'" + QuoteBody(w) + "'"
  }

  /** The quoted words, joined by spaces. */
  function JoinQuoted(words: seq<string>): string
    requires words != []
  {
    if |words| == 1 then Quote(words[0]) else Quote(words[0]) + " " + JoinQuoted(words[1..])
  }

  lemma QuoteInside(rest: string, read: string)
    ensures SingleQuoted("'\\''" + rest, read) == SingleQuoted(rest, read + "'")
  {
    var s := "'\\''" + rest;
    assert s[1..] == "\\''" + rest;
    assert s[1..][2..] == "'" + rest;
    assert ("'" + rest)[1..] == rest;
    assert SingleQuoted(s, read) == Unquoted(s[1..], read);
    assert Unquoted(s[1..], read) == Unquoted("'" + rest, read + "'");
  }

  lemma PlainInside(c: char, rest: string, read: string)
    requires c != '\''
    ensures SingleQuoted([c] + rest, read) == SingleQuoted(rest, read + [c])
  {
    assert ([c] + rest)[1..] == rest;
  }

  lemma QuoteEnds(rest: string, read: string)
    ensures SingleQuoted("'" + rest, read) == Unquoted(rest, read)
  {
    assert ("'" + rest)[1..] == rest;
  }

  lemma {:induction false} BodyIsRead(w: string, rest: string, read: string)
    ensures SingleQuoted(QuoteBody(w) + ("'" + rest), read) == Unquoted(rest, read + w)
  {
    hide SingleQuoted, Unquoted;
    if w == "" {
      assert QuoteBody(w) + ("'" + rest) == "'" + rest && read + w == read;
      QuoteEnds(rest, read);
    } else {
      var tail := QuoteBody(w[1..]) + ("'" + rest);
      assert read + [w[0]] + w[1..] == read + w;
      BodyIsRead(w[1..], rest, read + [w[0]]);
      if w[0] == '\'' {
        assert QuoteBody(w) + ("'" + rest) == "'\\''" + tail;
        assert [w[0]] == "'";
        QuoteInside(tail, read);
      } else {
        assert QuoteBody(w) + ("'" + rest) == [w[0]] + tail;
        PlainInside(w[0], tail, read);
      }
    }
  }

  /** A quoted word is read as the word, whatever follows its closing quote. */
  lemma QuotedWord(w: string, rest: string)
    ensures Unquoted(Quote(w) + rest, "") == Unquoted(rest, w)
  {
    assert Quote(w) + rest == "'" + (QuoteBody(w) + ("'" + rest));
    assert ("'" + (QuoteBody(w) + ("'" + rest)))[1..] == QuoteBody(w) + ("'" + rest);
    BodyIsRead(w, rest, "");
    assert "" + w == w;
    hide SingleQuoted;
  }

  lemma FindsQuoted(w: string, rest: string, found: seq<string>, after: string)
    requires Unquoted(rest, w) == Word(w, after)
    ensures Split(Quote(w) + rest, found) == Split(after, found + [w])
  {
    hide Unquoted, Quote;
    StartsWithQuote(w, rest);
    QuotedWord(w, rest);
    RestIsShorter(Quote(w) + rest, "");
  }

  lemma {:induction false} JoinedAreFound(words: seq<string>, found: seq<string>)
    requires words != []
    ensures Split(JoinQuoted(words), found) == Words(found + words)
    decreases |words|
  {
    hide Split, Quote;
    var first := words[0];
    if |words| == 1 {
      assert Quote(first) + "" == Quote(first);
      FindsQuoted(first, "", found, "");
      NothingLeft(found + [first]);
      assert found + [first] == found + words;
    } else {
      var after := JoinQuoted(words[1..]);
      assert JoinQuoted(words) == Quote(first) + (" " + after);
      assert (" " + after)[1..] == after;
      FindsQuoted(first, " " + after, found, after);
      JoinedAreFound(words[1..], found + [first]);
      assert found + [first] + words[1..] == found + words;
    }
  }

  lemma NothingLeft(found: seq<string>)
    ensures Split("", found) == Words(found)
  {
  }

  lemma StartsWithQuote(w: string, rest: string)
    ensures var s := Quote(w) + rest; s != "" && s[0] == '\''
  {
  }

  /** Quoted words come back exactly, for any list of any words. */
  lemma SplitOfJoined(words: seq<string>)
    requires words != []
    ensures JoinQuoted(words) != "" && Split(JoinQuoted(words), []) == Words(words)
  {
    JoinedAreFound(words, []);
    assert [] + words == words;
    assert Quote(words[0]) != "";
  }

  // ---------------------------------------------------------- how it ends

  /** Where a reader of the command is after some of its characters. */
  datatype Mode = Between | BetweenEscape | InWord | WordEscape | InDouble | DoubleEscape | InSingle

  ghost function Next(m: Mode, c: char): Mode {
    match m
    case InSingle => if c == '\'' then InWord else InSingle
    case InDouble => if c == '\"' then InWord else if c == '\\' then DoubleEscape else InDouble
    case DoubleEscape => InDouble
    case WordEscape => InWord
    case BetweenEscape => if c == '\n' then Between else InWord
    case _ =>
      if IsBlank(c) then Between
      else if c == '\"' then InDouble
      else if c == '\'' then InSingle
      else if c == '\\' then (if m.Between? then BetweenEscape else WordEscape)
      else InWord
  }

  ghost function ModeAfter(s: string, m: Mode): Mode {
    if s == "" then m else ModeAfter(s[1..], Next(m, s[0]))
  }

  /** A word begins with a backslash and something else than a newline. */
  ghost predicate GetsStuck(s: string, m: Mode) {
    s != "" && ((m.BetweenEscape? && s[0] != '\n') || GetsStuck(s[1..], Next(m, s[0])))
  }

  lemma TwoSteps(s: string, m: Mode)
    requires |s| > 1
    ensures ModeAfter(s, m) == ModeAfter(s[2..], Next(Next(m, s[0]), s[1]))
    ensures !m.BetweenEscape? && !Next(m, s[0]).BetweenEscape? ==>
              (GetsStuck(s, m) <==> GetsStuck(s[2..], Next(Next(m, s[0]), s[1])))
  {
    assert s[1..][1..] == s[2..];
    hide Next;
  }

  lemma OneStep(s: string, m: Mode)
    requires |s| == 1
    ensures ModeAfter(s, m) == Next(m, s[0]) && (GetsStuck(s, m) <==> m.BetweenEscape? && s[0] != '\n')
  {
    hide Next;
    assert s[1..] == "";
  }

  /** The automaton and a scanner agree: on the rest after a word, or on the mode at the end. */
  ghost predicate Agrees(s: string, m: Mode, r: WordResult) {
    match r
    case Word(_, rest) =>
      || (ModeAfter(s, m) == ModeAfter(rest, Between) && (GetsStuck(s, m) <==> GetsStuck(rest, Between)))
      || (rest == "" && ModeAfter(s, m).InWord? && !GetsStuck(s, m))
    case Bad(e) =>
      && !GetsStuck(s, m)
      && match ModeAfter(s, m)
         case InSingle => e.SingleQuoteUnterminated?
         case InDouble => e.DoubleQuoteUnterminated?
         case DoubleEscape => e.DoubleQuoteUnterminated?
         case WordEscape => e.EscapeUnterminated?
         case _ => false
  }

  lemma AgreesAfterOne(s: string, m: Mode, r: WordResult)
    requires s != "" && Agrees(s[1..], Next(m, s[0]), r) && !m.BetweenEscape?
    ensures Agrees(s, m, r)
  {
    hide Next;
  }

  lemma AgreesAfterTwo(s: string, m: Mode, r: WordResult)
    requires |s| > 1 && Agrees(s[2..], Next(Next(m, s[0]), s[1]), r)
    requires !m.BetweenEscape? && !Next(m, s[0]).BetweenEscape?
    ensures Agrees(s, m, r)
  {
    TwoSteps(s, m);
    hide Next, ModeAfter, GetsStuck;
  }

  lemma {:induction false} UnquotedAgrees(s: string, read: string)
    ensures Agrees(s, InWord, Unquoted(s, read))
    decreases |s|
  {
    if s == "" || IsBlank(s[0]) {
    } else if s[0] == '\\' {
      if |s| > 1 {
        UnquotedAgrees(s[2..], if s[1] == '\n' then read else read + [s[1]]);
        hide Agrees;
        AgreesAfterTwo(s, InWord, Unquoted(s, read));
      } else {
        OneStep(s, InWord);
      }
    } else {
      if s[0] == '\"' {
        DoubleQuotedAgrees(s[1..], read);
      } else if s[0] == '\'' {
        SingleQuotedAgrees(s[1..], read);
      } else {
        UnquotedAgrees(s[1..], read + [s[0]]);
      }
      hide Agrees;
      AgreesAfterOne(s, InWord, Unquoted(s, read));
    }
  }

  lemma {:induction false} DoubleQuotedAgrees(s: string, read: string)
    ensures Agrees(s, InDouble, DoubleQuoted(s, read))
    decreases |s|
  {
    if s == "" {
    } else if s[0] == '\\' {
      if |s| > 1 {
        var more := if s[1] == '\n' then read else if EscapedInDouble(s[1]) then read + [s[1]] else read + s[..2];
        DoubleQuotedAgrees(s[2..], more);
        hide Agrees;
        AgreesAfterTwo(s, InDouble, DoubleQuoted(s, read));
      } else {
        OneStep(s, InDouble);
      }
    } else {
      if s[0] == '\"' {
        UnquotedAgrees(s[1..], read);
      } else {
        DoubleQuotedAgrees(s[1..], read + [s[0]]);
      }
      hide Agrees;
      AgreesAfterOne(s, InDouble, DoubleQuoted(s, read));
    }
  }

  lemma {:induction false} SingleQuotedAgrees(s: string, read: string)
    ensures Agrees(s, InSingle, SingleQuoted(s, read))
    decreases |s|
  {
    if s != "" {
      if s[0] == '\'' {
        UnquotedAgrees(s[1..], read);
      } else {
        SingleQuotedAgrees(s[1..], read + [s[0]]);
      }
      hide Agrees;
      AgreesAfterOne(s, InSingle, SingleQuoted(s, read));
    }
  }

  /** How splitting ends, read off the automaton. */
  ghost predicate EndsAs(r: Outcome, s: string, m: Mode) {
    if GetsStuck(s, m) then r.Diverges?
    else match ModeAfter(s, m)
      case InSingle => r == Failed(SingleQuoteUnterminated)
      case InDouble => r == Failed(DoubleQuoteUnterminated)
      case DoubleEscape => r == Failed(DoubleQuoteUnterminated)
      case WordEscape => r == Failed(EscapeUnterminated)
      case BetweenEscape => r == Failed(EscapeUnterminated)
      case _ => r.Words?
  }

  lemma SameWord(s: string)
    requires s != "" && !IsBlank(s[0]) && s[0] != '\\'
    ensures ModeAfter(s, Between) == ModeAfter(s, InWord) && (GetsStuck(s, Between) <==> GetsStuck(s, InWord))
  {
  }

  /**
    Splitting never ends exactly when some word begins with a backslash that does not
    escape a newline; otherwise the place where the command ends tells the error, if any.
   */
  lemma {:induction false} SplitEndsAs(s: string, found: seq<string>)
    ensures EndsAs(Split(s, found), s, Between)
    decreases |s|
  {
    if s == "" {
    } else if IsBlank(s[0]) {
      SplitEndsAs(s[1..], found);
    } else if s[0] == '\\' {
      if |s| == 1 {
        OneStep(s, Between);
      } else {
        assert s[1..] != "" && s[1..][0] == s[1] && s[1..][1..] == s[2..];
        assert GetsStuck(s, Between) <==> GetsStuck(s[1..], BetweenEscape);
        assert ModeAfter(s, Between) == ModeAfter(s[1..], BetweenEscape);
        if s[1] == '\n' {
          SplitEndsAs(s[2..], found);
        }
      }
    } else {
      RestIsShorter(s, "");
      UnquotedAgrees(s, "");
      SameWord(s);
      var r := Unquoted(s, "");
      hide Unquoted, Next;
      if r.Word? {
        SplitEndsAs(r.rest, found + [r.text]);
      }
    }
  }

  /** The shortest command that is never split: a backslash and a letter. */
  lemma BackslashLetterDiverges()
    ensures Split("\\a", []) == Diverges && Split("a\\a", []) == Words(["aa"])
  {
    SplitEndsAs("\\a", []);
    var s := "a\\a";
    assert s[1..] == "\\a" && s[1..][2..] == "";
    assert Unquoted(s[1..], "a") == Unquoted("", "aa");
    assert Unquoted(s, "") == Word("aa", "");
  }
}
