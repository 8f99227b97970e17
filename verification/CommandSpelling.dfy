/** Every way to write a word: between double quotes, with backslashes, or in pieces. */
module CommandSpelling {
  import opened CommandSplit
  import CommandQuoting

  /** Inside a word, whatever was read before and whatever follows, this text is read as these characters. */
  ghost predicate ReadsAs(text: string, w: string) {
    forall rest, read :: Unquoted(text + rest, read) == Unquoted(rest, read + w)
  }

  /** It can also begin a word: blanks are skipped before a word, and a backslash has its own rules there. */
  ghost predicate Spells(text: string, w: string) {
    ReadsAs(text, w) && text != "" && !IsBlank(text[0]) && text[0] != '\\'
  }

  /** Texts joined by spaces. */
  function Join(texts: seq<string>): string {
    if texts == [] then "" else if |texts| == 1 then texts[0] else texts[0] + " " + Join(texts[1..])
  }

  lemma FindsSpelled(text: string, w: string, rest: string, found: seq<string>, after: string)
    requires Spells(text, w) && (rest == after == "" || rest == " " + after)
    ensures Split(text + rest, found) == Split(after, found + [w])
  {
    var s := text + rest;
    assert s[0] == text[0] && "" + w == w;
    assert Unquoted(s, "") == Unquoted(rest, "" + w);
    if rest != "" {
      assert rest[1..] == after && IsBlank(rest[0]);
    }
    assert Unquoted(rest, w) == Word(w, after);
    RestIsShorter(s, "");
  }

  lemma {:induction false} SpelledAreFound(texts: seq<string>, words: seq<string>, found: seq<string>)
    requires |texts| == |words| && forall i :: 0 <= i < |words| ==> Spells(texts[i], words[i])
    ensures Split(Join(texts), found) == Words(found + words)
    decreases |words|
  {
    hide Split, Spells;
    if words == [] {
      CommandQuoting.NothingLeft(found);
      assert found + words == found;
    } else if |words| == 1 {
      assert texts[0] + "" == texts[0];
      FindsSpelled(texts[0], words[0], "", found, "");
      CommandQuoting.NothingLeft(found + [words[0]]);
      assert found + [words[0]] == found + words;
    } else {
      var after := Join(texts[1..]);
      assert Join(texts) == texts[0] + (" " + after);
      FindsSpelled(texts[0], words[0], " " + after, found, after);
      SpelledAreFound(texts[1..], words[1..], found + [words[0]]);
      assert found + [words[0]] + words[1..] == found + words;
    }
  }

  /** Words that are spelled in any way, joined by spaces, are found again. */
  lemma SplitOfSpelled(texts: seq<string>, words: seq<string>)
    requires |texts| == |words| && forall i :: 0 <= i < |words| ==> Spells(texts[i], words[i])
    ensures Split(Join(texts), []) == Words(words)
  {
    SpelledAreFound(texts, words, []);
    assert [] + words == words;
  }

  /** Pieces of a word that are written in different ways can follow each other. */
  lemma PiecesReadAs(a: string, x: string, b: string, y: string)
    requires ReadsAs(a, x) && ReadsAs(b, y)
    ensures ReadsAs(a + b, x + y)
  {
    forall rest, read ensures Unquoted(a + b + rest, read) == Unquoted(rest, read + (x + y)) {
      assert a + b + rest == a + (b + rest) && read + (x + y) == read + x + y;
    }
  }

  /** A word without any character that means something outside quotes spells itself. */
  lemma {:induction false} PlainReadsAs(w: string)
    requires forall c :: c in w ==> !IsSpecial(c)
    ensures ReadsAs(w, w)
  {
    if w == "" {
      NothingReadsAs();
    } else {
      PlainReadsAs(w[1..]);
      CharacterReadsAs(w[0]);
      assert w == EscapedOutside(w[0]) + w[1..] && w == UnlessNewline(w[0]) + w[1..];
      hide ReadsAs;
      PiecesReadAs(EscapedOutside(w[0]), UnlessNewline(w[0]), w[1..], w[1..]);
    }
  }

  lemma PlainSpells(w: string)
    requires w != "" && forall c :: c in w ==> !IsSpecial(c)
    ensures Spells(w, w)
  {
    PlainReadsAs(w);
    assert !IsSpecial(w[0]);
  }

  /** A space, a tab or a newline ends a word, and any of them before a word is skipped. */
  lemma BlankSeparates(text: string, w: string, blank: char, rest: string, found: seq<string>)
    requires Spells(text, w) && blank in [' ', '\t', '\n']
    ensures Split(text + [blank] + rest, found) == Split(rest, found + [w])
    ensures Split([blank] + rest, found) == Split(rest, found)
  {
    assert ([blank] + rest)[1..] == rest;
    var s := text + ([blank] + rest);
    assert s == text + [blank] + rest && s[0] == text[0] && "" + w == w;
    assert Unquoted(s, "") == Unquoted([blank] + rest, "" + w);
    assert Unquoted([blank] + rest, w) == Word(w, rest);
    RestIsShorter(s, "");
  }

  // ------------------------------------------------------------- single quotes

  lemma SingleQuotesSpell(w: string)
    ensures Spells(CommandQuoting.Quote(w), w)
  {
    var text := CommandQuoting.Quote(w);
    forall rest, read ensures Unquoted(text + rest, read) == Unquoted(rest, read + w) {
      var inside := CommandQuoting.QuoteBody(w) + ("'" + rest);
      assert text + rest == "'" + inside && ("'" + inside)[1..] == inside;
      assert Unquoted("'" + inside, read) == SingleQuoted(inside, read);
      CommandQuoting.BodyIsRead(w, rest, read);
    }
  }

  // ------------------------------------------------------------- double quotes

  /**
    What a backslash and a character stand for between double quotes: a dollar sign, a backquote,
    a double quote and a backslash are escaped, an escaped newline vanishes, and before any other
    character the backslash stays.
   */
  lemma BackslashInDouble(c: char, rest: string, read: string)
    ensures DoubleQuoted("\\" + [c] + rest, read)
            == DoubleQuoted(rest, if c == '\n' then read
                                  else if c in ['$', '`', '\"', '\\'] then read + [c]
                                  else read + ['\\', c])
  {
    var s := "\\" + [c] + rest;
    assert s[2..] == rest && s[..2] == ['\\', c] && s[0] == '\\' && s[1] == c;
  }

  /** Every other character but the closing quote stands for itself. */
  lemma PlainInDouble(c: char, rest: string, read: string)
    requires c != '\"' && c != '\\'
    ensures DoubleQuoted([c] + rest, read) == DoubleQuoted(rest, read + [c])
  {
    assert ([c] + rest)[1..] == rest;
  }

  function InDoubleQuotes(c: char): string {
    if c in ['$', '`', '\"', '\\'] then ['\\', c] else [c]
  }

  function DoubleQuoteBody(w: string): string {
    if w == "" then "" else InDoubleQuotes(w[0]) + DoubleQuoteBody(w[1..])
  }

  /** A word between double quotes, with a backslash before each dollar sign, backquote, double quote and backslash. */
  function DoubleQuote(w: string): string {
    "\"" + DoubleQuoteBody(w) + "\""
  }

  lemma CharacterInDouble(c: char, rest: string, read: string)
    ensures DoubleQuoted(InDoubleQuotes(c) + rest, read) == DoubleQuoted(rest, read + [c])
  {
    hide DoubleQuoted;
    if c in ['$', '`', '\"', '\\'] {
      BackslashInDouble(c, rest, read);
      assert InDoubleQuotes(c) == "\\" + [c];
    } else {
      PlainInDouble(c, rest, read);
    }
  }

  lemma DoubleQuoteEnds(rest: string, read: string)
    ensures DoubleQuoted("\"" + rest, read) == Unquoted(rest, read)
  {
    assert ("\"" + rest)[1..] == rest;
  }

  lemma {:induction false} DoubleBodyIsRead(w: string, rest: string, read: string)
    ensures DoubleQuoted(DoubleQuoteBody(w) + ("\"" + rest), read) == Unquoted(rest, read + w)
  {
    hide DoubleQuoted, Unquoted, InDoubleQuotes;
    if w == "" {
      assert DoubleQuoteBody(w) + ("\"" + rest) == "\"" + rest && read + w == read;
      DoubleQuoteEnds(rest, read);
    } else {
      var tail := DoubleQuoteBody(w[1..]) + ("\"" + rest);
      assert read + [w[0]] + w[1..] == read + w;
      DoubleBodyIsRead(w[1..], rest, read + [w[0]]);
      assert DoubleQuoteBody(w) + ("\"" + rest) == InDoubleQuotes(w[0]) + tail;
      CharacterInDouble(w[0], tail, read);
    }
  }

  lemma DoubleQuotesSpell(w: string)
    ensures Spells(DoubleQuote(w), w)
  {
    var text := DoubleQuote(w);
    forall rest, read ensures Unquoted(text + rest, read) == Unquoted(rest, read + w) {
      var inside := DoubleQuoteBody(w) + ("\"" + rest);
      assert text + rest == "\"" + inside && ("\"" + inside)[1..] == inside;
      assert Unquoted("\"" + inside, read) == DoubleQuoted(inside, read);
      DoubleBodyIsRead(w, rest, read);
    }
  }

  function DoubleQuotedWords(words: seq<string>): seq<string> {
    seq(|words|, i requires 0 <= i < |words| => DoubleQuote(words[i]))
  }

  /** Words between double quotes come back exactly, for any list of any words. */
  lemma SplitOfDoubleQuoted(words: seq<string>)
    ensures Split(Join(DoubleQuotedWords(words)), []) == Words(words)
  {
    hide Split, Spells, DoubleQuote;
    forall i | 0 <= i < |words| ensures Spells(DoubleQuotedWords(words)[i], words[i]) {
      DoubleQuotesSpell(words[i]);
    }
    SplitOfSpelled(DoubleQuotedWords(words), words);
  }

  // --------------------------------------------------------------- backslashes

  /** The characters that mean something outside quotes. */
  predicate IsSpecial(c: char) {
    c in [' ', '\t', '\n', '\"', '\'', '\\']
  }

  function EscapedOutside(c: char): string {
    if IsSpecial(c) then ['\\', c] else [c]
  }

  /** A word outside quotes, with a backslash before each character that means something there. */
  function Backslashed(w: string): string {
    if w == "" then "" else EscapedOutside(w[0]) + Backslashed(w[1..])
  }

  function UnlessNewline(c: char): string {
    if c == '\n' then "" else [c]
  }

  /** What is left of it: escaped newlines vanish. */
  function WithoutNewlines(w: string): string {
    if w == "" then "" else UnlessNewline(w[0]) + WithoutNewlines(w[1..])
  }

  lemma EscapedReadsAs(c: char, rest: string, read: string)
    ensures Unquoted(EscapedOutside(c) + rest, read) == Unquoted(rest, read + UnlessNewline(c))
  {
    var s := EscapedOutside(c) + rest;
    if IsSpecial(c) {
      assert s[0] == '\\' && s[1] == c && s[2..] == rest;
      assert c == '\n' ==> read + UnlessNewline(c) == read;
    } else {
      assert s[0] == c && s[1..] == rest;
    }
  }

  lemma CharacterReadsAs(c: char)
    ensures ReadsAs(EscapedOutside(c), UnlessNewline(c))
  {
    hide Unquoted, EscapedOutside, UnlessNewline;
    forall rest, read ensures Unquoted(EscapedOutside(c) + rest, read) == Unquoted(rest, read + UnlessNewline(c)) {
      EscapedReadsAs(c, rest, read);
    }
  }

  lemma NothingReadsAs()
    ensures ReadsAs("", "")
  {
    hide Unquoted;
    forall rest, read ensures Unquoted("" + rest, read) == Unquoted(rest, read + "") {
      assert "" + rest == rest && read + "" == read;
    }
  }

  /** Inside a word, all of it but the newlines is read. */
  lemma {:induction false} BackslashedReadsAs(w: string)
    ensures ReadsAs(Backslashed(w), WithoutNewlines(w))
  {
    hide ReadsAs, EscapedOutside, UnlessNewline;
    if w == "" {
      NothingReadsAs();
    } else {
      CharacterReadsAs(w[0]);
      BackslashedReadsAs(w[1..]);
      PiecesReadAs(EscapedOutside(w[0]), UnlessNewline(w[0]), Backslashed(w[1..]), WithoutNewlines(w[1..]));
    }
  }

  /** The first character of a word that is left has to be escaped. */
  ghost predicate BeginsSpecial(w: string) {
    WithoutNewlines(w) != "" && IsSpecial(WithoutNewlines(w)[0])
  }

  /** What is found of one word, before the others are looked for. */
  ghost function FoundOf(w: string, after: string, found: seq<string>): Outcome {
    if BeginsSpecial(w) then Diverges
    else if WithoutNewlines(w) == "" then Split(after, found)
    else Split(after, found + [WithoutNewlines(w)])
  }

  lemma NoWord(rest: string, found: seq<string>, after: string)
    requires rest == after == "" || rest == " " + after
    ensures Split(rest, found) == Split(after, found)
  {
    if rest != "" {
      assert rest[0] == ' ' && rest[1..] == after;
    }
  }

  lemma NewlineIsSkipped(rest: string, found: seq<string>)
    ensures Split(['\\', '\n'] + rest, found) == Split(rest, found)
  {
    var s := ['\\', '\n'] + rest;
    assert s[0] == '\\' && s[1] == '\n' && s[2..] == rest;
  }

  lemma EscapeGetsStuck(c: char, rest: string, found: seq<string>)
    requires c != '\n'
    ensures Split(['\\', c] + rest, found) == Diverges
  {
    var s := ['\\', c] + rest;
    assert s[0] == '\\' && s[1] == c;
  }

  /** At the beginning of a word, its newlines are skipped, and a special character is never got past. */
  lemma {:induction false} SplitOneBackslashed(w: string, rest: string, found: seq<string>, after: string)
    requires rest == after == "" || rest == " " + after
    ensures Split(Backslashed(w) + rest, found) == FoundOf(w, after, found)
  {
    hide Split;
    if w == "" {
      assert Backslashed(w) + rest == rest;
      NoWord(rest, found, after);
    } else {
      var tail := Backslashed(w[1..]) + rest;
      assert Backslashed(w) + rest == EscapedOutside(w[0]) + tail;
      if w[0] == '\n' {
        NewlineIsSkipped(tail, found);
        assert WithoutNewlines(w) == WithoutNewlines(w[1..]);
        SplitOneBackslashed(w[1..], rest, found, after);
      } else if IsSpecial(w[0]) {
        EscapeGetsStuck(w[0], tail, found);
      } else {
        BackslashedReadsAs(w);
        assert Backslashed(w)[0] == w[0];
        FindsSpelled(Backslashed(w), WithoutNewlines(w), rest, found, after);
      }
    }
  }

  function BackslashedWords(words: seq<string>): seq<string> {
    seq(|words|, i requires 0 <= i < |words| => Backslashed(words[i]))
  }

  /** What is found of the words: newlines vanish, and so do words of nothing else. */
  function LeftOf(words: seq<string>): seq<string> {
    if words == [] then []
    else (if WithoutNewlines(words[0]) == "" then [] else [WithoutNewlines(words[0])]) + LeftOf(words[1..])
  }

  lemma JoinedBackslashed(words: seq<string>) returns (rest: string)
    requires words != []
    ensures var after := Join(BackslashedWords(words[1..]));
            (rest == after == "" || rest == " " + after) && Join(BackslashedWords(words)) == Backslashed(words[0]) + rest
  {
    hide Backslashed;
    var texts := BackslashedWords(words);
    assert texts[1..] == BackslashedWords(words[1..]);
    rest := if |words| == 1 then "" else " " + Join(texts[1..]);
    assert texts[0] + "" == texts[0];
  }

  lemma {:induction false} SplitOfBackslashed(words: seq<string>, found: seq<string>)
    ensures Split(Join(BackslashedWords(words)), found)
            == if exists i :: 0 <= i < |words| && BeginsSpecial(words[i]) then Diverges else Words(found + LeftOf(words))
    decreases |words|
  {
    hide Split, BeginsSpecial, Backslashed, WithoutNewlines;
    if words == [] {
      CommandQuoting.NothingLeft(found);
      assert found + LeftOf(words) == found;
    } else {
      var w, others := words[0], words[1..];
      var rest := JoinedBackslashed(words);
      SplitOneBackslashed(w, rest, found, Join(BackslashedWords(others)));
      hide Join, BackslashedWords;
      assert forall i :: 0 <= i < |others| ==> others[i] == words[i + 1];
      if !BeginsSpecial(w) {
        var more := if WithoutNewlines(w) == "" then [] else [WithoutNewlines(w)];
        assert found + [] == found;
        SplitOfBackslashed(others, found + more);
        assert found + more + LeftOf(others) == found + LeftOf(words);
        if i :| 0 < i < |words| && BeginsSpecial(words[i]) {
          assert BeginsSpecial(others[i - 1]);
        }
      }
    }
  }

  lemma {:induction false} WithoutNewlinesIs(w: string)
    ensures |WithoutNewlines(w)| <= |w|
    ensures WithoutNewlines(w) == w <==> '\n' !in w
  {
    if w != "" {
      WithoutNewlinesIs(w[1..]);
      assert w == [w[0]] + w[1..];
    }
  }

  lemma {:induction false} NothingIsLost(words: seq<string>)
    ensures |LeftOf(words)| <= |words|
    ensures LeftOf(words) == words <==> forall i :: 0 <= i < |words| ==> words[i] != "" && '\n' !in words[i]
    decreases |words|
  {
    if words != [] {
      NothingIsLost(words[1..]);
      WithoutNewlinesIs(words[0]);
      hide WithoutNewlines;
      assert words == [words[0]] + words[1..];
      assert forall i :: 0 <= i < |words[1..]| ==> words[1..][i] == words[i + 1];
      if LeftOf(words) == words {
        assert LeftOf(words)[1..] == words[1..];
      }
    }
  }

  /**
    Words with backslashes come back exactly when none is empty, has a newline, or begins with a
    character that has to be escaped: the splitter never gets past a backslash there.
   */
  lemma SplitOfBackslashedIff(words: seq<string>)
    ensures Split(Join(BackslashedWords(words)), []) == Words(words)
            <==> forall i :: 0 <= i < |words| ==> words[i] != "" && '\n' !in words[i] && !IsSpecial(words[i][0])
  {
    SplitOfBackslashed(words, []);
    NothingIsLost(words);
    assert [] + LeftOf(words) == LeftOf(words);
    forall i | 0 <= i < |words| && words[i] != "" && '\n' !in words[i]
      ensures BeginsSpecial(words[i]) <==> IsSpecial(words[i][0])
    {
      WithoutNewlinesIs(words[i]);
    }
    hide Split, IsSpecial, WithoutNewlines, LeftOf, BeginsSpecial, Join, BackslashedWords;
  }
}
