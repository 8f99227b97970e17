/**
  Splitting a command into words, by the quoting rules of the shell: sections 2.2.1
  to 2.2.3 of the POSIX Shell Command Language. Text is a list of runes.
 */
module CommandSplit {

  datatype Error = CommandEmpty | SingleQuoteUnterminated | DoubleQuoteUnterminated | EscapeUnterminated

  /** Diverges stands for a loop that never ends. */
  datatype Outcome = Words(words: seq<string>) | Failed(error: Error) | Diverges

  predicate IsBlank(c: char) {
    c == ' ' || c == '\n' || c == '\t'
  }

  /** The characters that a backslash escapes between double quotes. */
  predicate EscapedInDouble(c: char) {
    c == '$' || c == '`' || c == '\"' || c == '\n' || c == '\\'
  }

  // ------------------------------------------------------------- the rules

  /** A word, and what follows it and the blank that ends it. */
  datatype WordResult = Word(text: string, rest: string) | Bad(error: Error)

  /** The rest of a word outside quotes, after the characters read so far. */
  ghost function Unquoted(s: string, read: string): WordResult
    decreases |s|
  {
    if s == "" then Word(read, "")
    else if IsBlank(s[0]) then Word(read, s[1..])
    else if s[0] == '\"' then DoubleQuoted(s[1..], read)
    else if s[0] == '\'' then SingleQuoted(s[1..], read)
    else if s[0] == '\\' then
      if |s| == 1 then Bad(EscapeUnterminated)
      else Unquoted(s[2..], if s[1] == '\n' then read else read + [s[1]])
    else Unquoted(s[1..], read + [s[0]])
  }

  ghost function DoubleQuoted(s: string, read: string): WordResult
    decreases |s|
  {
    if s == "" then Bad(DoubleQuoteUnterminated)
    else if s[0] == '\"' then Unquoted(s[1..], read)
    else if s[0] == '\\' then
      if |s| == 1 then Bad(DoubleQuoteUnterminated)
      else if s[1] == '\n' then DoubleQuoted(s[2..], read)
      else if EscapedInDouble(s[1]) then DoubleQuoted(s[2..], read + [s[1]])
      else DoubleQuoted(s[2..], read + s[..2])
    else DoubleQuoted(s[1..], read + [s[0]])
  }

  ghost function SingleQuoted(s: string, read: string): WordResult
    decreases |s|
  {
    if s == "" then Bad(SingleQuoteUnterminated)
    else if s[0] == '\'' then Unquoted(s[1..], read)
    else SingleQuoted(s[1..], read + [s[0]])
  }

  /** A word takes at least one character, unless there is none. */
  lemma {:induction false} RestIsShorter(s: string, read: string)
    ensures var r := Unquoted(s, read); r.Word? ==> |r.rest| <= |s| && (s != "" ==> |r.rest| < |s|)
    ensures var r := DoubleQuoted(s, read); r.Word? ==> |r.rest| <= |s|
    ensures var r := SingleQuoted(s, read); r.Word? ==> |r.rest| <= |s|
    decreases |s|
  {
    if s != "" {
      hide IsBlank, EscapedInDouble;
      RestIsShorter(s[1..], read);
      RestIsShorter(s[1..], read + [s[0]]);
      if |s| > 1 {
        RestIsShorter(s[2..], read);
        RestIsShorter(s[2..], read + [s[1]]);
        RestIsShorter(s[2..], read + s[..2]);
      }
    }
  }

  /** The words of a command, after the words found so far. */
  ghost function Split(s: string, found: seq<string>): Outcome
    decreases |s|
  {
    if s == "" then Words(found)
    else if IsBlank(s[0]) then Split(s[1..], found)
    else if s[0] == '\\' then
      if |s| == 1 then Failed(EscapeUnterminated)
      else if s[1] == '\n' then Split(s[2..], found)
      else Diverges
    else
      RestIsShorter(s, "");
      match Unquoted(s, "")
      case Bad(e) => Failed(e)
      case Word(text, rest) => Split(rest, found + [text])
  }

  // ---------------------------------------------------------- the splitter

  class Buffer {
    var text: string

    constructor ()
      ensures text == ""
    {
      text := "";
    }

    method Reset()
      modifies this
      ensures text == ""
    {
      text := "";
    }

    method WriteString(s: string)
      modifies this
      ensures text == old(text) + s
    {
      text := text + s;
    }
  }

  /** What a scanner returns: a word with the index after it, or an error. */
  datatype Scanned = Ok(word: string, next: nat) | Err(error: Error)

  ghost predicate Scans(r: Scanned, input: string, spec: WordResult) {
    match r
    case Ok(word, next) => next <= |input| && spec == Word(word, input[next..])
    case Err(e) => spec == Bad(e)
  }

  lemma PlainRun(input: string, start: nat, cursor: nat, read: string)
    requires start <= cursor < |input|
    requires !IsBlank(input[cursor]) && input[cursor] != '\"' && input[cursor] != '\'' && input[cursor] != '\\'
    ensures Unquoted(input[cursor..], read + input[start..cursor])
            == Unquoted(input[cursor + 1..], read + input[start..cursor + 1])
  {
    assert input[cursor..][1..] == input[cursor + 1..];
    assert read + input[start..cursor] + [input[cursor]] == read + input[start..cursor + 1];
  }

  method SplitWord(input: string, startIndex: nat, buffer: Buffer) returns (r: Scanned)
    requires startIndex <= |input|
    modifies buffer
    ensures Scans(r, input, Unquoted(input[startIndex..], old(buffer.text)))
    decreases |input| - startIndex
  {
    ghost var read := buffer.text;
    var cursor := startIndex;
    assert read + input[startIndex..cursor] == read;
    while cursor < |input|
      invariant startIndex <= cursor <= |input| && buffer.text == read
      invariant Unquoted(input[startIndex..], read) == Unquoted(input[cursor..], read + input[startIndex..cursor])
    {
      var character := input[cursor];
      assert input[cursor..][1..] == input[cursor + 1..];
      if IsBlank(character) {
        buffer.WriteString(input[startIndex..cursor]);
        return Ok(buffer.text, cursor + 1);
      } else if character == '\"' {
        buffer.WriteString(input[startIndex..cursor]);
        r := HandleDoubleQuoted(input, cursor + 1, buffer);
        return;
      } else if character == '\'' {
        buffer.WriteString(input[startIndex..cursor]);
        r := HandleSingleQuoted(input, cursor + 1, buffer);
        return;
      } else if character == '\\' {
        buffer.WriteString(input[startIndex..cursor]);
        r := HandleEscaped(input, cursor + 1, buffer);
        return;
      }
      PlainRun(input, startIndex, cursor, read);
      cursor := cursor + 1;
    }
    buffer.WriteString(input[startIndex..]);
    assert input[startIndex..cursor] == input[startIndex..] && input[cursor..] == "";
    return Ok(buffer.text, |input|);
  }

  /** One character between double quotes, with the text from start on not yet written. */
  lemma DoubleRun(input: string, start: nat, cursor: nat, read: string)
    requires start <= cursor < |input| && input[cursor] != '\"' && input[cursor] != '\\'
    ensures DoubleQuoted(input[cursor..], read + input[start..cursor])
            == DoubleQuoted(input[cursor + 1..], read + input[start..cursor + 1])
  {
    assert input[cursor..][1..] == input[cursor + 1..];
    assert read + input[start..cursor] + [input[cursor]] == read + input[start..cursor + 1];
  }

  lemma DoubleEscape(input: string, start: nat, cursor: nat, read: string)
    requires start <= cursor && cursor + 1 < |input| && input[cursor] == '\\'
    ensures var escaped, text := input[cursor + 1], read + input[start..cursor];
            DoubleQuoted(input[cursor..], text)
            == DoubleQuoted(input[cursor + 2..], if escaped == '\n' then text
                                                 else if EscapedInDouble(escaped) then text + [escaped]
                                                 else read + input[start..cursor + 2])
  {
    assert input[cursor..][2..] == input[cursor + 2..];
    assert input[cursor..][..2] == input[cursor..cursor + 2];
    assert read + input[start..cursor] + input[cursor..cursor + 2] == read + input[start..cursor + 2];
  }

  lemma DoubleEnds(input: string, cursor: nat, text: string)
    requires cursor <= |input|
    ensures cursor == |input| || (cursor + 1 == |input| && input[cursor] == '\\') ==>
              DoubleQuoted(input[cursor..], text) == Bad(DoubleQuoteUnterminated)
    ensures cursor < |input| && input[cursor] == '\"' ==>
              DoubleQuoted(input[cursor..], text) == Unquoted(input[cursor + 1..], text)
  {
  }

  method HandleDoubleQuoted(input: string, startIndex: nat, buffer: Buffer) returns (r: Scanned)
    requires startIndex <= |input|
    modifies buffer
    ensures Scans(r, input, DoubleQuoted(input[startIndex..], old(buffer.text)))
    decreases |input| - startIndex
  {
    hide DoubleQuoted, Unquoted;
    ghost var all := DoubleQuoted(input[startIndex..], buffer.text);
    var start, cursor := startIndex, startIndex;
    assert buffer.text + input[start..cursor] == buffer.text;
    while cursor < |input|
      invariant startIndex <= start <= cursor <= |input|
      invariant all == DoubleQuoted(input[cursor..], buffer.text + input[start..cursor])
    {
      var character := input[cursor];
      DoubleEnds(input, cursor, buffer.text + input[start..cursor]);
      if character == '\"' {
        buffer.WriteString(input[start..cursor]);
        r := SplitWord(input, cursor + 1, buffer);
        return;
      } else if character == '\\' {
        if cursor + 1 == |input| {
          return Err(DoubleQuoteUnterminated);
        }
        var escaped := input[cursor + 1];
        DoubleEscape(input, start, cursor, buffer.text);
        cursor := cursor + 2;
        if EscapedInDouble(escaped) {
          buffer.WriteString(input[start..cursor - 2]);
          if escaped != '\n' {
            buffer.WriteString([escaped]);
          }
          start := cursor;
          assert buffer.text + input[start..cursor] == buffer.text;
        }
      } else {
        DoubleRun(input, start, cursor, buffer.text);
        cursor := cursor + 1;
      }
    }
    DoubleEnds(input, cursor, buffer.text + input[start..cursor]);
    return Err(DoubleQuoteUnterminated);
  }

  /** Index of the first single quote, or -1. */
  method IndexOfQuote(s: string) returns (i: int)
    ensures -1 <= i < |s|
    ensures i >= 0 ==> s[i] == '\'' && '\'' !in s[..i]
    ensures i == -1 ==> '\'' !in s
  {
    for k := 0 to |s|
      invariant '\'' !in s[..k]
    {
      if s[k] == '\'' {
        return k;
      }
    }
    return -1;
  }

  lemma {:induction false} SingleQuotedTo(s: string, i: nat, read: string)
    requires i <= |s| && '\'' !in s[..i]
    ensures SingleQuoted(s, read) == SingleQuoted(s[i..], read + s[..i])
    decreases i
  {
    if i == 0 {
      assert s[0..] == s && read + s[..0] == read;
    } else {
      assert s[0] == s[..i][0];
      assert forall c :: c in s[1..][..i - 1] ==> c in s[..i];
      SingleQuotedTo(s[1..], i - 1, read + [s[0]]);
      assert s[1..][i - 1..] == s[i..] && read + [s[0]] + s[1..][..i - 1] == read + s[..i];
    }
  }

  method HandleSingleQuoted(input: string, startIndex: nat, buffer: Buffer) returns (r: Scanned)
    requires startIndex <= |input|
    modifies buffer
    ensures Scans(r, input, SingleQuoted(input[startIndex..], old(buffer.text)))
    decreases |input| - startIndex
  {
    var quoted := input[startIndex..];
    var closingQuoteIndex := IndexOfQuote(quoted);
    if closingQuoteIndex == -1 {
      assert quoted[..|quoted|] == quoted;
      SingleQuotedTo(quoted, |quoted|, buffer.text);
      return Err(SingleQuoteUnterminated);
    }
    SingleQuotedTo(quoted, closingQuoteIndex, buffer.text);
    buffer.WriteString(quoted[..closingQuoteIndex]);
    assert quoted[closingQuoteIndex..][1..] == input[startIndex + closingQuoteIndex + 1..];
    r := SplitWord(input, startIndex + closingQuoteIndex + 1, buffer);
  }

  method HandleEscaped(input: string, startIndex: nat, buffer: Buffer) returns (r: Scanned)
    requires 0 < startIndex <= |input| && input[startIndex - 1] == '\\'
    modifies buffer
    ensures Scans(r, input, Unquoted(input[startIndex - 1..], old(buffer.text)))
    decreases |input| - startIndex
  {
    if startIndex == |input| {
      return Err(EscapeUnterminated);
    }
    assert input[startIndex - 1..][2..] == input[startIndex + 1..];
    if input[startIndex] != '\n' {
      buffer.WriteString([input[startIndex]]);
    }
    r := SplitWord(input, startIndex + 1, buffer);
  }

  method SplitCommand(command: string) returns (r: Outcome)
    ensures r == if command == "" then Failed(CommandEmpty) else Split(command, [])
  {
    if command == "" {
      return Failed(CommandEmpty);
    }
    var buffer := new Buffer();
    var words: seq<string> := [];
    var startIndex := 0;
    assert command[startIndex..] == command;
    while startIndex < |command|
      invariant startIndex <= |command|
      invariant Split(command, []) == Split(command[startIndex..], words)
    {
      var character := command[startIndex];
      assert command[startIndex..][1..] == command[startIndex + 1..];
      if IsBlank(character) {
        startIndex := startIndex + 1;
      } else if character == '\\' {
        if startIndex + 1 == |command| {
          return Failed(EscapeUnterminated);
        }
        if command[startIndex + 1] == '\n' {
          assert command[startIndex..][2..] == command[startIndex + 2..];
          startIndex := startIndex + 2;
        } else {
          return Diverges;     // nothing has changed, so this turn is repeated for ever
        }
      } else {
        buffer.Reset();
        RestIsShorter(command[startIndex..], "");
        var scanned := SplitWord(command, startIndex, buffer);
        if scanned.Err? {
          return Failed(scanned.error);
        }
        words := words + [scanned.word];
        startIndex := scanned.next;
      }
    }
    return Words(words);
  }
}
