/**
 The streaming splitter of member-dragon: one statement per call, with one character of
 pushback behind a closing quote.  The calls lose nothing of the file, and agree with
 the splitters that see the whole text.
 */
module StreamSplitter {
  import opened CStrings
  import opened SqlText
  import opened Splitters

  const STATEMENT_SIZE: nat := 8192

  /** How much of a text one statement takes: through its first semicolon outside quotes, else all of it. */
  function StatementLength(text: string, inQuotes: bool): (n: nat)
    ensures n <= |text|
    ensures text != [] ==> n > 0
  {
    if text == [] then 0
    else if text[0] == '\'' then 1 + StatementLength(text[1..], !inQuotes)
    else if text[0] == ';' && !inQuotes then 1
    else 1 + StatementLength(text[1..], inQuotes)
  }

  /** Whether the statement ended at a semicolon rather than at the end of the file. */
  function Terminated(text: string, inQuotes: bool): bool {
    if text == [] then false
    else if text[0] == '\'' then Terminated(text[1..], !inQuotes)
    else if text[0] == ';' && !inQuotes then true
    else Terminated(text[1..], inQuotes)
  }

  /** What the buffer keeps of a statement; the last byte is for the terminating NUL. */
  function Buffered(s: string, size: nat): string
    requires size > 0
  {
    if |s| < size then s else s[..size - 1]
  }

  class InputFile {
    const text: string
    var pos: nat

    constructor (text: string)
      ensures this.text == text && pos == 0 && Valid()
    {
      this.text, pos := text, 0;
    }

    predicate Valid()
      reads this
    {
      pos <= |text|
    }

    /** The next character, or None at the end of the file, again and again. */
    method GetChar() returns (c: char, eof: bool)
      requires Valid()
      modifies this
      ensures Valid()
      ensures if old(pos) < |text| then !eof && c == text[old(pos)] && pos == old(pos) + 1 else eof && pos == old(pos)
    {
      if pos < |text| {
        c, eof := text[pos], false;
        pos := pos + 1;
      } else {
        c, eof := '\0', true;
      }
    }
  }

  /** Store one character more: the buffer holds what has been read, as far as it fits. */
  method AppendStatementChar(buffer: string, size: nat, overflow: bool, c: char, ghost read: string)
    returns (r: string, full: bool)
    requires size > 0 && buffer == Buffered(read, size) && (overflow <==> |read| >= size)
    ensures r == Buffered(read + [c], size) && (full <==> |read + [c]| >= size)
  {
    if overflow {
      return buffer, true;
    }
    if |buffer| + 1 < size {
      return buffer + [c], false;
    }
    return buffer, true;
  }

  /** What has been read since `start` is buffered as far as it fits, and the rest decides how the statement ends. */
  predicate Reading(text: string, start: nat, read: nat, inQuotes: bool, buffer: string, overflow: bool, size: nat) {
    && size > 0 && start <= read <= |text|
    && buffer == Buffered(text[start..read], size) && (overflow <==> read - start >= size)
    && StatementLength(text[start..], false) == read - start + StatementLength(text[read..], inQuotes)
    && Terminated(text[start..], false) == Terminated(text[read..], inQuotes)
  }

  /** The statement has been read to its end. */
  predicate Finished(text: string, start: nat, pos: nat, buffer: string, terminated: bool, size: nat) {
    && size > 0 && start <= pos <= |text|
    && StatementLength(text[start..], false) == pos - start
    && buffer == Buffered(text[start..][..pos - start], size)
    && Terminated(text[start..], false) == terminated
  }

  lemma ReadingStarts(text: string, start: nat, size: nat)
    requires start <= |text| && size > 0
    ensures Reading(text, start, start, false, [], false, size)
  {
    assert text[start..start] == [];
  }

  /** One more character is read and stored. */
  lemma ReadingNext(text: string, start: nat, read: nat, inQuotes: bool, buffer: string, overflow: bool, size: nat)
    requires Reading(text, start, read, inQuotes, buffer, overflow, size) && read < |text|
    ensures buffer == Buffered(text[start..read], size) && (overflow <==> |text[start..read]| >= size)
    ensures var c, all := text[read], text[start..read] + [text[read]];
            var stored, full := Buffered(all, size), |all| >= size;
            if c == ';' && !inQuotes then Finished(text, start, read + 1, stored, true, size)
            else Reading(text, start, read + 1, if c == '\'' then !inQuotes else inQuotes, stored, full, size)
  {
    assert text[read..][0] == text[read] && text[read..][1..] == text[read + 1..];
    assert text[start..read] + [text[read]] == text[start..read + 1] == text[start..][..read + 1 - start];
  }

  lemma ReadingEnds(text: string, start: nat, inQuotes: bool, buffer: string, overflow: bool, size: nat)
    requires Reading(text, start, |text|, inQuotes, buffer, overflow, size)
    ensures Finished(text, start, |text|, buffer, false, size)
  {
    assert text[|text|..] == [] && text[start..] == text[start..][..|text| - start];
  }

  /**
   Read one statement.  The character behind a closing quote is pushed back and read again
   by this same call: when the call returns, nothing is pending.
   */
  method ReadNextStatement(file: InputFile, size: nat) returns (more: bool, buffer: string)
    requires file.Valid() && size > 0
    modifies file
    ensures file.Valid() && old(file.pos) <= file.pos
    ensures var rest := file.text[old(file.pos)..];
            && Finished(file.text, old(file.pos), file.pos, buffer, Terminated(rest, false), size)
            && (more <==> Terminated(rest, false) || !Blank(buffer))
  {
    hide Reading, Finished, Blank, Terminated, StatementLength, Buffered, EndsInQuotes;
    ghost var start := file.pos;
    var inQuote, overflow, pushed, pushedChar := false, false, false, '\0';
    var eof := false;
    buffer := [];
    ReadingStarts(file.text, start, size);
    while true
      invariant file.Valid() && start <= file.pos
      invariant pushed ==> start < file.pos && pushedChar == file.text[file.pos - 1] && pushedChar != '\''
      invariant Reading(file.text, start, file.pos - (if pushed then 1 else 0), inQuote, buffer, overflow, size)
      decreases |file.text| - file.pos + (if pushed then 1 else 0), pushed
    {
      ghost var read := file.pos - (if pushed then 1 else 0);
      var c;
      if pushed {
        c := pushedChar;
        pushed := false;
      } else {
        c, eof := file.GetChar();
      }
      if eof {
        ReadingEnds(file.text, start, inQuote, buffer, overflow, size);
        break;
      }
      ReadingNext(file.text, start, read, inQuote, buffer, overflow, size);
      buffer, overflow := AppendStatementChar(buffer, size, overflow, c, file.text[start..read]);
      if c == '\'' {
        if !inQuote {
          inQuote := true;
          continue;
        }
        ghost var behind := file.pos;
        var d, atEnd := file.GetChar();
        if !atEnd && d == '\'' {
          ReadingNext(file.text, start, behind, false, buffer, overflow, size);
          buffer, overflow := AppendStatementChar(buffer, size, overflow, d, file.text[start..behind]);
          continue;
        }
        inQuote := false;
        if !atEnd {
          pushed, pushedChar := true, d;
        }
        continue;
      }
      if !inQuote && c == ';' {
        break;
      }
    }
    assert !pushed;
    more := !(eof && Blank(buffer));
  }

  // ---------- all calls on a file ----------

  /** The buffers of successive calls, through the one that reports that nothing is left. */
  function AllReads(text: string, size: nat): seq<string>
    requires size > 0
    decreases |text|
  {
    var n := StatementLength(text, false);
    var buffer := Buffered(text[..n], size);
    if n == 0 || (!Terminated(text, false) && Blank(buffer)) then [buffer] else [buffer] + AllReads(text[n..], size)
  }

  /** The buffers that are handed to the parser. */
  function Buffers(text: string, size: nat): seq<string>
    requires size > 0
    decreases |text|
  {
    var n := StatementLength(text, false);
    var buffer := Buffered(text[..n], size);
    if n == 0 || (!Terminated(text, false) && Blank(buffer)) then [] else [buffer] + Buffers(text[n..], size)
  }

  /** The loop of the main program. */
  method ReadAllStatements(file: InputFile, size: nat) returns (buffers: seq<string>)
    requires file.Valid() && file.pos == 0 && size > 0
    modifies file
    ensures buffers == Buffers(file.text, size)
  {
    hide Buffered, Blank, Reading, StatementLength, Terminated;
    buffers := [];
    assert file.text[0..] == file.text;
    var more := true;
    while more
      invariant file.Valid()
      invariant if more then buffers + Buffers(file.text[file.pos..], size) == Buffers(file.text, size)
                else buffers == Buffers(file.text, size)
      decreases |file.text| - file.pos + (if more then 1 else 0), more
    {
      ghost var start := file.pos;
      ghost var rest := file.text[start..];
      var buffer;
      more, buffer := ReadNextStatement(file, size);
      assert rest[file.pos - start..] == file.text[file.pos..];
      if more {
        NothingIsBlank(rest, buffer, size);
        buffers := buffers + [buffer];
      }
    }
  }

  lemma NothingIsBlank(rest: string, buffer: string, size: nat)
    requires size > 0 && buffer == Buffered(rest[..StatementLength(rest, false)], size)
    requires Terminated(rest, false) || !Blank(buffer)
    ensures StatementLength(rest, false) > 0
  {
  }

  function Concat(pieces: seq<string>): string {
    if pieces == [] then [] else pieces[0] + Concat(pieces[1..])
  }

  /** Every statement of the text fits the buffer. */
  predicate ShortStatements(text: string, size: nat)
    decreases |text|
  {
    var n := StatementLength(text, false);
    n < size && (n == 0 || ShortStatements(text[n..], size))
  }

  /** The buffers of all calls, the first in front. */
  lemma ReadsFirst(text: string, size: nat)
    requires size > 0
    ensures var n := StatementLength(text, false);
            var buffer := Buffered(text[..n], size);
            var last := n == 0 || (!Terminated(text, false) && Blank(buffer));
            && Concat(AllReads(text, size)) == buffer + (if last then "" else Concat(AllReads(text[n..], size)))
            && (last ==> n == |text|)
  {
    hide Blank, StatementLength, Buffered;
    NotTerminatedIsAll(text, false);
    var n := StatementLength(text, false);
    var buffer, rest := Buffered(text[..n], size), AllReads(text[n..], size);
    assert ([buffer] + rest)[1..] == rest && [buffer][1..] == [];
  }

  /** The calls never store more than the file holds, and less if a statement overruns the buffer. */
  lemma {:induction false} ReadsLength(text: string, size: nat)
    requires size > 0
    ensures |Concat(AllReads(text, size))| <= |text|
    ensures |Concat(AllReads(text, size))| == |text| ==> ShortStatements(text, size)
    decreases |text|
  {
    hide Blank, StatementLength, Terminated;
    var n := StatementLength(text, false);
    ReadsFirst(text, size);
    NothingIsShort(size);
    if n > 0 {
      ReadsLength(text[n..], size);
    } else {
      NotTerminatedIsAll(text, false);
    }
  }

  lemma NothingIsShort(size: nat)
    requires size > 0
    ensures ShortStatements("", size)
  {
  }

  /**
   Nothing of the file is lost or read twice, the buffers of all calls make up the file, if
   and only if every statement fits the buffer.
   */
  lemma {:induction false} StreamConserves(text: string, size: nat)
    requires size > 0
    ensures Concat(AllReads(text, size)) == text <==> ShortStatements(text, size)
    decreases |text|
  {
    hide Blank, StatementLength, Terminated, AllReads, Concat;
    ReadsLength(text, size);
    if ShortStatements(text, size) {
      var n := StatementLength(text, false);
      ReadsFirst(text, size);
      assert text == text[..n] + text[n..];
      if n > 0 {
        StreamConserves(text[n..], size);
      } else {
        NotTerminatedIsAll(text, false);
      }
    }
  }

  lemma {:induction false} NotTerminatedIsAll(text: string, inQuotes: bool)
    ensures !Terminated(text, inQuotes) ==> StatementLength(text, inQuotes) == |text|
    ensures Terminated(text, inQuotes) ==> text[StatementLength(text, inQuotes) - 1] == ';'
    ensures StatementLength(text, inQuotes) == 0 <==> text == []
  {
    if text != [] && !(text[0] == ';' && !inQuotes) {
      var q := if text[0] == '\'' then !inQuotes else inQuotes;
      NotTerminatedIsAll(text[1..], q);
      if Terminated(text[1..], q) {
        assert text[1..][StatementLength(text[1..], q) - 1] == ';';
      }
    }
  }

  /** A statement ends at its first semicolon outside quotes: none stands before it. */
  lemma {:induction false} EndsAtFirstSemicolon(text: string, inQuotes: bool, k: nat)
    requires k < StatementLength(text, inQuotes) && text[k] == ';'
    ensures EndsInQuotes(text[..k], inQuotes)
       <==> !(Terminated(text, inQuotes) && k == StatementLength(text, inQuotes) - 1)
  {
    if k > 0 {
      assert text[..k][0] == text[0] && text[..k][1..] == text[1..][..k - 1];
      EndsAtFirstSemicolon(text[1..], if text[0] == '\'' then !inQuotes else inQuotes, k - 1);
    } else {
      assert text[..0] == [];
      NotTerminatedIsAll(text[1..], inQuotes);
    }
  }

  // ---------- agreement with the splitters that see the whole text ----------

  lemma PieceText(text: string, piece: string, n: nat)
    requires n < |text|
    ensures text[1..][n..] == text[n + 1..] && piece + [text[0]] + text[1..] == piece + text
    ensures n > 0 ==> piece + [text[0]] + text[1..][..n - 1] == piece + text[..n]
  {
  }

  lemma {:induction false} PiecesOfStatement(text: string, inQuotes: bool, piece: string)
    ensures var n := StatementLength(text, inQuotes);
            Pieces(';', text, inQuotes, piece)
            == if Terminated(text, inQuotes)
                then [piece + text[..n - 1]] + Pieces(';', text[n..], false, []) else [piece + text]
    decreases |text|
  {
    if text == [] {
      assert piece + text == piece;
    } else if text[0] == ';' && !inQuotes {
      assert piece + text[..0] == piece;
    } else {
      var q := if text[0] == '\'' then !inQuotes else inQuotes;
      var n := StatementLength(text[1..], q);
      PiecesOfStatement(text[1..], q, piece + [text[0]]);
      NotTerminatedIsAll(text[1..], q);
      PieceText(text, piece, n);
    }
  }

  lemma {:induction false} EndsInQuotesSplit(a: string, b: string, inQuotes: bool)
    ensures EndsInQuotes(a + b, inQuotes) == EndsInQuotes(b, EndsInQuotes(a, inQuotes))
  {
    if a == [] {
      assert a + b == b;
    } else {
      assert (a + b)[1..] == a[1..] + b;
      EndsInQuotesSplit(a[1..], b, if a[0] == '\'' then !inQuotes else inQuotes);
    }
  }

  /** A terminated statement closes its literals. */
  lemma TerminatedIsBalanced(text: string)
    requires Terminated(text, false)
    ensures var n := StatementLength(text, false);
            Balanced(text[..n]) && EndsInQuotes(text, false) == EndsInQuotes(text[n..], false)
  {
    var n := StatementLength(text, false);
    NotTerminatedIsAll(text, false);
    EndsAtFirstSemicolon(text, false, n - 1);
    assert text[..n] == text[..n - 1] + ";";
    EndsInQuotesSplit(text[..n - 1], ";", false);
    SemicolonKeepsQuotes(false);
    assert text == text[..n] + text[n..];
    EndsInQuotesSplit(text[..n], text[n..], false);
  }

  /** Without the semicolon it ends in. */
  function WithoutTerminator(s: string): string {
    if s != [] && s[|s| - 1] == ';' then s[..|s| - 1] else s
  }

  function WithoutTerminators(buffers: seq<string>): seq<string> {
    if buffers == [] then [] else [WithoutTerminator(buffers[0])] + WithoutTerminators(buffers[1..])
  }

  /** A balanced rest without a terminator does not end in a semicolon. */
  lemma RestHasNoTerminator(text: string)
    requires Balanced(text) && !Terminated(text, false)
    ensures WithoutTerminator(text) == text
  {
    if text != [] && text[|text| - 1] == ';' {
      var k := |text| - 1;
      SemicolonKeepsQuotes(true);
      NotTerminatedIsAll(text, false);
      assert text == text[..k] + ";";
      EndsInQuotesSplit(text[..k], ";", false);
      EndsAtFirstSemicolon(text, false, k);
    }
  }

  lemma SemicolonKeepsQuotes(inQuotes: bool)
    ensures EndsInQuotes(";", inQuotes) == inQuotes
  {
    assert EndsInQuotes(";", inQuotes) == EndsInQuotes([], inQuotes);
  }

  lemma {:induction false} BlankTrims(s: string)
    ensures Trim(s) == [] <==> Blank(s)
  {
    if s != [] {
      if IsSpace(s[0]) {
        BlankTrims(s[1..]);
        assert s == [s[0]] + s[1..];
      } else {
        assert TrimLeft(s) == s;
        TrimRightKeepsFirst(s);
      }
    }
  }

  lemma {:induction false} TrimRightKeepsFirst(s: string)
    requires s != [] && !IsSpace(s[0])
    ensures TrimRight(s) != []
  {
    if IsSpace(s[|s| - 1]) {
      TrimRightKeepsFirst(s[..|s| - 1]);
    }
  }

  /**
   For a text whose quotes balance and whose statements fit the buffer, the streaming
   splitter finds the same statements, once terminators and blanks are stripped.
   */
  lemma {:induction false} StreamAgrees(text: string, size: nat)
    requires size > 0 && Balanced(text) && ShortStatements(text, size)
    ensures Kept(WithoutTerminators(Buffers(text, size))) == Statements(text)
    decreases |text|
  {
    hide Blank, StatementLength, Trim, EndsInQuotes, Terminated, Pieces, Kept;
    var n := StatementLength(text, false);
    NotTerminatedIsAll(text, false);
    PiecesOfStatement(text, false, []);
    if Terminated(text, false) {
      TerminatedIsBalanced(text);
      StreamAgrees(text[n..], size);
      var rest := Buffers(text[n..], size);
      assert ([text[..n]] + rest)[1..] == rest;
      assert [] + text[..n - 1] == text[..n - 1] == WithoutTerminator(text[..n]);
      KeptFirst(text[..n - 1], WithoutTerminators(rest));
      KeptFirst(text[..n - 1], Pieces(';', text[n..], false, []));
    } else {
      LastStatement(text, size);
    }
  }

  lemma LastStatement(text: string, size: nat)
    requires size > 0 && Balanced(text) && ShortStatements(text, size) && !Terminated(text, false)
    ensures Kept(WithoutTerminators(Buffers(text, size))) == Statements(text)
  {
    hide StatementLength, Trim, EndsInQuotes, Terminated;
    NotTerminatedIsAll(text, false);
    PiecesOfStatement(text, false, []);
    BlankTrims(text);
    RestHasNoTerminator(text);
    assert text[..|text|] == text && [] + text == text && text[|text|..] == [];
    EmptyText(size);
    if !Blank(text) {
      assert Buffers(text, size) == [text] + [];
      assert WithoutTerminators([text]) == [text] + WithoutTerminators([text][1..]);
    }
  }

  lemma EmptyText(size: nat)
    requires size > 0
    ensures Buffers([], size) == [] && StatementLength([], false) == 0
  {
  }
}
