/**
 Scripts of member-dragon: the streaming splitter in front of the parser.  A script, read
 statement by statement, yields its commands in order.
 */
module DragonScripts {
  import opened Options
  import opened CStrings
  import opened SqlText
  import opened Splitters
  import opened StreamSplitter
  import opened Commands
  import opened DragonGrammar
  import opened DragonTokens
  import opened DragonColumns
  import opened DragonRoundTrip
  import opened DragonPrinting
  import P = DragonParser
  import FileCodec

  // ---------- the main loop ----------

  function ParseAll(buffers: seq<string>): seq<Option<Command>> {
    if buffers == [] then [] else [ParseSql(buffers[0])] + ParseAll(buffers[1..])
  }

  /** The commands of a script, with None for each statement that is no command. */
  function ReadScript(text: string): seq<Option<Command>> {
    ParseAll(Buffers(text, STATEMENT_SIZE))
  }

  // ---------- statements between semicolons ----------

  /**
   The text of one statement of a script: it spells the command, with any blanks around it, no
   semicolon of it stands outside quotes, and with its own semicolon it fits the buffer.
   */
  ghost predicate Statement(text: string, cmd: Command) {
    Spelled(Trim(text), cmd) && Closed(';', text, false) && |text| + 1 < STATEMENT_SIZE
  }

  /** The texts with a semicolon behind each, and whatever stands behind the last one. */
  function Script(texts: seq<string>, tail: string): string {
    if texts == [] then tail else texts[0] + (";" + Script(texts[1..], tail))
  }

  /** The first statement of a text is what stands in front of its semicolon. */
  lemma {:induction false} StatementEnds(s: string, rest: string, inQuotes: bool)
    requires Closed(';', s, inQuotes)
    ensures StatementLength(s + (";" + rest), inQuotes) == |s| + 1 && Terminated(s + (";" + rest), inQuotes)
    decreases |s|
  {
    hide Closed;
    var text := s + (";" + rest);
    if s == [] {
      ClosedEnds(';', inQuotes);
      assert text == ";" + rest;
    } else {
      ClosedStep(';', s, inQuotes);
      assert text[1..] == s[1..] + (";" + rest);
      StatementEnds(s[1..], rest, if s[0] == '\'' then !inQuotes else inQuotes);
    }
  }

  /** One call of the splitter takes the first statement of a script. */
  lemma FirstBuffer(s: string, rest: string)
    requires Closed(';', s, false) && |s| + 1 < STATEMENT_SIZE
    ensures Buffers(s + (";" + rest), STATEMENT_SIZE) == [s + ";"] + Buffers(rest, STATEMENT_SIZE)
  {
    hide Blank, StatementLength, Terminated, Closed;
    var text := s + (";" + rest);
    StatementEnds(s, rest, false);
    assert text[..|s| + 1] == s + ";" && text[|s| + 1..] == rest;
  }

  /** The parts of a text: blanks, what is left when they are trimmed, and blanks again. */
  lemma TrimParts(s: string) returns (front: string, back: string)
    ensures s == front + Trim(s) + back && forall c <- front + back :: c in BLANKS
  {
    hide TrimLeft, TrimRight, BLANKS;
    TrimLeftSuffix(s);
    var t := TrimLeft(s);
    TrimRightPrefix(t);
    front, back := s[..|s| - |t|], t[|Trim(s)|..];
    assert s == front + t && t == Trim(s) + back;
    forall c | c in front + back ensures c in BLANKS {
      SpaceExactly(c);
    }
  }

  /** A closed text does not end in a semicolon, whatever blanks stand behind. */
  lemma ClosedEndsPlain(front: string, core: string, back: string)
    requires Closed(';', front + core + back, false) && core != [] && forall c <- front + back :: c in BLANKS
    ensures core[|core| - 1] != ';'
  {
    hide BLANKS;
    var s, k := front + core + back, |front| + |core| - 1;
    SpaceExactly('\'');
    assert s == s[..k] + (s[k..k + 1] + back) && s[k] == core[|core| - 1];
    EndsInQuotesSplit(s[..k], s[k..k + 1] + back, false);
    if s[k] == ';' {
      assert s[k..k + 1] + back == ";" + back;
      NoQuoteInside(";" + back, EndsInQuotes(s[..k], false));
    }
  }

  lemma {:induction false} NoQuoteInside(s: string, inQuotes: bool)
    requires '\'' !in s
    ensures EndsInQuotes(s, inQuotes) == inQuotes
  {
    if s != [] {
      NoQuoteInside(s[1..], inQuotes);
    }
  }

  /** The parser does not mind the blanks around a statement, nor its semicolon. */
  lemma StatementCleans(text: string)
    requires Closed(';', text, false)
    ensures Clean(text + ";") == Trim(text)
  {
    hide Closed, Trim, Clean, BLANKS;
    var front, back := TrimParts(text);
    var core := Trim(text);
    TrimEdges(text);
    if core != [] {
      ClosedEndsPlain(front, core, back);
    }
    assert front + back + "" == front + back;
    CleanExactly(front, core, back, ";", "");
    assert front + core + back + ";" + "" == text + ";" by {
      assert front + core + back == text;
    }
    assert forall c <- front + back + "" :: c in BLANKS;
  }

  lemma StatementReads(text: string, cmd: Command)
    requires Statement(text, cmd)
    ensures ParseSql(text + ";") == Some(cmd)
  {
    hide ParseSql, Spelled, Closed, Clean, Trim;
    StatementCleans(text);
    ParsesExactly(text + ";", cmd);
  }

  /**
   A script, split and parsed, gives back its commands in order, however each is spelled and
   whatever blanks and newlines stand between the statements and at the end.
   */
  lemma {:induction false} ScriptReadsBack(texts: seq<string>, cmds: seq<Command>, tail: string)
    requires |texts| == |cmds| && (forall i | 0 <= i < |cmds| :: Statement(texts[i], cmds[i]))
    requires forall c <- tail :: c in BLANKS
    ensures ReadScript(Script(texts, tail)) == seq(|cmds|, i requires 0 <= i < |cmds| => Some(cmds[i]))
    decreases |texts|
  {
    hide ParseSql, Spelled, Closed, Buffers, BLANKS;
    if cmds == [] {
      BlankTail(tail);
    } else {
      var s, rest := texts[0], Script(texts[1..], tail);
      ScriptReadsBack(texts[1..], cmds[1..], tail);
      StatementReads(s, cmds[0]);
      FirstBuffer(s, rest);
      var buffers := Buffers(rest, STATEMENT_SIZE);
      assert ([s + ";"] + buffers)[1..] == buffers;
      assert ReadScript(Script(texts, tail)) == [Some(cmds[0])] + ReadScript(rest);
    }
  }

  /** Blanks behind the last semicolon are no statement. */
  lemma BlankTail(tail: string)
    requires forall c <- tail :: c in BLANKS
    ensures ReadScript(tail) == []
  {
    hide BLANKS, StatementLength;
    forall c | c in tail ensures IsSpace(c) {
      SpaceExactly(c);
    }
    NotTerminatedIsAll(tail, false);
    BlankIsNotTerminated(tail);
    assert tail[..|tail|] == tail;
  }

  lemma {:induction false} BlankIsNotTerminated(s: string)
    requires Blank(s)
    ensures !Terminated(s, false)
  {
    if s != [] {
      assert s[0] in s;
      BlankIsNotTerminated(s[1..]);
    }
  }

  /**
   A statement that overruns the buffer is cut, and the rest of it is lost: if the cut falls
   into the blanks behind a complete command, that command is what the parser makes of it.
   */
  lemma CutStatementRuns(text: string, cmd: Command, blanks: string, rest: string)
    requires Spelled(Trim(text), cmd) && text != [] && text[|text| - 1] !in BLANKS && text[|text| - 1] != ';'
    requires (forall c <- blanks :: c in BLANKS) && |text| < STATEMENT_SIZE && |text| + |blanks| + 1 >= STATEMENT_SIZE
    ensures ParseSql(Buffered(text + blanks + rest, STATEMENT_SIZE)) == Some(cmd)
  {
    hide ParseSql, Spelled, Trim, Clean, BLANKS;
    var k := STATEMENT_SIZE - 1 - |text|;
    var cut := text + blanks[..k];
    assert Buffered(text + blanks + rest, STATEMENT_SIZE) == cut;
    var front, back := TrimParts(text);
    var core := Trim(text);
    TrimEdges(text);
    BlankEnd(text, front, core, back);
    assert text == front + core + "" == front + core;
    assert forall c <- front + blanks[..k] + "" :: c in BLANKS;
    CleanExactly(front, core, blanks[..k], "", "");
    assert front + core + blanks[..k] + "" + "" == cut;
    ParsesExactly(cut, cmd);
  }

  lemma BlankEnd(text: string, front: string, core: string, back: string)
    requires text == front + core + back && text != [] && text[|text| - 1] !in BLANKS
    requires forall c <- front + back :: c in BLANKS
    ensures back == [] && core != [] && core[|core| - 1] == text[|text| - 1]
  {
    hide BLANKS;
    BlankEdges(front, core, back);
  }

  lemma BlankEdges(front: string, core: string, back: string)
    requires forall c <- front + back :: c in BLANKS
    ensures forall i | 0 <= i < |front| :: (front + core + back)[i] in BLANKS
    ensures forall i | |front| + |core| <= i < |front + core + back| :: (front + core + back)[i] in BLANKS
  {
    hide BLANKS;
    var s, k := front + core + back, |front| + |core|;
    forall i | 0 <= i < |front| ensures s[i] in BLANKS {
      assert s[i] == front[i] && front[i] in front + back;
    }
    forall i | k <= i < |s| ensures s[i] in BLANKS {
      assert s[i] == back[i - k] && back[i - k] in front + back;
    }
  }

  // ---------- printed statements ----------

  lemma ClosedTogether(a: string, b: string)
    requires Closed(';', a, false) && Closed(';', b, false)
    ensures Closed(';', a + b, false)
  {
    EndsInQuotesSplit(a, b, false);
    forall k | 0 <= k < |a + b| && (a + b)[k] == ';' ensures EndsInQuotes((a + b)[..k], false) {
      if k < |a| {
        assert (a + b)[..k] == a[..k];
      } else {
        assert (a + b)[..k] == a + b[..k - |a|];
        EndsInQuotesSplit(a, b[..k - |a|], false);
      }
    }
  }

  lemma PlainIsClosed(s: string)
    requires '\'' !in s && ';' !in s
    ensures Closed(';', s, false)
  {
    NoQuoteInside(s, false);
  }

  lemma {:induction false} BodyIsClosed(v: string)
    ensures Closed(';', PrintBody(v, ""), true)
    decreases |v|
  {
    var s := PrintBody(v, "");
    if v == [] {
      assert s == "'" && s[..0] == [] && EndsInQuotes([], false) == false;
      assert !EndsInQuotes(s, true);
    } else {
      BodyIsClosed(v[1..]);
      var t := PrintBody(v[1..], "");
      ClosedInFront(s, if v[0] == '\'' then 2 else 1, t);
    }
  }

  lemma ClosedInFront(s: string, width: nat, t: string)
    requires 1 <= width <= 2 && width <= |s| && t == s[width..] && Closed(';', t, true)
    requires if width == 2 then s[0] == s[1] == '\'' else s[0] != '\''
    ensures Closed(';', s, true)
  {
    assert s == s[..width] + t;
    EndsInQuotesSplit(s[..width], t, true);
    QuotesToggleTwice(s[..width]);
    forall k | 0 <= k < |s| && s[k] == ';' ensures EndsInQuotes(s[..k], true) {
      if k >= width {
        assert s[..k] == s[..width] + t[..k - width] && t[k - width] == ';';
        EndsInQuotesSplit(s[..width], t[..k - width], true);
      } else {
        assert k == 0 && s[..0] == [];
      }
    }
  }

  lemma QuotesToggleTwice(front: string)
    requires front == "''" || (|front| == 1 && front[0] != '\'')
    ensures EndsInQuotes(front, true)
  {
    if front == "''" {
      assert front[1..] == "'" && front[1..][1..] == "";
    } else {
      assert front[1..] == "";
    }
  }

  lemma LiteralIsClosed(v: string)
    ensures Closed(';', PrintLiteral(v, ""), false)
  {
    var s, t := PrintLiteral(v, ""), PrintBody(v, "");
    BodyIsClosed(v);
    assert s[1..] == t;
    forall k | 0 <= k < |s| && s[k] == ';' ensures EndsInQuotes(s[..k], false) {
      assert t[k - 1] == ';' && s[..k] == "'" + t[..k - 1] && s[..k][1..] == t[..k - 1];
    }
  }

  lemma TokenIsClosed(token: Token, bare: string -> bool)
    requires Writable(token) && forall v: string | bare(v) :: '\'' !in v
    ensures Closed(';', TokenText(token, bare), false)
  {
    hide Closed, FileCodec.Decimal, PrintBody, IsWord;
    match token {
      case Val(v) =>
        if bare(v) && Bare(v) {
          PlainIsClosed(v);
        } else {
          LiteralIsClosed(v);
        }
      case Key(w) => WordIsPlain(w); PlainIsClosed(w);
      case Name(w) => WordIsPlain(w); PlainIsClosed(w);
      case Number(n) => PlainIsClosed(FileCodec.Decimal(n));
      case Oper(op) => PlainIsClosed(OperatorText(op));
      case Sign(x) => PlainIsClosed(x);
    }
  }

  lemma WordIsPlain(w: string)
    requires IsWord(w)
    ensures '\'' !in w && ';' !in w
  {
  }

  lemma {:induction false} TextIsClosed(tokens: seq<Token>, bare: string -> bool)
    requires AllWritable(tokens) && forall v: string | bare(v) :: '\'' !in v
    ensures Closed(';', Text(tokens, bare), false)
  {
    hide Closed, TokenText, Writable, AllWritable;
    PlainIsClosed("");
    if tokens != [] {
      TailWritten(tokens);
      TextIsClosed(tokens[1..], bare);
      TokenIsClosed(tokens[0], bare);
      PlainIsClosed(" ");
      ClosedTogether(TokenText(tokens[0], bare), Text(tokens[1..], bare));
      ClosedTogether(" ", TokenText(tokens[0], bare) + Text(tokens[1..], bare));
    }
  }

  /** No printed statement has a semicolon outside its literals, and its quotes balance. */
  lemma PrintIsWhole(cmd: Command, bare: string -> bool)
    requires Printable(cmd) && forall v: string | bare(v) :: '\'' !in v
    ensures Closed(';', Print(cmd, bare), false)
  {
    hide Closed, Printable, Tokens, AllWritable;
    TokensWritable(cmd);
    TextIsClosed(Tokens(cmd), bare);
  }

  // ---------- the loop of the main program ----------

  method ReadCommands(file: InputFile) returns (read: seq<Option<Command>>)
    requires file.Valid() && file.pos == 0 && NulFree(file.text)
    modifies file
    ensures read == ReadScript(file.text)
  {
    hide Buffers, ParseAll, ParseSql, Blank, Buffered, StatementLength, Terminated, Finished, P.CommandBuffer.Contents;
    read := [];
    var cmd := new P.CommandBuffer();
    var more := true;
    assert file.text[0..] == file.text;
    while more
      invariant file.Valid() && cmd.Valid() && fresh(cmd) && fresh(cmd.insertColumns) && fresh(cmd.values)
      invariant fresh(cmd.columns) && fresh(cmd.setClauses)
      invariant if more then read + ParseAll(Buffers(file.text[file.pos..], STATEMENT_SIZE)) == ReadScript(file.text)
                else read == ReadScript(file.text)
      decreases |file.text| - file.pos + (if more then 1 else 0), more
    {
      ghost var start := file.pos;
      var statement;
      more, statement := ReadNextStatement(file, STATEMENT_SIZE);
      ReadingStep(file.text, start, file.pos, statement, read);
      if more {
        var ok := cmd.ParseSql(statement);
        read := read + [if ok then Some(cmd.Contents()) else None];
      }
    }
  }

  /** What one call of the splitter leaves to be read. */
  lemma ReadingStep(text: string, start: nat, pos: nat, statement: string, read: seq<Option<Command>>)
    requires NulFree(text) && start <= pos <= |text|
    requires Finished(text, start, pos, statement, Terminated(text[start..], false), STATEMENT_SIZE)
    ensures NulFree(statement)
    ensures read + ParseAll(Buffers(text[start..], STATEMENT_SIZE))
         == if Terminated(text[start..], false) || !Blank(statement)
            then read + [ParseSql(statement)] + ParseAll(Buffers(text[pos..], STATEMENT_SIZE)) else read
    ensures Terminated(text[start..], false) || !Blank(statement) ==> start < pos
  {
    hide Buffers, ParseAll, ParseSql, Blank, StatementLength, Terminated;
    var rest := text[start..];
    BuffersStep(rest, statement);
    assert rest[pos - start..] == text[pos..];
    if Terminated(rest, false) || !Blank(statement) {
      var behind := ParseAll(Buffers(text[pos..], STATEMENT_SIZE));
      assert read + ([ParseSql(statement)] + behind) == read + [ParseSql(statement)] + behind;
    } else {
      assert read + [] == read;
    }
  }

  lemma BuffersStep(rest: string, statement: string)
    requires statement == Buffered(rest[..StatementLength(rest, false)], STATEMENT_SIZE)
    ensures var n := StatementLength(rest, false);
            if Terminated(rest, false) || !Blank(statement)
            then n > 0 && ParseAll(Buffers(rest, STATEMENT_SIZE))
                        == [ParseSql(statement)] + ParseAll(Buffers(rest[n..], STATEMENT_SIZE))
            else ParseAll(Buffers(rest, STATEMENT_SIZE)) == []
  {
    hide ParseSql, StatementLength, Blank;
    NotTerminatedIsAll(rest, false);
    NothingBlank(rest);
    var n := StatementLength(rest, false);
    var behind := Buffers(rest[n..], STATEMENT_SIZE);
    assert ([statement] + behind)[1..] == behind;
  }

  lemma NothingBlank(rest: string)
    ensures rest == [] ==> Blank(Buffered(rest, STATEMENT_SIZE)) && !Terminated(rest, false)
  {
  }
}
