/**
 Cutting an SQL text into statements at the semicolons outside quotes.  Four programs
 treat the doubled quote inside a literal by different mechanisms; they agree.
 */
module Splitters {
  import opened CStrings
  import opened SqlText

  // ---------- the meaning: quotes toggle, semicolons outside quotes cut ----------

  /** The raw pieces of a text, the first of which begins with `piece`. */
  function Pieces(cut: char, text: string, inQuotes: bool, piece: string): (r: seq<string>)
    ensures r != []
    decreases |text|
  {
    if text == [] then [piece]
    else if text[0] == '\'' then Pieces(cut, text[1..], !inQuotes, piece + [text[0]])
    else if text[0] == cut && !inQuotes then [piece] + Pieces(cut, text[1..], false, [])
    else Pieces(cut, text[1..], inQuotes, piece + [text[0]])
  }

  /** The trimmed pieces that are not blank. */
  function Kept(pieces: seq<string>): seq<string> {
    if pieces == [] then []
    else (if Trim(pieces[0]) == [] then [] else [Trim(pieces[0])]) + Kept(pieces[1..])
  }

  function Statements(text: string): seq<string> {
    Kept(Pieces(';', text, false, []))
  }

  /** The quote state at the end of a text. */
  function EndsInQuotes(text: string, inQuotes: bool): bool {
    if text == [] then inQuotes
    else EndsInQuotes(text[1..], if text[0] == '\'' then !inQuotes else inQuotes)
  }

  predicate Balanced(text: string) {
    !EndsInQuotes(text, false)
  }

  lemma KeptFirst(piece: string, rest: seq<string>)
    ensures Kept([piece] + rest) == (if Trim(piece) == [] then [] else [Trim(piece)]) + Kept(rest)
  {
    assert ([piece] + rest)[1..] == rest;
  }

  /** A doubled quote inside a literal toggles twice, which is skipping both. */
  lemma DoubledQuote(cut: char, text: string, inQuotes: bool, piece: string)
    requires 2 <= |text| && text[0] == '\'' && text[1] == '\''
    ensures Pieces(cut, text, inQuotes, piece) == Pieces(cut, text[2..], inQuotes, piece + text[..2])
    ensures EndsInQuotes(text, inQuotes) == EndsInQuotes(text[2..], inQuotes)
  {
    assert text[1..][0] == '\'' && text[1..][1..] == text[2..];
    assert piece + [text[0]] + [text[1]] == piece + text[..2];
  }

  /** One step of a splitter at position i of the text, with its current piece starting at `start`. */
  lemma PieceStep(cut: char, text: string, start: nat, i: nat, inQuotes: bool)
    requires start <= i < |text|
    ensures Pieces(cut, text[i..], inQuotes, text[start..i])
         == if text[i] == '\'' then Pieces(cut, text[i + 1..], !inQuotes, text[start..i + 1])
            else if text[i] == cut && !inQuotes
            then [text[start..i]] + Pieces(cut, text[i + 1..], false, text[i + 1..i + 1])
            else Pieces(cut, text[i + 1..], inQuotes, text[start..i + 1])
    ensures EndsInQuotes(text[i..], inQuotes)
         == EndsInQuotes(text[i + 1..], if text[i] == '\'' then !inQuotes else inQuotes)
  {
    assert text[i..][0] == text[i] && text[i..][1..] == text[i + 1..];
    assert text[start..i] + [text[i]] == text[start..i + 1];
    assert text[i + 1..i + 1] == [];
  }

  /** A step over a doubled quote. */
  lemma DoubledStep(cut: char, text: string, start: nat, i: nat, inQuotes: bool)
    requires start <= i && i + 1 < |text| && text[i] == '\'' && text[i + 1] == '\''
    ensures Pieces(cut, text[i..], inQuotes, text[start..i]) == Pieces(cut, text[i + 2..], inQuotes, text[start..i + 2])
    ensures EndsInQuotes(text[i..], inQuotes) == EndsInQuotes(text[i + 2..], inQuotes)
  {
    DoubledQuote(cut, text[i..], inQuotes, text[start..i]);
    assert text[i..][2..] == text[i + 2..] && text[start..i] + text[i..][..2] == text[start..i + 2];
  }

  // ---------- what the statements are ----------

  /** In quotes is where the number of quotes before is odd. */
  lemma {:induction false} QuotesExactly(text: string, inQuotes: bool)
    ensures EndsInQuotes(text, inQuotes) <==> (multiset(text)['\''] % 2 == 1) != inQuotes
  {
    if text != [] {
      QuotesExactly(text[1..], if text[0] == '\'' then !inQuotes else inQuotes);
      assert text == [text[0]] + text[1..];
    }
  }

  /** No statement is empty, or begins or ends with a blank. */
  lemma {:induction false} KeptEdges(pieces: seq<string>)
    ensures forall s <- Kept(pieces) :: s != [] && s[0] !in BLANKS && s[|s| - 1] !in BLANKS
  {
    hide Trim;
    if pieces != [] {
      KeptEdges(pieces[1..]);
      TrimEdges(pieces[0]);
    }
  }

  lemma StatementsAreTrimmed(text: string)
    ensures forall s <- Statements(text) :: s != [] && s[0] !in BLANKS && s[|s| - 1] !in BLANKS
  {
    KeptEdges(Pieces(';', text, false, []));
  }

  /** Every cutting character stands inside quotes. */
  ghost predicate Uncut(cut: char, s: string, inQuotes: bool) {
    forall k | 0 <= k < |s| && s[k] == cut :: EndsInQuotes(s[..k], inQuotes)
  }

  /** So it does, and the quotes balance. */
  ghost predicate Closed(cut: char, s: string, inQuotes: bool) {
    !EndsInQuotes(s, inQuotes) && Uncut(cut, s, inQuotes)
  }

  /** These texts, with the cutting character between them. */
  function Joined(cut: char, pieces: seq<string>): string
    requires pieces != []
  {
    if |pieces| == 1 then pieces[0] else pieces[0] + ([cut] + Joined(cut, pieces[1..]))
  }

  /** Pieces of a text: only the last one may end inside quotes. */
  ghost predicate ArePieces(cut: char, pieces: seq<string>) {
    && pieces != [] && Uncut(cut, pieces[|pieces| - 1], false)
    && forall i | 0 <= i < |pieces| - 1 :: Closed(cut, pieces[i], false)
  }

  lemma UncutStep(cut: char, s: string, inQuotes: bool)
    requires s != []
    ensures Uncut(cut, s, inQuotes)
       <==> Uncut(cut, s[1..], if s[0] == '\'' then !inQuotes else inQuotes) && (s[0] == cut ==> inQuotes)
  {
    var q := if s[0] == '\'' then !inQuotes else inQuotes;
    assert s[..0] == [];
    forall k | 0 <= k < |s| - 1
      ensures s[k + 1] == s[1..][k] && EndsInQuotes(s[..k + 1], inQuotes) == EndsInQuotes(s[1..][..k], q)
    {
      assert s[..k + 1] == [s[0]] + s[1..][..k];
    }
  }

  lemma ClosedStep(cut: char, s: string, inQuotes: bool)
    requires s != []
    ensures Closed(cut, s, inQuotes)
       <==> Closed(cut, s[1..], if s[0] == '\'' then !inQuotes else inQuotes) && (s[0] == cut ==> inQuotes)
  {
    hide Uncut;
    UncutStep(cut, s, inQuotes);
  }

  lemma ClosedEnds(cut: char, inQuotes: bool)
    ensures Closed(cut, [], inQuotes) <==> !inQuotes
    ensures Uncut(cut, [], inQuotes)
  {
  }

  lemma PiecesStep(cut: char, text: string, inQuotes: bool, piece: string)
    ensures text == [] ==> Pieces(cut, text, inQuotes, piece) == [piece]
    ensures text != [] ==>
              Pieces(cut, text, inQuotes, piece)
              == if text[0] == '\'' then Pieces(cut, text[1..], !inQuotes, piece + [text[0]])
                 else if text[0] == cut && !inQuotes then [piece] + Pieces(cut, text[1..], false, [])
                 else Pieces(cut, text[1..], inQuotes, piece + [text[0]])
  {
  }

  lemma {:induction false} ClosedPassed(cut: char, s: string, rest: string, inQuotes: bool, piece: string)
    requires Closed(cut, s, inQuotes)
    ensures Pieces(cut, s + rest, inQuotes, piece) == Pieces(cut, rest, false, piece + s)
    decreases |s|
  {
    hide Closed, Pieces;
    ClosedEnds(cut, inQuotes);
    if s == [] {
      assert s + rest == rest && piece + s == piece;
    } else {
      ClosedStep(cut, s, inQuotes);
      assert (s + rest)[1..] == s[1..] + rest && piece + [s[0]] + s[1..] == piece + s;
      ClosedPassed(cut, s[1..], rest, if s[0] == '\'' then !inQuotes else inQuotes, piece + [s[0]]);
      PiecesStep(cut, s + rest, inQuotes, piece);
    }
  }

  lemma {:induction false} UncutPassed(cut: char, s: string, inQuotes: bool, piece: string)
    requires Uncut(cut, s, inQuotes)
    ensures Pieces(cut, s, inQuotes, piece) == [piece + s]
    decreases |s|
  {
    hide Uncut, Pieces;
    PiecesStep(cut, s, inQuotes, piece);
    if s == [] {
      assert piece + s == piece;
    } else {
      UncutStep(cut, s, inQuotes);
      assert piece + [s[0]] + s[1..] == piece + s;
      UncutPassed(cut, s[1..], if s[0] == '\'' then !inQuotes else inQuotes, piece + [s[0]]);
    }
  }

  /** Cutting undoes joining. */
  lemma {:induction false} CutUndoesJoin(cut: char, pieces: seq<string>)
    requires ArePieces(cut, pieces) && cut != '\''
    ensures Pieces(cut, Joined(cut, pieces), false, []) == pieces
    decreases |pieces|
  {
    hide Closed, Uncut, Pieces;
    assert [] + pieces[0] == pieces[0] && pieces == [pieces[0]] + pieces[1..];
    if |pieces| == 1 {
      UncutPassed(cut, pieces[0], false, []);
    } else {
      var rest := Joined(cut, pieces[1..]);
      CutUndoesJoin(cut, pieces[1..]);
      ClosedPassed(cut, pieces[0], [cut] + rest, false, []);
      assert ([cut] + rest)[1..] == rest;
      PiecesStep(cut, [cut] + rest, false, pieces[0]);
    }
  }

  /** The first piece without what was there before the text. */
  function Fresh(pieces: seq<string>, piece: string): seq<string>
    requires pieces != [] && piece <= pieces[0]
  {
    [pieces[0][|piece|..]] + pieces[1..]
  }

  /** The same, where the first piece may begin inside quotes. */
  ghost predicate ArePiecesFrom(cut: char, pieces: seq<string>, inQuotes: bool) {
    && pieces != []
    && if |pieces| == 1 then Uncut(cut, pieces[0], inQuotes)
       else Closed(cut, pieces[0], inQuotes) && ArePieces(cut, pieces[1..])
  }

  lemma {:induction false} JoinUndoesCut(cut: char, text: string, inQuotes: bool, piece: string)
    requires cut != '\''
    ensures var pieces := Pieces(cut, text, inQuotes, piece);
            && piece <= pieces[0] && Joined(cut, Fresh(pieces, piece)) == text
            && ArePiecesFrom(cut, Fresh(pieces, piece), inQuotes)
    decreases |text|
  {
    hide Closed, Uncut, Pieces;
    PiecesStep(cut, text, inQuotes, piece);
    ClosedEnds(cut, inQuotes);
    if text != [] {
      var rest := text[1..];
      if text[0] == cut && !inQuotes {
        var pieces := Pieces(cut, rest, false, []);
        JoinUndoesCut(cut, rest, false, []);
        assert Fresh(pieces, []) == pieces;
        assert ([piece] + pieces)[1..] == pieces && piece[|piece|..] == [];
        FromOutside(cut, pieces);
      } else {
        var q := if text[0] == '\'' then !inQuotes else inQuotes;
        JoinUndoesCut(cut, rest, q, piece + [text[0]]);
        PieceGrows(cut, Pieces(cut, rest, q, piece + [text[0]]), piece, text[0], inQuotes);
      }
    }
  }

  lemma FromOutside(cut: char, pieces: seq<string>)
    ensures ArePiecesFrom(cut, pieces, false) <==> ArePieces(cut, pieces)
  {
    hide Uncut, EndsInQuotes;
    if |pieces| > 1 {
      assert pieces == [pieces[0]] + pieces[1..];
    }
  }

  lemma PieceGrows(cut: char, pieces: seq<string>, piece: string, c: char, inQuotes: bool)
    requires pieces != [] && piece + [c] <= pieces[0] && (c == cut ==> inQuotes)
    requires ArePiecesFrom(cut, Fresh(pieces, piece + [c]), if c == '\'' then !inQuotes else inQuotes)
    ensures piece <= pieces[0] && ArePiecesFrom(cut, Fresh(pieces, piece), inQuotes)
    ensures Joined(cut, Fresh(pieces, piece)) == [c] + Joined(cut, Fresh(pieces, piece + [c]))
  {
    hide Closed, Uncut;
    var x := pieces[0][|piece|..];
    assert pieces[0][..|piece| + 1] == piece + [c];
    assert pieces[0][..|piece|] == pieces[0][..|piece| + 1][..|piece|] == piece;
    assert x[0] == pieces[0][..|piece| + 1][|piece|] == c && x[1..] == pieces[0][|piece| + 1..];
    UncutStep(cut, x, inQuotes);
    ClosedStep(cut, x, inQuotes);
    assert x == [c] + x[1..];
  }

  /** The pieces are the one way to cut a text at the cutting characters outside quotes, and there only. */
  lemma PiecesExactly(cut: char, text: string, pieces: seq<string>)
    requires cut != '\''
    ensures Pieces(cut, text, false, []) == pieces <==> ArePieces(cut, pieces) && Joined(cut, pieces) == text
  {
    hide Closed, Uncut, Pieces, Joined;
    var r := Pieces(cut, text, false, []);
    JoinUndoesCut(cut, text, false, []);
    assert Fresh(r, []) == r;
    FromOutside(cut, r);
    if ArePieces(cut, pieces) && Joined(cut, pieces) == text {
      CutUndoesJoin(cut, pieces);
    }
  }

  /** The statements are the texts between the semicolons, trimmed, and the blank ones left out. */
  lemma {:induction false} SplitUndoesJoin(pieces: seq<string>)
    requires ArePieces(';', pieces)
    ensures Statements(Joined(';', pieces)) == Kept(pieces)
    ensures (forall i | 0 <= i < |pieces| :: Trim(pieces[i]) != []) ==>
              |Kept(pieces)| == |pieces| && forall i | 0 <= i < |pieces| :: Kept(pieces)[i] == Trim(pieces[i])
  {
    hide ArePieces, Pieces, Trim, Kept;
    CutUndoesJoin(';', pieces);
    if forall i | 0 <= i < |pieces| :: Trim(pieces[i]) != [] {
      KeptAll(pieces);
    }
  }

  lemma {:induction false} KeptAll(pieces: seq<string>)
    requires forall i | 0 <= i < |pieces| :: Trim(pieces[i]) != []
    ensures |Kept(pieces)| == |pieces| && forall i | 0 <= i < |pieces| :: Kept(pieces)[i] == Trim(pieces[i])
  {
    hide Trim;
    if pieces != [] {
      KeptAll(pieces[1..]);
    }
  }

  /** Append a piece to the list of statements, unless it is blank. */
  method AppendStatement(list: seq<string>, piece: string) returns (r: seq<string>)
    ensures r == list + if Trim(piece) == [] then [] else [Trim(piece)]
  {
    var trimmed := Trim(piece);
    if trimmed == [] {
      return list;
    }
    return list + [trimmed];
  }

  /** A list of statements grows by a piece that is complete. */
  lemma ListGrows(list: seq<string>, piece: string, rest: seq<string>)
    ensures list + Kept([piece] + rest)
         == (list + if Trim(piece) == [] then [] else [Trim(piece)]) + Kept(rest)
  {
    hide Trim, Kept;
    KeptFirst(piece, rest);
  }

  lemma AtStart(text: string)
    ensures [] + Kept(Pieces(';', text[0..], false, text[0..0])) == Statements(text)
  {
    hide Kept, Pieces;
    assert text[0..] == text && text[0..0] == [];
  }

  /** At the end of the text the current piece is the last one. */
  lemma LastPiece(list: seq<string>, text: string, start: nat, inQuotes: bool)
    requires start <= |text|
    ensures list + Kept(Pieces(';', text[|text|..], inQuotes, text[start..|text|]))
         == list + if Trim(text[start..]) == [] then [] else [Trim(text[start..])]
  {
    hide Trim;
    var piece := text[start..];
    KeptFirst(piece, []);
    assert [piece] + [] == [piece] && text[|text|..] == [] && text[start..|text|] == piece;
  }

  // ---------- member-hyeonok: every quote toggles ----------

  method SplitByToggling(text: string) returns (list: seq<string>)
    ensures list == Statements(text)
  {
    hide Trim, Pieces, Kept, Statements;
    list := [];
    var segmentStart, cursor, inSingleQuote := 0, 0, false;
    AtStart(text);
    while cursor < |text|
      invariant segmentStart <= cursor <= |text|
      invariant list + Kept(Pieces(';', text[cursor..], inSingleQuote, text[segmentStart..cursor])) == Statements(text)
    {
      PieceStep(';', text, segmentStart, cursor, inSingleQuote);
      if text[cursor] == '\'' {
        inSingleQuote := !inSingleQuote;
        cursor := cursor + 1;
        continue;
      }
      if text[cursor] == ';' && !inSingleQuote {
        ListGrows(list, text[segmentStart..cursor],
                  Pieces(';', text[cursor + 1..], false, text[cursor + 1..cursor + 1]));
        list := AppendStatement(list, text[segmentStart..cursor]);
        segmentStart := cursor + 1;
      }
      cursor := cursor + 1;
    }
    LastPiece(list, text, segmentStart, inSingleQuote);
    list := AppendStatement(list, text[segmentStart..]);
  }

  // ---------- member-jiun: a doubled quote inside a literal is skipped ----------

  method SplitStatements(sql: string) returns (out: seq<string>)
    ensures out == Statements(sql)
  {
    hide Trim, Pieces, Kept, Statements;
    out := [];
    var n, start, inQuote := |sql|, 0, false;
    var i := 0;
    AtStart(sql);
    while i < n
      invariant start <= i <= n
      invariant out + Kept(Pieces(';', sql[i..], inQuote, sql[start..i])) == Statements(sql)
    {
      if sql[i] == '\'' && inQuote && i + 1 < n && sql[i + 1] == '\'' {
        DoubledStep(';', sql, start, i, inQuote);
        i := i + 2;
        continue;
      }
      PieceStep(';', sql, start, i, inQuote);
      if sql[i] == '\'' {
        inQuote := !inQuote;
        i := i + 1;
        continue;
      }
      if sql[i] == ';' && !inQuote {
        ListGrows(out, sql[start..i], Pieces(';', sql[i + 1..], false, sql[i + 1..i + 1]));
        out := AppendStatement(out, sql[start..i]);
        start := i + 1;
      }
      i := i + 1;
    }
    LastPiece(out, sql, start, inQuote);
    TrimNothing();
    assert sql[n..] == [];
    if start < n {
      out := AppendStatement(out, sql[start..]);
    }
  }

  lemma TrimNothing()
    ensures Trim([]) == []
  {
  }

  // ---------- member-jihyun: the same skip, and an error if the text ends inside a literal ----------

  method SplitSqlStatements(text: string) returns (ok: bool, statements: seq<string>)
    requires NulFree(text)
    ensures statements == Statements(text)
    ensures ok <==> Balanced(text)
  {
    hide Trim, Pieces, Kept, Statements, EndsInQuotes, At;
    statements := [];
    var statementStart, inQuotes, index := 0, false, 0;
    AtStart(text);
    assert text[0..] == text;
    while true
      invariant statementStart <= index <= |text|
      invariant statements + Kept(Pieces(';', text[index..], inQuotes, text[statementStart..index])) == Statements(text)
      invariant EndsInQuotes(text[index..], inQuotes) == EndsInQuotes(text, false)
      decreases |text| - index
    {
      AtIs(text, index);
      AtIs(text, index + 1);
      var current := At(text, index);
      if current == '\'' && inQuotes && At(text, index + 1) == '\'' {
        DoubledStep(';', text, statementStart, index, inQuotes);
        index := index + 2;
        continue;
      }
      if index < |text| {
        PieceStep(';', text, statementStart, index, inQuotes);
      }
      if current == '\'' {
        inQuotes := !inQuotes;
      }
      if (current == ';' && !inQuotes) || current == '\0' {
        if current == '\0' {
          LastPiece(statements, text, statementStart, inQuotes);
          assert text[statementStart..] == text[statementStart..index];
          statements := AppendStatement(statements, text[statementStart..index]);
          break;
        }
        ListGrows(statements, text[statementStart..index],
                  Pieces(';', text[index + 1..], false, text[index + 1..index + 1]));
        statements := AppendStatement(statements, text[statementStart..index]);
        statementStart := index + 1;
      }
      index := index + 1;
    }
    assert text[index..] == [];
    NoQuotesLeft(inQuotes);
    ok := !inQuotes;
  }

  /** In a string without NULs, the NUL is its end. */
  lemma AtIs(text: string, i: nat)
    requires NulFree(text)
    ensures if i < |text| then At(text, i) == text[i] != '\0' else At(text, i) == '\0'
  {
    assert i < |text| ==> text[i] in text;
  }

  lemma NoQuotesLeft(inQuotes: bool)
    ensures EndsInQuotes([], inQuotes) == inQuotes
  {
  }
}
