/**
 The parser of member-jihyun as it runs: index and cursor loops with a quote flag, token
 lists that grow, literals decoded into a buffer.  Each method is proved against the grammar.
 */
module JihyunParser {
  import opened Options
  import opened CStrings
  import opened SqlText
  import opened Splitters
  import opened JihyunGrammar

  // ---------- tokens ----------

  /** What is decoded so far, and what is still inside the literal from j on. */
  ghost predicate Decoding(done: string, inside: string, j: nat) {
    j <= |inside| && done + Undouble(inside[j..]) == Undouble(inside)
  }

  lemma DecodingStarts(inside: string)
    ensures Decoding([], inside, 0)
  {
    assert inside[0..] == inside && [] + Undouble(inside) == Undouble(inside);
  }

  lemma DecodingStep(done: string, inside: string, j: nat)
    requires Decoding(done, inside, j) && j < |inside|
    ensures if inside[j] == '\'' && j + 1 < |inside| && inside[j + 1] == '\''
            then Decoding(done + ['\''], inside, j + 2) else Decoding(done + [inside[j]], inside, j + 1)
  {
    var s := inside[j..];
    assert s[1..] == inside[j + 1..];
    if inside[j] == '\'' && j + 1 < |inside| && inside[j + 1] == '\'' {
      assert s[2..] == inside[j + 2..] && At(s, 1) == inside[j + 1];
      assert done + (['\''] + Undouble(s[2..])) == done + ['\''] + Undouble(s[2..]);
    } else {
      assert done + ([s[0]] + Undouble(s[1..])) == done + [s[0]] + Undouble(s[1..]);
    }
  }

  lemma DecodingEnds(done: string, inside: string)
    requires Decoding(done, inside, |inside|)
    ensures done == Undouble(inside)
  {
    assert inside[|inside|..] == [] && done + [] == done;
  }

  /** Decode a quoted token into a buffer that is large enough. */
  method DecodeValueToken(token: string) returns (decoded: string)
    ensures decoded == DecodeToken(token)
  {
    hide Trim, Undouble, Decoding;
    var t := Trim(token);
    var length := |t|;
    if length < 2 || t[0] != '\'' || t[length - 1] != '\'' {
      return t;
    }
    var buffer := new char[length - 1];
    var target, source := 0, 1;
    ghost var inside := t[1..length - 1];
    DecodingStarts(inside);
    assert buffer[..0] == [];
    while source + 1 < length
      invariant 1 <= source <= length - 1 && target < source
      invariant Decoding(buffer[..target], inside, source - 1)
      decreases length - source
    {
      ghost var done := buffer[..target];
      DecodingStep(done, inside, source - 1);
      if t[source] == '\'' && t[source + 1] == '\'' && source + 2 < length {
        buffer[target] := '\'';
        source := source + 2;
      } else {
        buffer[target] := t[source];
        source := source + 1;
      }
      target := target + 1;
      assert buffer[..target] == done + [buffer[target - 1]];
    }
    DecodingEnds(buffer[..target], inside);
    buffer[target] := '\0';
    return buffer[..target];
  }

  // ---------- comma lists ----------

  /** What the pieces still to come add to the items found so far. */
  function More(items: seq<string>, pieces: seq<string>, decode: bool): Option<seq<string>> {
    match Collected(pieces, decode)
    case None => None
    case Some(rest) => Some(items + rest)
  }

  lemma MoreStep(items: seq<string>, piece: string, pieces: seq<string>, decode: bool)
    ensures More(items, [piece] + pieces, decode)
         == if Trim(piece) == [] then None else More(items + [ItemOf(decode, Trim(piece))], pieces, decode)
  {
    hide Trim, ItemOf;
    if Trim(piece) != [] && Collected(pieces, decode).Some? {
      var rest := Collected(pieces, decode).value;
      assert items + ([ItemOf(decode, Trim(piece))] + rest) == items + [ItemOf(decode, Trim(piece))] + rest;
    }
  }

  lemma MoreAtEnds(items: seq<string>, pieces: seq<string>, decode: bool)
    ensures More([], pieces, decode) == Collected(pieces, decode)
    ensures More(items, [], decode) == Some(items)
  {
    assert Collected(pieces, decode).Some? ==> [] + Collected(pieces, decode).value == Collected(pieces, decode).value;
    assert items + [] == items;
  }

  lemma CommaEnd(text: string, start: nat, inQuotes: bool)
    requires start <= |text|
    ensures Pieces(',', text[|text|..], inQuotes, text[start..|text|]) == [text[start..]] + []
    ensures EndsInQuotes(text[|text|..], inQuotes) == inQuotes
  {
    assert text[start..|text|] == text[start..];
  }

  /** Split at the commas outside quotes; a doubled quote inside a literal is stepped over. */
  method SplitCommaList(text: string, decodeValues: bool) returns (ok: bool, items: seq<string>)
    requires NulFree(text)
    ensures (if ok then Some(items) else None) == SplitList(text, decodeValues)
  {
    hide Trim, Pieces, Collected, More, ItemOf, EndsInQuotes;
    items := [];
    var tokenStart, inQuotes, index := 0, false, 0;
    ghost var all := Collected(Pieces(',', text, false, []), decodeValues);
    assert text[0..] == text && text[0..0] == [];
    MoreAtEnds([], Pieces(',', text, false, []), decodeValues);
    while index < |text|
      invariant tokenStart <= index <= |text|
      invariant EndsInQuotes(text[index..], inQuotes) == !Balanced(text)
      invariant More(items, Pieces(',', text[index..], inQuotes, text[tokenStart..index]), decodeValues) == all
    {
      var current := text[index];
      PieceStep(',', text, tokenStart, index, inQuotes);
      if current == '\'' {
        if inQuotes && index + 1 < |text| && text[index + 1] == '\'' {
          PieceStep(',', text, tokenStart, index + 1, false);
          index := index + 2;
          continue;
        }
        inQuotes := !inQuotes;
      }
      if current == ',' && !inQuotes {
        MoreStep(items, text[tokenStart..index], Pieces(',', text[index + 1..], false, text[index + 1..index + 1]),
                 decodeValues);
        var found;
        found, items := TakeToken(items, text[tokenStart..index], decodeValues);
        if !found {
          return false, [];
        }
        tokenStart := index + 1;
      }
      index := index + 1;
    }
    CommaEnd(text, tokenStart, inQuotes);
    MoreStep(items, text[tokenStart..], [], decodeValues);
    var found;
    found, items := TakeToken(items, text[tokenStart..], decodeValues);
    if !found {
      return false, [];
    }
    MoreAtEnds(items, [], decodeValues);
    if inQuotes {
      return false, [];
    }
    return true, items;
  }

  /** Append what a token stands for; a blank token is an error. */
  method TakeToken(items: seq<string>, piece: string, decodeValues: bool) returns (ok: bool, r: seq<string>)
    ensures ok <==> Trim(piece) != []
    ensures ok ==> r == items + [ItemOf(decodeValues, Trim(piece))]
  {
    var token := Trim(piece);
    if token == [] {
      return false, items;
    }
    if decodeValues {
      token := DecodeValueToken(token);
    } else {
      token := Lower(Trim(token));
    }
    return true, items + [token];
  }

  // ---------- identifiers, segments, keywords ----------

  method ExtractIdentifier(text: string, cursor: nat) returns (ok: bool, identifier: string, next: nat)
    requires cursor <= |text|
    ensures cursor <= next <= |text|
    ensures (if ok then Some((identifier, text[next..])) else None) == Word(text[cursor..])
  {
    hide TrimLeft, WordLength, IsIdentifierChar, At, Lower;
    var start := SkipBlanks(text, cursor);
    next := start;
    while IsIdentifierChar(At(text, next))
      invariant start <= next <= |text|
      invariant WordLength(text[start..]) == next - start + WordLength(text[next..])
      decreases |text| - next
    {
      WordStep(text, next);
      next := next + 1;
    }
    WordStep(text, next);
    assert text[start..][..next - start] == text[start..next] && text[start..][next - start..] == text[next..];
    if start == next {
      return false, "", next;
    }
    return true, Lower(text[start..next]), next;
  }

  lemma ClosingStep(text: string, i: nat, depth: nat, inQuotes: bool)
    requires i < |text| && depth > 0
    ensures Closing(text[i..], depth, inQuotes)
         == if text[i] == '\'' then Later(1, Closing(text[i + 1..], depth, !inQuotes))
            else if !inQuotes && text[i] == '(' then Later(1, Closing(text[i + 1..], depth + 1, false))
            else if !inQuotes && text[i] == ')' then
              if depth == 1 then Some(0) else Later(1, Closing(text[i + 1..], depth - 1, false))
            else Later(1, Closing(text[i + 1..], depth, inQuotes))
  {
    assert text[i..][0] == text[i] && text[i..][1..] == text[i + 1..];
  }

  lemma LaterAdds(n: nat, m: nat, r: Option<nat>)
    ensures Later(n, Later(m, r)) == Later(n + m, r) && Later(0, r) == r
  {
  }

  /** The parenthesis that closes the one in front of `start`. */
  method FindClosing(text: string, start: nat) returns (ok: bool, scan: nat)
    requires start <= |text|
    ensures start <= scan <= |text|
    ensures (if ok then Some(scan - start) else None) == Closing(text[start..], 1, false)
  {
    hide Closing, Later;
    scan := start;
    var depth, inQuotes := 1, false;
    LaterAdds(0, 0, Closing(text[start..], 1, false));
    while scan < |text|
      invariant start <= scan <= |text| && depth > 0
      invariant Later(scan - start, Closing(text[scan..], depth, inQuotes)) == Closing(text[start..], 1, false)
    {
      ClosingStep(text, scan, depth, inQuotes);
      if text[scan] == '\'' {
        if inQuotes && scan + 1 < |text| && text[scan + 1] == '\'' {
          ClosingStep(text, scan + 1, depth, false);
          LaterAdds(scan - start, 1, Closing(text[scan + 1..], depth, false));
          LaterAdds(scan - start + 1, 1, Closing(text[scan + 2..], depth, true));
          scan := scan + 2;
          continue;
        }
        inQuotes := !inQuotes;
      } else if !inQuotes && text[scan] == '(' {
        depth := depth + 1;
      } else if !inQuotes && text[scan] == ')' {
        depth := depth - 1;
        if depth == 0 {
          LaterHere(scan - start);
          return true, scan;
        }
      }
      LaterAdds(scan - start, 1, Closing(text[scan + 1..], depth, inQuotes));
      scan := scan + 1;
    }
    return false, scan;
  }

  lemma LaterHere(n: nat)
    ensures Later(n, Some(0)) == Some(n)
  {
  }

  method ExtractParenthesizedSegment(text: string, cursor: nat) returns (ok: bool, segment: string, next: nat)
    requires cursor <= |text|
    ensures cursor <= next <= |text|
    ensures (if ok then Some((segment, text[next..])) else None) == Segment(text[cursor..])
  {
    hide TrimLeft, Closing, Trim;
    var open := SkipBlanks(text, cursor);
    if At(text, open) != '(' {
      return false, "", open;
    }
    var start := open + 1;
    assert text[open..][1..] == text[start..];
    var scan;
    ok, scan := FindClosing(text, start);
    if !ok {
      return false, "", open;
    }
    assert text[start..][..scan - start] == text[start..scan] && text[start..][scan - start + 1..] == text[scan + 1..];
    return true, Trim(text[start..scan]), scan + 1;
  }

  lemma NotInsideKeyword(text: string, i: nat, inQuotes: bool, keyword: string)
    requires i < |text|
    ensures FindOutsideQuotes(text, i, inQuotes, keyword)
         == if text[i] == '\'' then FindOutsideQuotes(text, i + 1, !inQuotes, keyword)
            else if !inQuotes && KeywordAt(text, i, keyword) then Some(i)
            else FindOutsideQuotes(text, i + 1, inQuotes, keyword)
  {
  }

  method FindKeywordOutsideQuotes(text: string, keyword: string) returns (found: bool, index: nat)
    ensures index <= |text|
    ensures (if found then Some(index) else None) == FindOutsideQuotes(text, 0, false, keyword)
  {
    hide FindOutsideQuotes;
    var inQuotes := false;
    index := 0;
    while index < |text|
      invariant index <= |text|
      invariant FindOutsideQuotes(text, index, inQuotes, keyword) == FindOutsideQuotes(text, 0, false, keyword)
    {
      NotInsideKeyword(text, index, inQuotes, keyword);
      if text[index] == '\'' {
        if inQuotes && index + 1 < |text| && text[index + 1] == '\'' {
          NotInsideKeyword(text, index + 1, false, keyword);
          index := index + 2;
          continue;
        }
        inQuotes := !inQuotes;
        index := index + 1;
        continue;
      }
      if !inQuotes && index > 0 && !Boundary(text, index - 1) {
        index := index + 1;
        continue;
      }
      if !inQuotes && CaseStarts(text[index..], keyword) {
        if Boundary(text, index + |keyword|) {
          return true, index;
        }
      }
      index := index + 1;
    }
    NothingFound(text, inQuotes, keyword);
    return false, index;
  }

  lemma NothingFound(text: string, inQuotes: bool, keyword: string)
    ensures FindOutsideQuotes(text, |text|, inQuotes, keyword) == None
  {
  }

  /** A keyword behind blanks. */
  method ConsumeLead(text: string, cursor: nat, keyword: string) returns (ok: bool, next: nat)
    requires cursor <= |text|
    ensures cursor <= next <= |text|
    ensures (if ok then Some(text[next..]) else None) == Lead(text[cursor..], keyword)
  {
    hide TrimLeft;
    next := SkipBlanks(text, cursor);
    if !CaseStarts(text[next..], keyword) {
      return false, next;
    }
    assert text[next..][|keyword|..] == text[next + |keyword|..];
    return true, next + |keyword|;
  }

  // ---------- statements ----------

  method ParseInsertStatement(sql: string) returns (ok: bool, st: Statement)
    requires NulFree(sql) && |sql| >= 6
    ensures (if ok then Some(st) else None) == ParseInsert(sql)
  {
    hide Lead, Word, Segment, SplitList, TrimLeft;
    st := Insert("", [], []);
    var cursor;
    ok, cursor := ConsumeLead(sql, 6, "into");
    if !ok {
      return;
    }
    var table, columnSegment, columns, valueSegment, values;
    ok, table, cursor := ExtractIdentifier(sql, cursor);
    if !ok {
      return;
    }
    SegmentNulFree(sql, cursor);
    ok, columnSegment, cursor := ExtractParenthesizedSegment(sql, cursor);
    if !ok {
      return;
    }
    ok, columns := SplitCommaList(columnSegment, false);
    if !ok {
      return;
    }
    ok, cursor := ConsumeLead(sql, cursor, "values");
    if !ok {
      return;
    }
    SegmentNulFree(sql, cursor);
    ok, valueSegment, cursor := ExtractParenthesizedSegment(sql, cursor);
    if !ok {
      return;
    }
    ok, values := SplitCommaList(valueSegment, true);
    if !ok {
      return;
    }
    cursor := SkipBlanks(sql, cursor);
    return cursor == |sql|, Insert(table, columns, values);
  }

  lemma SegmentNulFree(text: string, cursor: nat)
    requires NulFree(text) && cursor <= |text|
    ensures Segment(text[cursor..]).Some? ==> NulFree(Segment(text[cursor..]).value.0)
  {
    hide Closing, TrimLeft, TrimRight;
    if Segment(text[cursor..]).Some? {
      TrimNulFree(text[cursor..]);
      var t := TrimLeft(text[cursor..]);
      var k := Closing(t[1..], 1, false).value;
      TrimNulFree(t[1..][..k]);
    }
  }

  method ParseSelectStatement(sql: string) returns (ok: bool, st: Statement)
    requires NulFree(sql) && |sql| >= 6
    ensures (if ok then Some(st) else None) == ParseSelect(sql)
  {
    hide Word, SplitList, TrimLeft, Trim, FindOutsideQuotes;
    st := Select("", false, []);
    var rest := sql[6..];
    var from, table, cursor;
    ok, from := FindKeywordOutsideQuotes(rest, "from");
    if !ok {
      return;
    }
    var segment := Trim(rest[..from]);
    TrimNulFree(rest[..from]);
    var all, columns := true, [];
    if segment != "*" {
      all := false;
      ok, columns := SplitCommaList(segment, false);
      if !ok {
        return;
      }
    }
    ok, table, cursor := ExtractIdentifier(rest, from + 4);
    if !ok {
      return;
    }
    cursor := SkipBlanks(rest, cursor);
    return cursor == |rest|, Select(table, all, columns);
  }

  method ParseStatement(text: string) returns (ok: bool, st: Statement)
    requires NulFree(text)
    ensures (if ok then Some(st) else None) == JihyunGrammar.ParseStatement(text)
  {
    hide ParseInsert, ParseSelect, TrimLeft;
    st := Select("", false, []);
    var cursor := SkipBlanks(text, 0);
    assert text[0..] == text;
    var sql := text[cursor..];
    if CaseStarts(sql, "insert") {
      ok, st := ParseInsertStatement(sql);
    } else if CaseStarts(sql, "select") {
      ok, st := ParseSelectStatement(sql);
    } else {
      ok := false;
    }
  }
}
