/**
 The parser of member-dragon as it runs: cursors that move over the statement and a command
 record whose fixed arrays and counters are filled step by step.  Each method is proved
 against the grammar.
 */
module DragonParser {
  import opened Options
  import opened CStrings
  import opened Readers
  import opened SqlText
  import opened Comparison
  import opened ResultSets
  import opened Commands
  import opened DragonGrammar
  import FileCodec

  // ---------- words ----------

  lemma NulEnds(text: string, i: nat)
    requires NulFree(text) && i <= |text|
    ensures At(text, i) == '\0' <==> i == |text|
  {
    assert i < |text| ==> text[i] in text;
  }

  lemma SuffixOfSuffix(text: string, i: nat)
    requires i <= |text|
    ensures At(text[i..], 0) == At(text, i) && At(text[i..], 1) == At(text, i + 1)
    ensures At(text, i) != '\0' ==> i + 1 <= |text| && text[i..][1..] == text[i + 1..]
    ensures At(text, i) != '\0' && At(text, i + 1) != '\0' ==> i + 2 <= |text| && text[i..][2..] == text[i + 2..]
  {
  }

  method ConsumeKeyword(text: string, cursor: nat, keyword: string) returns (ok: bool, next: nat)
    requires cursor <= |text|
    ensures cursor <= next <= |text|
    ensures (if ok then Some(text[next..]) else None) == Keyword(text[cursor..], keyword)
    ensures !ok ==> next == cursor
  {
    hide KeywordMatches, TrimLeft;
    var start := SkipBlanks(text, cursor);
    if !KeywordMatches(text[start..], keyword) {
      return false, cursor;
    }
    MatchIsThere(text[start..], keyword);
    assert text[start..][|keyword|..] == text[start + |keyword|..];
    return true, start + |keyword|;
  }

  lemma MatchIsThere(s: string, keyword: string)
    requires KeywordMatches(s, keyword)
    ensures |keyword| <= |s|
  {
  }

  method ParseIdentifier(text: string, cursor: nat) returns (ok: bool, name: string, next: nat)
    requires cursor <= |text|
    ensures cursor <= next <= |text|
    ensures (if ok then Some((name, text[next..])) else None) == Identifier(text[cursor..])
  {
    hide TrimLeft, WordLength, IsIdentifierChar, At;
    var start := SkipBlanks(text, cursor);
    WordStep(text, start);
    if !IsIdentifierChar(At(text, start)) {
      return false, "", cursor;
    }
    var len: nat := 0;
    while IsIdentifierChar(At(text, start + len))
      invariant start + len <= |text|
      invariant WordLength(text[start..]) == len + WordLength(text[start + len..])
      decreases |text| - start - len
    {
      WordStep(text, start + len);
      len := len + 1;
    }
    WordStep(text, start + len);
    if len >= MAX_NAME_LEN {
      return false, "", cursor;
    }
    assert text[start..][..len] == text[start..start + len] && text[start..][len..] == text[start + len..];
    return true, text[start..start + len], start + len;
  }

  // ---------- values ----------

  /** One step of a quoted literal at a position of the text. */
  lemma QuotedStep(text: string, i: nat, done: string)
    requires i < |text|
    ensures Join(done, Quoted(text[i..], |done|))
         == if text[i] == '\'' && At(text, i + 1) != '\'' then Some((done, text[i + 1..]))
            else if |done| + 1 >= MAX_VALUE_LEN then None
            else if text[i] == '\'' then Join(done + ['\''], Quoted(text[i + 2..], |done| + 1))
            else Join(done + [text[i]], Quoted(text[i + 1..], |done| + 1))
  {
    var s := text[i..];
    assert s[1..] == text[i + 1..] && At(s, 1) == At(text, i + 1);
    if text[i] == '\'' && At(text, i + 1) == '\'' {
      assert s[2..] == text[i + 2..];
      JoinGrows(done, '\'', Quoted(text[i + 2..], |done| + 1));
    } else if text[i] == '\'' {
      assert done + "" == done;
    } else {
      JoinGrows(done, text[i], Quoted(text[i + 1..], |done| + 1));
    }
  }

  /** A literal whose opening quote stands at the cursor. */
  method ParseQuotedValue(text: string, cursor: nat) returns (ok: bool, value: string, next: nat)
    requires NulFree(text) && cursor <= |text|
    ensures cursor <= next <= |text|
    ensures At(text, cursor) != '\'' ==> !ok
    ensures At(text, cursor) == '\'' ==>
              (if ok then Some((value, text[next..])) else None) == Quoted(text[cursor + 1..], 0)
  {
    hide Quoted, Join;
    if At(text, cursor) != '\'' {
      return false, "", cursor;
    }
    next := cursor + 1;
    value := "";
    JoinNothing(Quoted(text[next..], 0));
    NulEnds(text, next);
    while At(text, next) != '\0'
      invariant cursor < next <= |text|
      invariant Join(value, Quoted(text[next..], |value|)) == Quoted(text[cursor + 1..], 0)
      invariant At(text, next) == '\0' <==> next == |text|
      decreases |text| - next
    {
      QuotedStep(text, next, value);
      if text[next] == '\'' {
        if At(text, next + 1) == '\'' {
          if |value| + 1 >= MAX_VALUE_LEN {
            return false, "", cursor;
          }
          value := value + ['\''];
          next := next + 2;
          NulEnds(text, next);
          continue;
        }
        return true, value, next + 1;
      }
      if |value| + 1 >= MAX_VALUE_LEN {
        return false, "", cursor;
      }
      value := value + [text[next]];
      next := next + 1;
      NulEnds(text, next);
    }
    NothingQuoted(value);
    return false, "", cursor;
  }

  lemma NothingQuoted(done: string)
    ensures Join(done, Quoted("", |done|)) == None
  {
  }

  lemma TokenStep(text: string, i: nat)
    requires i <= |text|
    ensures TokenLength(text[i..]) == if i < |text| && !EndsToken(text[i]) then 1 + TokenLength(text[i + 1..]) else 0
  {
    if i < |text| {
      assert text[i..][1..] == text[i + 1..];
    }
  }

  /** A value without quotes: up to a blank or a delimiter. */
  method ParseBareToken(text: string, start: nat) returns (ok: bool, value: string, next: nat)
    requires start <= |text|
    ensures start <= next <= |text|
    ensures (if ok then Some((value, text[next..])) else None) == BareToken(text[start..])
  {
    hide TokenLength, Trim;
    next := start;
    while next < |text| && !EndsToken(text[next])
      invariant start <= next <= |text|
      invariant TokenLength(text[start..]) == next - start + TokenLength(text[next..])
    {
      TokenStep(text, next);
      next := next + 1;
    }
    TokenStep(text, next);
    assert text[start..][..next - start] == text[start..next] && text[start..][next - start..] == text[next..];
    if next - start >= MAX_VALUE_LEN {
      return false, "", next;
    }
    value := Trim(text[start..next]);
    return value != [], value, next;
  }

  method ParseValueToken(text: string, cursor: nat) returns (ok: bool, value: string, next: nat)
    requires NulFree(text) && cursor <= |text|
    ensures cursor <= next <= |text|
    ensures (if ok then Some((value, text[next..])) else None) == Value(text[cursor..])
  {
    hide Quoted, TrimLeft, BareToken, At;
    var start := SkipBlanks(text, cursor);
    SuffixOfSuffix(text, start);
    if At(text, start) == '\'' {
      ok, value, next := ParseQuotedValue(text, start);
    } else {
      ok, value, next := ParseBareToken(text, start);
    }
  }

  // ---------- lists in parentheses ----------

  method ParseItem(kind: ItemKind, text: string, cursor: nat) returns (ok: bool, item: string, next: nat)
    requires NulFree(text) && cursor <= |text|
    ensures cursor <= next <= |text| && (ok ==> cursor < next)
    ensures (if ok then Some((item, text[next..])) else None) == Item(kind, text[cursor..])
  {
    if kind == Names {
      ok, item, next := ParseIdentifier(text, cursor);
    } else {
      ok, item, next := ParseValueToken(text, cursor);
    }
  }

  lemma ItemsEnd(kind: ItemKind, s: string, done: seq<string>, t: string)
    requires TrimLeft(s) == t && (t == [] || At(t, 0) == ')' || |done| >= MAX_ITEMS || Item(kind, t) == None)
    ensures Join(done, Items(kind, s, |done|)) == None
  {
    hide Item, TrimLeft;
  }

  /** One step of Items behind those in `done`. */
  lemma ItemsAt(kind: ItemKind, s: string, done: seq<string>, t: string, item: string, behind: string, u: string)
    requires TrimLeft(s) == t && t != [] && At(t, 0) != ')' && |done| < MAX_ITEMS
    requires Item(kind, t) == Some((item, behind)) && TrimLeft(behind) == u
    ensures At(u, 0) == ','
       ==> Join(done, Items(kind, s, |done|)) == Join(done + [item], Items(kind, u[1..], |done| + 1))
    ensures At(u, 0) == ')' ==> Join(done, Items(kind, s, |done|)) == Some((done + [item], u[1..]))
    ensures At(u, 0) != ',' && At(u, 0) != ')' ==> Join(done, Items(kind, s, |done|)) == None
  {
    hide Item, TrimLeft;
    if At(u, 0) == ',' {
      JoinGrows(done, item, Items(kind, u[1..], |done| + 1));
    }
  }

  /** The items behind an opening parenthesis, written into an array. */
  method ParseItems(kind: ItemKind, text: string, start: nat, items: array<string>)
      returns (ok: bool, count: nat, next: nat)
    requires NulFree(text) && start <= |text| && items.Length == MAX_ITEMS
    modifies items
    ensures start <= next <= |text| && count <= MAX_ITEMS
    ensures (if ok then Some((items[..count], text[next..])) else None) == Items(kind, text[start..], 0)
  {
    hide Item, TrimLeft, Items, Join, At;
    next, count := start, 0;
    ghost var all := Items(kind, text[start..], 0);
    assert items[..0] == [];
    JoinNothing(all);
    while true
      invariant start <= next <= |text| && count <= MAX_ITEMS
      invariant Join(items[..count], Items(kind, text[next..], count)) == all
      decreases |text| - next
    {
      ghost var done, s := items[..count], text[next..];
      next := SkipBlanks(text, next);
      ghost var t := text[next..];
      NulEnds(text, next);
      SuffixOfSuffix(text, next);
      if At(text, next) == ')' || At(text, next) == '\0' {
        ItemsEnd(kind, s, done, t);
        return false, count, next;
      }
      if count >= MAX_ITEMS {
        ItemsEnd(kind, s, done, t);
        return false, count, next;
      }
      var found, item := false, "";
      found, item, next := ParseItem(kind, text, next);
      if !found {
        ItemsEnd(kind, s, done, t);
        return false, count, next;
      }
      ghost var behind := text[next..];
      items[count] := item;
      count := count + 1;
      assert items[..count] == done + [item];
      next := SkipBlanks(text, next);
      SuffixOfSuffix(text, next);
      ItemsAt(kind, s, done, t, item, behind, text[next..]);
      if At(text, next) == ',' {
        next := next + 1;
        continue;
      }
      if At(text, next) == ')' {
        return true, count, next + 1;
      }
      return false, count, next;
    }
  }

  /** A list in parentheses: the column names of an INSERT or its values. */
  method ParseParenthesized(kind: ItemKind, text: string, cursor: nat, items: array<string>)
      returns (ok: bool, count: nat, next: nat)
    requires NulFree(text) && cursor <= |text| && items.Length == MAX_ITEMS
    modifies items
    ensures cursor <= next <= |text| && count <= MAX_ITEMS
    ensures (if ok then Some((items[..count], text[next..])) else None) == Parenthesized(kind, text[cursor..])
  {
    hide TrimLeft, Items, At;
    next := SkipBlanks(text, cursor);
    SuffixOfSuffix(text, next);
    if At(text, next) != '(' {
      return false, 0, cursor;
    }
    ok, count, next := ParseItems(kind, text, next + 1, items);
  }

  // ---------- clauses ----------

  method ParseCompareOp(text: string, cursor: nat) returns (ok: bool, op: CompareOp, next: nat)
    requires cursor <= |text|
    ensures cursor <= next <= |text|
    ensures (if ok then Some((op, text[next..])) else None) == Operator(text[cursor..])
  {
    hide TrimLeft;
    var start := SkipBlanks(text, cursor);
    SuffixOfSuffix(text, start);
    if At(text, start) == '!' && At(text, start + 1) == '=' {
      return true, OpNe, start + 2;
    }
    if At(text, start) == '>' && At(text, start + 1) == '=' {
      return true, OpGe, start + 2;
    }
    if At(text, start) == '<' && At(text, start + 1) == '=' {
      return true, OpLe, start + 2;
    }
    if At(text, start) == '=' {
      return true, OpEq, start + 1;
    }
    if At(text, start) == '>' {
      return true, OpGt, start + 1;
    }
    if At(text, start) == '<' {
      return true, OpLt, start + 1;
    }
    return false, OpEq, cursor;
  }

  /** 1 if the clause is there, 0 if it is not, -1 if it is wrong. */
  method ParseWhereClause(text: string, cursor: nat, before: Where) returns (result: int, where: Where, next: nat)
    requires NulFree(text) && cursor <= |text|
    ensures cursor <= next <= |text| && -1 <= result <= 1
    ensures (if result < 0 then None else Some((if result == 1 then Some(where) else None, text[next..])))
         == WhereClause(text[cursor..])
  {
    hide Keyword, Identifier, Operator, Value;
    where := before;
    var ok;
    ok, next := ConsumeKeyword(text, cursor, "WHERE");
    if !ok {
      return 0, where, cursor;
    }
    var column, op, value;
    ok, column, next := ParseIdentifier(text, next);
    if !ok {
      return -1, where, cursor;
    }
    ok, op, next := ParseCompareOp(text, next);
    if !ok {
      return -1, where, cursor;
    }
    ok, value, next := ParseValueToken(text, next);
    if !ok {
      return -1, where, cursor;
    }
    return 1, Where(column, op, value), next;
  }

  /** The direction behind the column of an ORDER BY; ascending if none is given. */
  method ParseDirection(text: string, cursor: nat) returns (direction: Direction, next: nat)
    requires cursor <= |text|
    ensures cursor <= next <= |text|
    ensures (direction, text[next..]) == DirectionAt(TrimLeft(text[cursor..]))
  {
    hide KeywordMatches, TrimLeft;
    next := SkipBlanks(text, cursor);
    direction := Ascending;
    if KeywordMatches(text[next..], "DESC") {
      MatchIsThere(text[next..], "DESC");
      assert text[next..][4..] == text[next + 4..];
      next := next + 4;
      direction := Descending;
    } else if KeywordMatches(text[next..], "ASC") {
      MatchIsThere(text[next..], "ASC");
      assert text[next..][3..] == text[next + 3..];
      next := next + 3;
    }
  }

  method ParseOrderByClause(text: string, cursor: nat, before: OrderBy) returns (result: int, order: OrderBy, next: nat)
    requires cursor <= |text|
    ensures cursor <= next <= |text| && -1 <= result <= 1
    ensures (if result < 0 then None else Some((if result == 1 then Some(order) else None, text[next..])))
         == OrderClause(text[cursor..])
  {
    hide Keyword, Identifier, TrimLeft, DirectionAt;
    order := before;
    var ok;
    ok, next := ConsumeKeyword(text, cursor, "ORDER");
    if !ok {
      return 0, order, cursor;
    }
    ok, next := ConsumeKeyword(text, next, "BY");
    if !ok {
      return -1, order, cursor;
    }
    var column;
    ok, column, next := ParseIdentifier(text, next);
    if !ok {
      return -1, order, cursor;
    }
    var direction;
    direction, next := ParseDirection(text, next);
    return 1, OrderBy(column, direction), next;
  }

  method ParseLimitClause(text: string, cursor: nat, before: nat) returns (result: int, limit: nat, next: nat)
    requires cursor <= |text|
    ensures cursor <= next <= |text| && -1 <= result <= 1
    ensures (if result < 0 then None else Some((if result == 1 then Some(limit) else None, text[next..])))
         == LimitClause(text[cursor..])
  {
    hide Keyword, TrimLeft;
    limit := before;
    var ok;
    ok, next := ConsumeKeyword(text, cursor, "LIMIT");
    if !ok {
      return 0, limit, cursor;
    }
    next := SkipBlanks(text, next);
    limit := 0;
    if !IsDigit(At(text, next)) {
      return -1, limit, cursor;
    }
    ghost var start, u := next, text[next..];
    assert u[..0] == [];
    while IsDigit(At(text, next))
      invariant start <= next <= |text|
      invariant forall j | 0 <= j < next - start :: IsDigit(u[j])
      invariant limit == DigitsValue(u[..next - start])
      decreases |text| - next
    {
      assert u[..next - start + 1][..next - start] == u[..next - start];
      limit := limit * 10 + DigitOf(text[next]);
      next := next + 1;
    }
    FileCodec.SkipDigitsExactly(u, 0, next - start);
    assert u[next - start..] == text[next..];
    return 1, limit, next;
  }

  /** Skip the rest of a statement: true if nothing is left. */
  method AtEnd(text: string, cursor: nat) returns (ok: bool)
    requires NulFree(text) && cursor <= |text|
    ensures ok <==> Ended(text[cursor..])
  {
    hide TrimLeft;
    var next := SkipBlanks(text, cursor);
    if At(text, next) == ';' {
      assert text[next..][1..] == text[next + 1..];
      next := next + 1;
    }
    next := SkipBlanks(text, next);
    NulEnds(text, next);
    return At(text, next) == '\0';
  }

  method FindKeywordPosition(text: string, keyword: string) returns (found: bool, position: nat)
    requires NulFree(text)
    ensures position <= |text|
    ensures (if found then Some(position) else None) == FindKeyword(text, 0, keyword)
  {
    position := 0;
    NulEnds(text, 0);
    while At(text, position) != '\0'
      invariant position <= |text| && (At(text, position) == '\0' <==> position == |text|)
      invariant FindKeyword(text, position, keyword) == FindKeyword(text, 0, keyword)
      decreases |text| - position
    {
      if (position == 0 || !IsIdentifierChar(text[position - 1])) && KeywordMatches(text[position..], keyword) {
        return true, position;
      }
      position := position + 1;
      NulEnds(text, position);
    }
    return false, position;
  }

  // ---------- the command record ----------

  datatype CommandType = CmdNone | CmdInsert | CmdSelect | CmdDelete | CmdUpdate

  class CommandBuffer {
    var kind: CommandType
    var tableName: string
    const insertColumns: array<string>
    var insertColumnCount: nat
    const values: array<string>
    var valueCount: nat
    const columns: array<string>
    var columnCount: nat
    var isSelectAll: bool
    const setClauses: array<SetClause>
    var setClauseCount: nat
    var hasWhere: bool
    var where: Where
    var hasOrderBy: bool
    var orderBy: OrderBy
    var hasLimit: bool
    var limitCount: nat

    ghost predicate Valid()
      reads this
    {
      && insertColumns.Length == values.Length == columns.Length == setClauses.Length == MAX_ITEMS
      && insertColumns != values && insertColumns != columns && values != columns
      && insertColumnCount <= MAX_ITEMS && valueCount <= MAX_ITEMS && columnCount <= MAX_ITEMS
      && setClauseCount <= MAX_ITEMS
    }

    /** The command that the executor reads from the record. */
    function Contents(): Command
      requires Valid()
      reads this, insertColumns, values, columns, setClauses
    {
      var w := if hasWhere then Some(where) else None;
      match kind
      case CmdNone => NoCommand
      case CmdInsert => InsertInto(tableName, insertColumns[..insertColumnCount], values[..valueCount])
      case CmdSelect => SelectFrom(tableName, isSelectAll, columns[..columnCount], w,
                                   if hasOrderBy then Some(orderBy) else None,
                                    if hasLimit then Some(limitCount) else None)
      case CmdDelete => DeleteFrom(tableName, w)
      case CmdUpdate => UpdateSet(tableName, setClauses[..setClauseCount], w)
    }

    constructor ()
      ensures Valid() && fresh(insertColumns) && fresh(values) && fresh(columns) && fresh(setClauses)
      ensures Contents() == NoCommand
    {
      kind, tableName := CmdNone, "";
      insertColumns := new string[MAX_ITEMS](_ => "");
      values := new string[MAX_ITEMS](_ => "");
      columns := new string[MAX_ITEMS](_ => "");
      setClauses := new SetClause[MAX_ITEMS](_ => SetClause("", ""));
      insertColumnCount, valueCount, columnCount, setClauseCount := 0, 0, 0, 0;
      isSelectAll, hasWhere, hasOrderBy, hasLimit := false, false, false, false;
      where, orderBy, limitCount := Where("", OpEq, ""), OrderBy("", Ascending), 0;
    }

    method ParseInsert(sql: string) returns (ok: bool)
      requires Valid() && NulFree(sql) && kind == CmdInsert
      modifies this, insertColumns, values
      ensures Valid() && kind == CmdInsert
      ensures (if ok then Some(Contents()) else None) == DragonGrammar.ParseInsert(sql)
    {
      hide Keyword, Identifier, Parenthesized, Ended;
      assert sql[0..] == sql;
      var cursor;
      ok, cursor := ConsumeKeyword(sql, 0, "INSERT");
      if !ok {
        return;
      }
      ok, cursor := ConsumeKeyword(sql, cursor, "INTO");
      if !ok {
        return;
      }
      var name, count;
      ok, name, cursor := ParseIdentifier(sql, cursor);
      if !ok {
        return;
      }
      tableName := name;
      ok, count, cursor := ParseParenthesized(Names, sql, cursor, insertColumns);
      insertColumnCount := count;
      if !ok {
        return;
      }
      ok, cursor := ConsumeKeyword(sql, cursor, "VALUES");
      if !ok {
        return;
      }
      ghost var names := insertColumns[..count];
      ok, count, cursor := ParseParenthesized(Literals, sql, cursor, values);
      valueCount := count;
      assert insertColumns[..insertColumnCount] == names;
      if !ok {
        return;
      }
      ok := AtEnd(sql, cursor);
    }

    method ParseDelete(sql: string) returns (ok: bool)
      requires Valid() && NulFree(sql) && kind == CmdDelete
      modifies this
      ensures Valid() && kind == CmdDelete
      ensures (if ok then Some(Contents()) else None) == DragonGrammar.ParseDelete(sql)
    {
      hide Keyword, Identifier, WhereClause, Ended;
      assert sql[0..] == sql;
      var cursor;
      ok, cursor := ConsumeKeyword(sql, 0, "DELETE");
      if !ok {
        return;
      }
      ok, cursor := ConsumeKeyword(sql, cursor, "FROM");
      if !ok {
        return;
      }
      var name, result, w;
      ok, name, cursor := ParseIdentifier(sql, cursor);
      if !ok {
        return;
      }
      tableName := name;
      result, w, cursor := ParseWhereClause(sql, cursor, where);
      where := w;
      if result < 0 {
        return false;
      }
      hasWhere := result == 1;
      ok := AtEnd(sql, cursor);
    }

    /** One SET clause. */
    method ParseSetClause(text: string, cursor: nat) returns (ok: bool, clause: SetClause, next: nat)
      requires NulFree(text) && cursor <= |text|
      ensures cursor <= next <= |text| && (ok ==> cursor < next)
      ensures (if ok then Some((clause, text[next..])) else None) == SetClauseAt(text[cursor..])
    {
      hide Identifier, Value, TrimLeft;
      var column, value;
      clause := SetClause("", "");
      ok, column, next := ParseIdentifier(text, cursor);
      if !ok {
        return;
      }
      next := SkipBlanks(text, next);
      if At(text, next) != '=' {
        return false, clause, cursor;
      }
      assert text[next..][1..] == text[next + 1..];
      ok, value, next := ParseValueToken(text, next + 1);
      clause := SetClause(column, value);
    }

    method ParseSetClauseList(text: string, cursor: nat) returns (ok: bool, next: nat)
      requires Valid() && NulFree(text) && cursor <= |text|
      modifies this`setClauseCount, setClauses
      ensures Valid() && cursor <= next <= |text|
      ensures (if ok then Some((setClauses[..setClauseCount], text[next..])) else None) == SetClauses(text[cursor..], 0)
    {
      hide SetClauses, SetClauseAt, TrimLeft, Join;
      next := cursor;
      setClauseCount := 0;
      ghost var all := SetClauses(text[cursor..], 0);
      assert setClauses[..0] == [];
      JoinNothing(all);
      while true
        invariant Valid() && cursor <= next <= |text|
        invariant Join(setClauses[..setClauseCount], SetClauses(text[next..], setClauseCount)) == all
        decreases |text| - next
      {
        ghost var done, s := setClauses[..setClauseCount], text[next..];
        if setClauseCount >= MAX_ITEMS {
          SetsEnd(s, done);
          return false, cursor;
        }
        var clause := SetClause("", "");
        ok, clause, next := ParseSetClause(text, next);
        if !ok {
          SetsEnd(s, done);
          return false, cursor;
        }
        ghost var behind := text[next..];
        setClauses[setClauseCount] := clause;
        setClauseCount := setClauseCount + 1;
        assert setClauses[..setClauseCount] == done + [clause];
        next := SkipBlanks(text, next);
        SetsAt(s, done, clause, behind, text[next..]);
        if At(text, next) == ',' {
          assert text[next..][1..] == text[next + 1..];
          next := next + 1;
          continue;
        }
        return true, next;
      }
    }

    method ParseUpdate(sql: string) returns (ok: bool)
      requires Valid() && NulFree(sql) && kind == CmdUpdate
      modifies this, setClauses
      ensures Valid() && kind == CmdUpdate
      ensures (if ok then Some(Contents()) else None) == DragonGrammar.ParseUpdate(sql)
    {
      hide Keyword, Identifier, SetClauses, WhereClause, Ended;
      assert sql[0..] == sql;
      var cursor;
      ok, cursor := ConsumeKeyword(sql, 0, "UPDATE");
      if !ok {
        return;
      }
      var name, result, w;
      ok, name, cursor := ParseIdentifier(sql, cursor);
      if !ok {
        return;
      }
      tableName := name;
      ok, cursor := ConsumeKeyword(sql, cursor, "SET");
      if !ok {
        return;
      }
      ok, cursor := ParseSetClauseList(sql, cursor);
      if !ok {
        return;
      }
      result, w, cursor := ParseWhereClause(sql, cursor, where);
      where := w;
      if result < 0 {
        return false;
      }
      hasWhere := result == 1;
      ok := AtEnd(sql, cursor);
    }

    static method OnlyIdentifierChars(token: string) returns (ok: bool)
      ensures ok <==> IsWord(token)
    {
      for i := 0 to |token|
        invariant forall j | 0 <= j < i :: IsIdentifierChar(token[j])
      {
        if !IsIdentifierChar(token[i]) {
          assert token[i] in token;
          return false;
        }
      }
      return true;
    }

    /** The column part of a SELECT. */
    method ParseSelectColumnsText(text: string) returns (ok: bool)
      requires Valid() && NulFree(text)
      modifies this`columnCount, this`isSelectAll, columns
      ensures Valid()
      ensures (if ok then Some((isSelectAll, columns[..columnCount])) else None) == SelectedColumns(text)
    {
      hide ColumnList, JoinList, Trim, CommaAt, IsWord;
      columnCount, isSelectAll := 0, false;
      assert columns[..0] == [] && text[0..] == text;
      if text == "*" {
        isSelectAll := true;
        return true;
      }
      var cursor := 0;
      ListFromStart(ColumnList(text, 0));
      while cursor < |text|
        invariant Valid() && cursor <= |text| && !isSelectAll
        invariant JoinList(columns[..columnCount], ColumnList(text[cursor..], columnCount)) == ColumnList(text, 0)
        decreases |text| - cursor
      {
        ghost var done, s := columns[..columnCount], text[cursor..];
        var end := cursor + CommaAt(text[cursor..]);
        var token := Trim(text[cursor..end]);
        assert s[..end - cursor] == text[cursor..end];
        if columnCount >= MAX_ITEMS || end - cursor >= MAX_NAME_LEN || token == [] {
          ColumnsEnd(s, done, end - cursor, token);
          return false;
        }
        ok := OnlyIdentifierChars(token);
        if !ok {
          ColumnsEnd(s, done, end - cursor, token);
          return;
        }
        ColumnsAt(s, done, end - cursor, token);
        columns[columnCount] := token;
        columnCount := columnCount + 1;
        assert columns[..columnCount] == done + [token];
        if end == |text| {
          cursor := end;
          assert text[cursor..] == [];
          NoMoreColumns(columns[..columnCount], columnCount);
          break;
        }
        assert text[cursor..][end - cursor + 1..] == text[end + 1..];
        cursor := end + 1;
      }
      assert text[cursor..] == [];
      NoMoreColumns(columns[..columnCount], columnCount);
      return columnCount > 0;
    }

    method ParseSelect(sql: string) returns (ok: bool)
      requires Valid() && NulFree(sql) && kind == CmdSelect
      modifies this, columns
      ensures Valid() && kind == CmdSelect
      ensures (if ok then Some(Contents()) else None) == DragonGrammar.ParseSelect(sql)
    {
      hide Keyword, TrimLeft, FindKeyword, SelectedColumns, Trim, ParseFrom;
      assert sql[0..] == sql;
      var cursor;
      ok, cursor := ConsumeKeyword(sql, 0, "SELECT");
      if !ok {
        return;
      }
      cursor := SkipBlanks(sql, cursor);
      var found, from := FindKeywordPosition(sql[cursor..], "FROM");
      if !found || from == 0 {
        return false;
      }
      if from >= MAX_COLUMNS_TEXT {
        return false;
      }
      TrimNulFree(sql[cursor..][..from]);
      ok := ParseSelectColumnsText(Trim(sql[cursor..][..from]));
      if !ok {
        return;
      }
      assert sql[cursor..][from..] == sql[cursor + from..];
      ok := ParseSelectTail(sql, cursor + from);
    }

    /** The end of a SELECT, behind its WHERE. */
    method ParseOrderAndLimit(sql: string, from: nat) returns (ok: bool)
      requires NulFree(sql) && from <= |sql|
      modifies `hasOrderBy, `orderBy, `hasLimit, `limitCount
      ensures (if ok then Some((if hasOrderBy then Some(orderBy) else None,
                                  if hasLimit then Some(limitCount) else None))
               else None) == OrderAndLimit(sql[from..])
    {
      hide OrderClause, LimitClause, Ended;
      var cursor, result, o, n;
      result, o, cursor := ParseOrderByClause(sql, from, orderBy);
      orderBy := o;
      if result < 0 {
        return false;
      }
      hasOrderBy := result == 1;
      result, n, cursor := ParseLimitClause(sql, cursor, limitCount);
      limitCount := n;
      if result < 0 {
        return false;
      }
      hasLimit := result == 1;
      ok := AtEnd(sql, cursor);
    }

    /** A SELECT from its FROM on. */
    method ParseSelectTail(sql: string, from: nat) returns (ok: bool)
      requires Valid() && NulFree(sql) && kind == CmdSelect && from <= |sql|
      modifies `tableName, `hasWhere, `where, `hasOrderBy, `orderBy, `hasLimit, `limitCount
      ensures Valid()
      ensures (if ok then Some(Contents()) else None) == ParseFrom(sql[from..], isSelectAll, columns[..columnCount])
    {
      hide Keyword, Identifier, WhereClause, OrderAndLimit;
      var cursor, name, result, w;
      ok, cursor := ConsumeKeyword(sql, from, "FROM");
      if !ok {
        return;
      }
      ok, name, cursor := ParseIdentifier(sql, cursor);
      if !ok {
        return;
      }
      tableName := name;
      result, w, cursor := ParseWhereClause(sql, cursor, where);
      where := w;
      if result < 0 {
        return false;
      }
      hasWhere := result == 1;
      ok := ParseOrderAndLimit(sql, cursor);
    }

    /** Trim the statement and drop the semicolons at its end. */
    static method CleanUp(sql: string) returns (working: string)
      requires NulFree(sql)
      ensures NulFree(working) && working == Trim(StripSemicolons(Trim(sql)))
    {
      hide Trim, StripSemicolons;
      working := Trim(sql);
      TrimNulFree(sql);
      ghost var trimmed := working;
      while working != [] && working[|working| - 1] == ';'
        invariant NulFree(working) && StripSemicolons(working) == StripSemicolons(trimmed)
        decreases |working|
      {
        StripOne(working);
        working := working[..|working| - 1];
      }
      StripDone(working);
      TrimNulFree(working);
      working := Trim(working);
    }

    /** Clear the record and fill it from a statement. */
    method ParseSql(sql: string) returns (ok: bool)
      requires Valid() && NulFree(sql)
      modifies this, insertColumns, values, columns, setClauses
      ensures Valid()
      ensures (if ok then Some(Contents()) else None) == DragonGrammar.ParseSql(sql)
    {
      hide Trim, StripSemicolons, KeywordMatches, DragonGrammar.ParseInsert, DragonGrammar.ParseSelect,
           DragonGrammar.ParseDelete, DragonGrammar.ParseUpdate;
      kind, tableName := CmdNone, "";
      insertColumnCount, valueCount, columnCount, setClauseCount := 0, 0, 0, 0;
      isSelectAll, hasWhere, hasOrderBy, hasLimit := false, false, false, false;
      assert Contents() == NoCommand;
      hide Contents;
      if |sql| >= MAX_STATEMENT_LEN {
        return false;
      }
      var working := CleanUp(sql);
      if working == [] {
        return true;
      }
      if KeywordMatches(working, "INSERT") {
        kind := CmdInsert;
        ok := ParseInsert(working);
        return;
      }
      if KeywordMatches(working, "SELECT") {
        kind := CmdSelect;
        ok := ParseSelect(working);
        return;
      }
      if KeywordMatches(working, "DELETE") {
        kind := CmdDelete;
        ok := ParseDelete(working);
        return;
      }
      if KeywordMatches(working, "UPDATE") {
        kind := CmdUpdate;
        ok := ParseUpdate(working);
        return;
      }
      return false;
    }
  }

  lemma StripOne(s: string)
    requires s != [] && s[|s| - 1] == ';'
    ensures StripSemicolons(s) == StripSemicolons(s[..|s| - 1])
    ensures NulFree(s) ==> NulFree(s[..|s| - 1])
  {
  }

  lemma StripDone(s: string)
    requires s == [] || s[|s| - 1] != ';'
    ensures StripSemicolons(s) == s
  {
  }

  lemma SetsEnd(s: string, done: seq<SetClause>)
    requires |done| >= MAX_ITEMS || SetClauseAt(s) == None
    ensures Join(done, SetClauses(s, |done|)) == None
  {
    hide SetClauseAt;
  }

  /** One step of SetClauses behind those in `done`. */
  lemma SetsAt(s: string, done: seq<SetClause>, clause: SetClause, behind: string, d: string)
    requires |done| < MAX_ITEMS && SetClauseAt(s) == Some((clause, behind)) && TrimLeft(behind) == d
    ensures At(d, 0) == ','
       ==> Join(done, SetClauses(s, |done|)) == Join(done + [clause], SetClauses(d[1..], |done| + 1))
    ensures At(d, 0) != ',' ==> Join(done, SetClauses(s, |done|)) == Some((done + [clause], d))
  {
    hide SetClauseAt, TrimLeft;
    if At(d, 0) == ',' {
      JoinGrows(done, clause, SetClauses(d[1..], |done| + 1));
    }
  }

  function JoinList(done: seq<string>, r: Option<seq<string>>): Option<seq<string>> {
    match r
    case None => None
    case Some(items) => Some(done + items)
  }

  lemma ListFromStart(r: Option<seq<string>>)
    ensures JoinList([], r) == r
  {
    if r.Some? {
      assert [] + r.value == r.value;
    }
  }

  lemma NoMoreColumns(done: seq<string>, count: nat)
    ensures JoinList(done, ColumnList("", count)) == Some(done)
  {
    assert done + [] == done;
  }

  lemma ColumnsEnd(s: string, done: seq<string>, n: nat, token: string)
    requires s != [] && n == CommaAt(s) && token == Trim(s[..n])
    requires |done| >= MAX_ITEMS || n >= MAX_NAME_LEN || token == [] || !IsWord(token)
    ensures JoinList(done, ColumnList(s, |done|)) == None
  {
    hide Trim, CommaAt, IsWord;
  }

  /** One step of ColumnList behind the columns in `done`. */
  lemma ColumnsAt(s: string, done: seq<string>, n: nat, token: string)
    requires s != [] && n == CommaAt(s) && token == Trim(s[..n])
    requires |done| < MAX_ITEMS && n < MAX_NAME_LEN && token != [] && IsWord(token)
    ensures n == |s| ==> JoinList(done, ColumnList(s, |done|)) == Some(done + [token])
    ensures n < |s|
       ==> JoinList(done, ColumnList(s, |done|)) ==
           JoinList(done + [token], ColumnList(s[n + 1..], |done| + 1))
  {
    hide Trim, CommaAt, IsWord;
    if n < |s| && ColumnList(s[n + 1..], |done| + 1).Some? {
      var rest := ColumnList(s[n + 1..], |done| + 1).value;
      assert done + ([token] + rest) == done + [token] + rest;
    }
  }
}
