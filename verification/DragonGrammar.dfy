/**
 The grammar of member-dragon's parser.  Each parser takes a text and returns what it read
 and the text behind it, or None where the source reports an error.
 */
module DragonGrammar {
  import opened Options
  import opened CStrings
  import opened Readers
  import opened SqlText
  import opened Comparison
  import opened ResultSets
  import opened Commands

  const MAX_NAME_LEN: nat := 256
  const MAX_STATEMENT_LEN: nat := 8192
  const MAX_COLUMNS_TEXT: nat := 1024
  /** MAX_COLUMNS, MAX_VALUES and MAX_SET_CLAUSES of the source. */
  const MAX_ITEMS: nat := 32

  // ---------- words ----------

  /** The keyword stands here and is not the beginning of a longer word. */
  predicate KeywordMatches(s: string, keyword: string) {
    CaseStarts(s, keyword) && !IsIdentifierChar(At(s, |keyword|))
  }

  function Keyword(s: string, keyword: string): (r: Option<string>)
    ensures r.Some? ==> |r.value| <= |s|
  {
    var t := TrimLeft(s);
    if KeywordMatches(t, keyword) then Some(t[|keyword|..]) else None
  }

  function Identifier(s: string): (r: Option<(string, string)>)
    ensures r.Some? ==> |r.value.1| < |s|
  {
    var t := TrimLeft(s);
    var n := WordLength(t);
    if n == 0 || n >= MAX_NAME_LEN then None else Some((t[..n], t[n..]))
  }

  // ---------- values ----------

  /** The rest of a quoted literal of which len characters are already read. */
  function Quoted(s: string, len: nat): (r: Option<(string, string)>)
    ensures r.Some? ==> |r.value.1| < |s|
    decreases |s|
  {
    if s == [] then None
    else if s[0] == '\'' then
      if At(s, 1) != '\'' then Some(("", s[1..]))
      else if len + 1 >= MAX_VALUE_LEN then None
      else Join(['\''], Quoted(s[2..], len + 1))
    else if len + 1 >= MAX_VALUE_LEN then None
    else Join([s[0]], Quoted(s[1..], len + 1))
  }

  predicate EndsToken(c: char) {
    IsSpace(c) || c == ',' || c == ')' || c == ';'
  }

  function TokenLength(s: string): (n: nat)
    ensures n <= |s|
  {
    if s != [] && !EndsToken(s[0]) then 1 + TokenLength(s[1..]) else 0
  }

  function BareToken(t: string): (r: Option<(string, string)>)
    ensures r.Some? ==> |r.value.1| < |t|
  {
    var n := TokenLength(t);
    var token := Trim(t[..n]);
    if n >= MAX_VALUE_LEN || token == [] then None else Some((token, t[n..]))
  }

  function Value(s: string): (r: Option<(string, string)>)
    ensures r.Some? ==> |r.value.1| < |s|
  {
    var t := TrimLeft(s);
    if At(t, 0) == '\'' then Quoted(t[1..], 0) else BareToken(t)
  }

  // ---------- lists in parentheses ----------

  datatype ItemKind = Names | Literals

  function Item(kind: ItemKind, s: string): (r: Option<(string, string)>)
    ensures r.Some? ==> |r.value.1| < |s|
  {
    if kind == Names then Identifier(s) else Value(s)
  }

  /** The items up to the closing parenthesis, behind count others. */
  function Items(kind: ItemKind, s: string, count: nat): Option<(seq<string>, string)>
    decreases |s|
  {
    var t := TrimLeft(s);
    if t == [] || t[0] == ')' || count >= MAX_ITEMS then None
    else
      var (item, behind) :- Item(kind, t);
      var u := TrimLeft(behind);
      if At(u, 0) == ',' then
        var (items, rest) :- Items(kind, u[1..], count + 1);
        Some(([item] + items, rest))
      else if At(u, 0) == ')' then Some(([item], u[1..]))
      else None
  }

  function Parenthesized(kind: ItemKind, s: string): Option<(seq<string>, string)> {
    var t := TrimLeft(s);
    if At(t, 0) != '(' then None else Items(kind, t[1..], 0)
  }

  // ---------- clauses ----------

  /** The operator that begins here; the longer ones first. */
  function OperatorHere(t: string): Option<(CompareOp, string)> {
    var next := At(t, 1) == '=';
    if At(t, 0) == '!' && next then Some((OpNe, t[2..]))
    else if At(t, 0) == '>' && next then Some((OpGe, t[2..]))
    else if At(t, 0) == '<' && next then Some((OpLe, t[2..]))
    else if At(t, 0) == '=' then Some((OpEq, t[1..]))
    else if At(t, 0) == '>' then Some((OpGt, t[1..]))
    else if At(t, 0) == '<' then Some((OpLt, t[1..]))
    else None
  }

  function Operator(s: string): Option<(CompareOp, string)> {
    OperatorHere(TrimLeft(s))
  }

  /** An optional clause: not there, and nothing is read; or there and well formed; or an error. */
  function WhereClause(s: string): Option<(Option<Where>, string)> {
    match Keyword(s, "WHERE")
    case None => Some((None, s))
    case Some(t) =>
      var (column, u) :- Identifier(t);
      var (op, v) :- Operator(u);
      var (value, rest) :- Value(v);
      Some((Some(Where(column, op, value)), rest))
  }

  /** The direction that begins here, and the text behind it. */
  function DirectionAt(w: string): (Direction, string) {
    if KeywordMatches(w, "DESC") then (Descending, w[4..])
    else if KeywordMatches(w, "ASC") then (Ascending, w[3..])
    else (Ascending, w)
  }

  function OrderClause(s: string): Option<(Option<OrderBy>, string)> {
    match Keyword(s, "ORDER")
    case None => Some((None, s))
    case Some(t) =>
      var u :- Keyword(t, "BY");
      var (column, v) :- Identifier(u);
      var (direction, rest) := DirectionAt(TrimLeft(v));
      Some((Some(OrderBy(column, direction)), rest))
  }

  function LimitClause(s: string): Option<(Option<nat>, string)> {
    match Keyword(s, "LIMIT")
    case None => Some((None, s))
    case Some(t) =>
      var u := TrimLeft(t);
      var n := SkipDigits(u, 0);
      if n == 0 then None else Some((Some(DigitsValue(u[..n])), u[n..]))
  }

  /** Nothing is left but blanks and at most one semicolon. */
  predicate Ended(s: string) {
    var t := TrimLeft(s);
    TrimLeft(if At(t, 0) == ';' then t[1..] else t) == []
  }

  // ---------- statements ----------

  function ParseInsert(s: string): Option<Command> {
    var a :- Keyword(s, "INSERT");
    var b :- Keyword(a, "INTO");
    var (table, c) :- Identifier(b);
    var (columns, d) :- Parenthesized(Names, c);
    var e :- Keyword(d, "VALUES");
    var (values, rest) :- Parenthesized(Literals, e);
    if Ended(rest) then Some(InsertInto(table, columns, values)) else None
  }

  function ParseDelete(s: string): Option<Command> {
    var a :- Keyword(s, "DELETE");
    var b :- Keyword(a, "FROM");
    var (table, c) :- Identifier(b);
    var (where, rest) :- WhereClause(c);
    if Ended(rest) then Some(DeleteFrom(table, where)) else None
  }

  /** One SET clause. */
  function SetClauseAt(s: string): (r: Option<(SetClause, string)>)
    ensures r.Some? ==> |r.value.1| < |s|
  {
    var (column, a) :- Identifier(s);
    var b := TrimLeft(a);
    if At(b, 0) != '=' then None
    else
      var (value, c) :- Value(b[1..]);
      Some((SetClause(column, value), c))
  }

  /** SET clauses between commas, behind count others. */
  function SetClauses(s: string, count: nat): Option<(seq<SetClause>, string)>
    decreases |s|
  {
    if count >= MAX_ITEMS then None
    else
      var (clause, behind) :- SetClauseAt(s);
      var d := TrimLeft(behind);
      if At(d, 0) == ',' then
        var (sets, rest) :- SetClauses(d[1..], count + 1);
        Some(([clause] + sets, rest))
      else Some(([clause], d))
  }

  function ParseUpdate(s: string): Option<Command> {
    var a :- Keyword(s, "UPDATE");
    var (table, b) :- Identifier(a);
    var c :- Keyword(b, "SET");
    var (sets, d) :- SetClauses(c, 0);
    var (where, rest) :- WhereClause(d);
    if Ended(rest) then Some(UpdateSet(table, sets, where)) else None
  }

  /** The first place from i on where the keyword stands as a word of its own. */
  function FindKeyword(s: string, i: nat, keyword: string): (r: Option<nat>)
    requires i <= |s|
    ensures r.Some? ==> i <= r.value < |s|
    decreases |s| - i
  {
    if i == |s| then None
    else if (i == 0 || !IsIdentifierChar(s[i - 1])) && KeywordMatches(s[i..], keyword) then Some(i)
    else FindKeyword(s, i + 1, keyword)
  }

  function CommaAt(s: string): (n: nat)
    ensures n <= |s|
  {
    if s == [] || s[0] == ',' then 0 else 1 + CommaAt(s[1..])
  }

  /** Column names between commas; a comma at the end is allowed. */
  function ColumnList(s: string, count: nat): Option<seq<string>>
    decreases |s|
  {
    if s == [] then Some([])
    else if count >= MAX_ITEMS then None
    else
      var n := CommaAt(s);
      var token := Trim(s[..n]);
      if n >= MAX_NAME_LEN || token == [] || !IsWord(token) then None
      else if n == |s| then Some([token])
      else
        var rest :- ColumnList(s[n + 1..], count + 1);
        Some([token] + rest)
  }

  /** Whether all columns are selected, and which ones otherwise. */
  function SelectedColumns(s: string): Option<(bool, seq<string>)> {
    if s == "*" then Some((true, []))
    else
      var columns :- ColumnList(s, 0);
      if columns == [] then None else Some((false, columns))
  }

  function ParseSelect(s: string): Option<Command> {
    var a :- Keyword(s, "SELECT");
    var b := TrimLeft(a);
    var from :- FindKeyword(b, 0, "FROM");
    if from == 0 || from >= MAX_COLUMNS_TEXT then None
    else
      var (all, columns) :- SelectedColumns(Trim(b[..from]));
      ParseFrom(b[from..], all, columns)
  }

  /** The end of a SELECT, behind its WHERE. */
  function OrderAndLimit(s: string): Option<(Option<OrderBy>, Option<nat>)> {
    var (orderBy, a) :- OrderClause(s);
    var (limit, rest) :- LimitClause(a);
    if Ended(rest) then Some((orderBy, limit)) else None
  }

  /** A SELECT from its FROM on. */
  function ParseFrom(s: string, all: bool, columns: seq<string>): Option<Command> {
    var a :- Keyword(s, "FROM");
    var (table, b) :- Identifier(a);
    var (where, c) :- WhereClause(b);
    var (orderBy, limit) :- OrderAndLimit(c);
    Some(SelectFrom(table, all, columns, where, orderBy, limit))
  }

  function StripSemicolons(s: string): string {
    if s != [] && s[|s| - 1] == ';' then StripSemicolons(s[..|s| - 1]) else s
  }

  function ParseSql(sql: string): Option<Command> {
    if |sql| >= MAX_STATEMENT_LEN then None
    else
      var working := Trim(StripSemicolons(Trim(sql)));
      if working == [] then Some(NoCommand)
      else if KeywordMatches(working, "INSERT") then ParseInsert(working)
      else if KeywordMatches(working, "SELECT") then ParseSelect(working)
      else if KeywordMatches(working, "DELETE") then ParseDelete(working)
      else if KeywordMatches(working, "UPDATE") then ParseUpdate(working)
      else None
  }
}
