/**
 One spelling of each command: its tokens with a blank in front of each, values quoted or, where
 the caller wants it, bare.  The parser reads the command back.
 */
module DragonPrinting {
  import opened Options
  import opened CStrings
  import opened SqlText
  import opened ResultSets
  import opened Commands
  import opened DragonGrammar
  import opened DragonTokens
  import opened DragonSpelling
  import opened DragonColumns
  import opened DragonRoundTrip
  import FileCodec

  // ---------- printing ----------

  /** The text of a token; a value that may be bare is, if `bare` says so. */
  function TokenText(token: Token, bare: string -> bool): string {
    match token
    case Key(w) => w
    case Name(w) => w
    case Val(v) => if bare(v) && Bare(v) then v else PrintLiteral(v, "")
    case Oper(op) => OperatorText(op)
    case Sign(x) => x
    case Number(n) => FileCodec.Decimal(n)
  }

  function Text(tokens: seq<Token>, bare: string -> bool): string {
    if tokens == [] then "" else " " + (TokenText(tokens[0], bare) + Text(tokens[1..], bare))
  }

  /** The tokens of a command, with ASC written out. */
  function Tokens(cmd: Command): seq<Token>
    requires Printable(cmd)
  {
    match cmd
    case NoCommand => []
    case InsertInto(_, _, _) => InsertTokens(cmd)
    case SelectFrom(table, all, columns, where, orderBy, limit) =>
      [Key("SELECT")] + (SelectionTokens(all, columns, false) + FromTokens(table, where, orderBy, limit, true))
    case DeleteFrom(_, _) => DeleteTokens(cmd)
    case UpdateSet(_, _, _) => UpdateTokens(cmd)
  }

  function Print(cmd: Command, bare: string -> bool): string
    requires Printable(cmd)
  {
    Text(Tokens(cmd), bare)
  }

  // ---------- the bounds of the parser ----------

  predicate ValidValue(v: string) {
    |v| < 256
  }

  predicate ValidItem(kind: ItemKind, item: string) {
    if kind == Names then ValidName(item) else ValidValue(item)
  }

  predicate ValidItems(kind: ItemKind, items: seq<string>) {
    0 < |items| <= 32 && forall item <- items :: ValidItem(kind, item)
  }

  predicate ValidWhere(where: Option<Where>) {
    where.Some? ==> ValidName(where.value.column) && ValidValue(where.value.value)
  }

  predicate ValidSets(sets: seq<SetClause>) {
    0 < |sets| <= 32 && forall s <- sets :: ValidName(s.column) && ValidValue(s.value)
  }

  /** The column list fits the buffer in front of FROM, and each column, with its blanks, its token. */
  predicate ValidSelection(all: bool, columns: seq<string>) {
    if all then columns == []
    else
      && ValidItems(Names, columns) && (forall c <- columns :: |c| + 2 < 256)
      && |Text(ItemTokens(Names, columns), _ => false)| < 1024
  }

  predicate Printable(cmd: Command) {
    match cmd
    case NoCommand => true
    case InsertInto(table, columns, values) =>
      ValidName(table) && ValidItems(Names, columns) && ValidItems(Literals, values)
    case SelectFrom(table, all, columns, where, orderBy, limit) =>
      && ValidName(table) && ValidSelection(all, columns) && ValidWhere(where)
      && (orderBy.Some? ==> ValidName(orderBy.value.column))
      && (limit.Some? ==> limit.value < 0x8000_0000)
    case DeleteFrom(table, where) => ValidName(table) && ValidWhere(where)
    case UpdateSet(table, sets, where) => ValidName(table) && ValidSets(sets) && ValidWhere(where)
  }

  predicate SelectsFrom(cmd: Command) {
    cmd.SelectFrom? && exists c <- cmd.columns :: SpelledFrom(c)
  }

  // ---------- one token ----------

  predicate Writable(token: Token) {
    match token
    case Key(w) => w != [] && IsWord(w)
    case Name(w) => ValidName(w)
    case Val(v) => ValidValue(v)
    case Oper(_) => true
    case Sign(x) => x == "(" || x == ")" || x == "," || x == "=" || x == "*"
    case Number(_) => true
  }

  lemma {:induction false} DecimalMeans(n: nat)
    ensures DigitsValue(FileCodec.Decimal(n)) == n
  {
    var s := FileCodec.Decimal(n);
    if n >= 10 {
      DecimalMeans(n / 10);
      assert s[..|s| - 1] == FileCodec.Decimal(n / 10);
    } else {
      assert s[..0] == [] && DigitsValue([]) == 0;
    }
  }

  lemma NumberReads(n: nat, rest: string)
    requires rest == [] || rest[0] == ' '
    ensures Behind(FileCodec.Decimal(n) + rest, Number(n)) == Some(rest)
  {
    hide FileCodec.Decimal;
    var d := FileCodec.Decimal(n);
    DecimalMeans(n);
    FileCodec.SkipDigitsExactly(d + rest, 0, |d|);
    assert (d + rest)[..|d|] == d;
  }

  lemma SameLettersItself(w: string)
    ensures SameLetters(w, w)
  {
  }

  /** A printed token is read back in front of a blank or the end. */
  lemma TokenReads(token: Token, bare: string -> bool, rest: string)
    requires Writable(token) && (rest == [] || rest[0] == ' ')
    ensures Behind(TokenText(token, bare) + rest, token) == Some(rest)
  {
    hide FileCodec.Decimal, PrintBody, Bare;
    var x := TokenText(token, bare);
    assert (x + rest)[..|x|] == x && (x + rest)[|x|..] == rest;
    match token {
      case Key(w) => SameLettersItself(w);
      case Val(v) => ValBehind(x + rest, v, rest);
      case Number(n) => NumberReads(n, rest);
      case _ =>
    }
  }

  /** It has neither a blank nor a semicolon at an end. */
  lemma TokenEnds(token: Token, bare: string -> bool)
    requires Writable(token)
    ensures var x := TokenText(token, bare);
            && x != [] && x[0] !in BLANKS && x[|x| - 1] !in BLANKS && x[|x| - 1] != ';'
  {
    hide FileCodec.Decimal, BLANKS;
    var x := TokenText(token, bare);
    assert x != [] by {
      if token.Val? {
        BodyInFront(token.value, "");
      }
    }
    SpaceExactly(x[0]);
    SpaceExactly(x[|x| - 1]);
    assert x[0] in x && x[|x| - 1] in x;
    if token.Val? && x == PrintLiteral(token.value, "") {
      BodyCloses(token.value);
    }
  }

  lemma {:induction false} BodyCloses(v: string)
    ensures PrintBody(v, "") != [] && PrintBody(v, "")[|PrintBody(v, "")| - 1] == '\''
  {
    if v != [] {
      BodyCloses(v[1..]);
    }
  }

  // ---------- lists of tokens ----------

  predicate AllWritable(tokens: seq<Token>) {
    forall t <- tokens :: Writable(t)
  }

  lemma {:induction false} TextJoined(a: seq<Token>, b: seq<Token>, bare: string -> bool)
    ensures Text(a + b, bare) == Text(a, bare) + Text(b, bare)
  {
    hide TokenText;
    if a == [] {
      assert a + b == b;
    } else {
      assert (a + b)[1..] == a[1..] + b;
      TextJoined(a[1..], b, bare);
    }
  }

  lemma TextStarts(tokens: seq<Token>, bare: string -> bool)
    ensures Text(tokens, bare) == [] || Text(tokens, bare)[0] == ' '
  {
    hide TokenText;
  }

  lemma FirstRead(token: Token, rest: string, bare: string -> bool)
    requires Writable(token) && (rest == [] || rest[0] == ' ')
    ensures Behind(TrimLeft(" " + (TokenText(token, bare) + rest)), token) == Some(rest)
  {
    hide TokenText, Behind, Writable, TrimLeft, BLANKS;
    var x := TokenText(token, bare);
    TokenReads(token, bare, rest);
    TokenEnds(token, bare);
    SpaceExactly(x[0]);
    BlankSkipped(x + rest);
  }

  lemma TailWritten(tokens: seq<Token>)
    requires AllWritable(tokens) && tokens != []
    ensures Writable(tokens[0]) && AllWritable(tokens[1..])
  {
    hide Writable;
    assert forall t <- tokens[1..] :: t in tokens;
  }

  lemma {:induction false} TextReads(tokens: seq<Token>, more: seq<Token>, bare: string -> bool)
    requires AllWritable(tokens)
    ensures BehindAll(Text(tokens, bare) + Text(more, bare), tokens) == Some(Text(more, bare))
    decreases |tokens|
  {
    hide TokenText, Behind, AllWritable, Writable, TrimLeft, BLANKS;
    var z := Text(more, bare);
    if tokens == [] {
      assert "" + z == z;
    } else {
      var x, rest := TokenText(tokens[0], bare), Text(tokens[1..], bare) + z;
      TailWritten(tokens);
      TextReads(tokens[1..], more, bare);
      TextStarts(tokens[1..], bare);
      TextStarts(more, bare);
      FirstRead(tokens[0], rest, bare);
      Reassociated(x, Text(tokens[1..], bare), z);
    }
  }

  lemma Reassociated(x: string, t: string, z: string)
    ensures " " + (x + t) + z == " " + (x + (t + z))
  {
  }

  lemma {:induction false} TextEnds(tokens: seq<Token>, bare: string -> bool)
    requires AllWritable(tokens) && tokens != []
    ensures var s := Text(tokens, bare);
            && |s| > 1 && s[0] == ' ' && s[1] !in BLANKS && s[|s| - 1] !in BLANKS && s[|s| - 1] != ';'
  {
    hide TokenText, AllWritable, Writable, BLANKS;
    TailWritten(tokens);
    TokenEnds(tokens[0], bare);
    if |tokens| > 1 {
      TextEnds(tokens[1..], bare);
      EndsBehind(TokenText(tokens[0], bare), Text(tokens[1..], bare));
    } else {
      assert TokenText(tokens[0], bare) + "" == TokenText(tokens[0], bare);
    }
  }

  lemma EndsBehind(x: string, t: string)
    requires x != [] && |t| > 1
    ensures var s := " " + (x + t); |s| > 1 && s[0] == ' ' && s[1] == x[0] && s[|s| - 1] == t[|t| - 1]
  {
  }

  // ---------- the tokens of a command can be written ----------

  lemma WritableJoined(a: seq<Token>, b: seq<Token>)
    requires AllWritable(a) && AllWritable(b)
    ensures AllWritable(a + b)
  {
  }

  lemma {:induction false} ItemsWritable(kind: ItemKind, items: seq<string>)
    requires items != [] && forall item <- items :: ValidItem(kind, item)
    ensures AllWritable(ItemTokens(kind, items))
  {
    hide ValidName;
    assert items[0] in items && forall item <- items[1..] :: item in items;
    assert Writable(ItemToken(kind, items[0]));
    assert AllWritable([ItemToken(kind, items[0])]) && AllWritable([Sign(",")]);
    if |items| > 1 {
      ItemsWritable(kind, items[1..]);
      WritableJoined([Sign(",")], ItemTokens(kind, items[1..]));
    }
    hide AllWritable, Writable;
    WritableJoined([ItemToken(kind, items[0])],
                   if |items| == 1 then [] else [Sign(",")] + ItemTokens(kind, items[1..])) by { NoneWritable(); }
  }

  lemma NoneWritable()
    ensures AllWritable([])
  {
  }

  lemma {:induction false} SetsWritable(sets: seq<SetClause>)
    requires sets != [] && forall s <- sets :: ValidName(s.column) && ValidValue(s.value)
    ensures AllWritable(SetTokens(sets))
  {
    hide ValidName, ValidValue;
    assert sets[0] in sets && forall s <- sets[1..] :: s in sets;
    var first := [Name(sets[0].column), Sign("="), Val(sets[0].value)];
    assert AllWritable(first) && AllWritable([Sign(",")]);
    if |sets| > 1 {
      SetsWritable(sets[1..]);
      WritableJoined([Sign(",")], SetTokens(sets[1..]));
    }
    hide AllWritable, Writable;
    WritableJoined(first, if |sets| == 1 then [] else [Sign(",")] + SetTokens(sets[1..])) by { NoneWritable(); }
  }

  lemma WhereWritable(where: Option<Where>)
    requires ValidWhere(where)
    ensures AllWritable(WhereTokens(where))
  {
    hide ValidName, ValidValue;
  }

  lemma TailWritable(orderBy: Option<OrderBy>, limit: Option<nat>)
    requires orderBy.Some? ==> ValidName(orderBy.value.column)
    ensures AllWritable(OrderTokens(orderBy, true) + LimitTokens(limit))
  {
    hide ValidName;
    assert AllWritable(OrderTokens(orderBy, true)) && AllWritable(LimitTokens(limit));
    hide OrderTokens, LimitTokens, AllWritable;
    WritableJoined(OrderTokens(orderBy, true), LimitTokens(limit));
  }

  lemma FromWritable(table: string, where: Option<Where>, orderBy: Option<OrderBy>, limit: Option<nat>)
    requires ValidName(table) && ValidWhere(where) && (orderBy.Some? ==> ValidName(orderBy.value.column))
    ensures AllWritable(FromTokens(table, where, orderBy, limit, true))
  {
    hide ValidName, ValidWhere;
    assert AllWritable([Key("FROM"), Name(table)]);
    WhereWritable(where);
    TailWritable(orderBy, limit);
    hide AllWritable, OrderTokens, LimitTokens, WhereTokens;
    WritableJoined(WhereTokens(where), OrderTokens(orderBy, true) + LimitTokens(limit));
    WritableJoined([Key("FROM"), Name(table)], BodyTokens(where, orderBy, limit, true));
  }

  lemma ListWritable(kind: ItemKind, items: seq<string>)
    requires ValidItems(kind, items)
    ensures AllWritable(ListTokens(kind, items))
  {
    hide ItemTokens, ValidItem;
    ItemsWritable(kind, items);
    assert AllWritable([Sign("(")]) && AllWritable([Sign(")")]);
    hide AllWritable;
    WritableJoined(ItemTokens(kind, items), [Sign(")")]);
    WritableJoined([Sign("(")], ItemTokens(kind, items) + [Sign(")")]);
  }

  lemma SelectionWritable(all: bool, columns: seq<string>)
    requires ValidSelection(all, columns)
    ensures AllWritable(SelectionTokens(all, columns, false))
  {
    hide ItemTokens, ValidItem, Text;
    if !all {
      ItemsWritable(Names, columns);
      assert ItemTokens(Names, columns) + [] == ItemTokens(Names, columns);
    }
  }

  lemma InsertWritable(cmd: Command)
    requires cmd.InsertInto? && Printable(cmd)
    ensures AllWritable(InsertTokens(cmd))
  {
    hide ValidName, ListTokens, ValidItem;
    ListWritable(Names, cmd.columns);
    ListWritable(Literals, cmd.values);
    assert AllWritable([Key("VALUES")]) && AllWritable([Key("INSERT"), Key("INTO"), Name(cmd.table)]);
    hide AllWritable;
    WritableJoined([Key("VALUES")], ListTokens(Literals, cmd.values));
    WritableJoined(ListTokens(Names, cmd.columns), [Key("VALUES")] + ListTokens(Literals, cmd.values));
    WritableJoined([Key("INSERT"), Key("INTO"), Name(cmd.table)],
                   ListTokens(Names, cmd.columns) + ([Key("VALUES")] + ListTokens(Literals, cmd.values)));
  }

  lemma SelectWritable(cmd: Command)
    requires cmd.SelectFrom? && Printable(cmd)
    ensures AllWritable(Tokens(cmd))
  {
    hide ValidName, ValidItem, Text, SelectionTokens, FromTokens, ValidWhere;
    var from := FromTokens(cmd.table, cmd.where, cmd.orderBy, cmd.limit, true);
    var selection := SelectionTokens(cmd.all, cmd.columns, false);
    FromWritable(cmd.table, cmd.where, cmd.orderBy, cmd.limit);
    SelectionWritable(cmd.all, cmd.columns);
    assert AllWritable([Key("SELECT")]);
    hide AllWritable;
    WritableJoined(selection, from);
    WritableJoined([Key("SELECT")], selection + from);
  }

  lemma UpdateWritable(cmd: Command)
    requires cmd.UpdateSet? && Printable(cmd)
    ensures AllWritable(UpdateTokens(cmd))
  {
    hide ValidName, ValidValue, SetTokens, WhereTokens, ValidWhere;
    WhereWritable(cmd.where);
    SetsWritable(cmd.sets);
    assert AllWritable([Key("UPDATE"), Name(cmd.table), Key("SET")]);
    hide AllWritable;
    WritableJoined(SetTokens(cmd.sets), WhereTokens(cmd.where));
    WritableJoined([Key("UPDATE"), Name(cmd.table), Key("SET")], SetTokens(cmd.sets) + WhereTokens(cmd.where));
  }

  lemma DeleteWritable(cmd: Command)
    requires cmd.DeleteFrom? && Printable(cmd)
    ensures AllWritable(DeleteTokens(cmd))
  {
    hide ValidName, WhereTokens, ValidWhere;
    WhereWritable(cmd.where);
    assert AllWritable([Key("DELETE"), Key("FROM"), Name(cmd.table)]);
    hide AllWritable;
    WritableJoined([Key("DELETE"), Key("FROM"), Name(cmd.table)], WhereTokens(cmd.where));
  }

  lemma TokensWritable(cmd: Command)
    requires Printable(cmd)
    ensures AllWritable(Tokens(cmd))
  {
    hide Printable, InsertTokens, DeleteTokens, UpdateTokens, SelectionTokens, FromTokens, AllWritable;
    match cmd {
      case NoCommand => NoneWritable();
      case InsertInto(_, _, _) => InsertWritable(cmd);
      case SelectFrom(_, _, _, _, _, _) => SelectWritable(cmd);
      case DeleteFrom(_, _) => DeleteWritable(cmd);
      case UpdateSet(_, _, _) => UpdateWritable(cmd);
    }
  }

  // ---------- the column list fits ----------

  lemma RoomyBehind(front: string, s: string)
    requires Roomy(front + s)
    ensures Roomy(s)
  {
    var n := |front|;
    forall i, j | 0 <= i <= j <= |s| && ',' !in s[i..j] ensures j - i < 256 {
      assert (front + s)[i + n..j + n] == s[i..j];
    }
  }

  lemma NamesShape(columns: seq<string>)
    requires columns != []
    ensures ItemTokens(Names, columns)
         == if |columns| == 1 then [Name(columns[0])]
            else [Name(columns[0]), Sign(",")] + ItemTokens(Names, columns[1..])
  {
    if |columns| > 1 {
      PairInFront(Name(columns[0]), Sign(","), ItemTokens(Names, columns[1..]));
    } else {
      assert [Name(columns[0])] + [] == [Name(columns[0])];
    }
  }

  lemma PairInFront(a: Token, b: Token, more: seq<Token>)
    ensures [a] + ([b] + more) == [a, b] + more
  {
  }

  lemma FirstColumnText(columns: seq<string>, bare: string -> bool)
    requires columns != []
    ensures Text(ItemTokens(Names, columns), bare)
         == if |columns| == 1 then " " + columns[0]
            else " " + columns[0] + " " + "," + Text(ItemTokens(Names, columns[1..]), bare)
  {
    hide ItemTokens, Text;
    NamesShape(columns);
    if |columns| > 1 {
      TwoText(Name(columns[0]), Sign(","), ItemTokens(Names, columns[1..]), bare);
      Between(columns[0], Text(ItemTokens(Names, columns[1..]), bare));
    } else {
      OneText(Name(columns[0]), bare);
    }
  }

  lemma Between(c: string, rest: string)
    ensures " " + (c + (" " + ("," + rest))) == " " + c + " " + "," + rest
  {
  }

  lemma OneText(token: Token, bare: string -> bool)
    ensures Text([token], bare) == " " + TokenText(token, bare)
  {
    hide TokenText;
    var x := TokenText(token, bare);
    assert [token][1..] == [] && x + "" == x;
  }

  lemma {:induction false} RoomyColumns(columns: seq<string>, bare: string -> bool)
    requires columns != [] && forall c <- columns :: ValidName(c) && |c| + 2 < 256
    ensures Roomy(Text(ItemTokens(Names, columns), bare))
  {
    hide Roomy, ValidName, Text, ItemTokens;
    var c := columns[0];
    assert c in columns && forall d <- columns[1..] :: d in columns;
    NameEdges(c);
    FirstColumnText(columns, bare);
    if |columns| == 1 {
      RoomyAlone(" " + c);
    } else {
      RoomyColumns(columns[1..], bare);
      RoomySplit(" " + c + " ", Text(ItemTokens(Names, columns[1..]), bare));
    }
  }

  lemma TwoText(a: Token, b: Token, rest: seq<Token>, bare: string -> bool)
    ensures Text([a, b] + rest, bare)
         == " " + (TokenText(a, bare) + (" " + (TokenText(b, bare) + Text(rest, bare))))
  {
    hide TokenText;
    assert ([a, b] + rest)[1..] == [b] + rest && ([b] + rest)[1..] == rest;
  }

  /** The bareness of values does not matter to columns. */
  lemma {:induction false} ColumnsSame(columns: seq<string>, a: string -> bool, b: string -> bool)
    requires columns != []
    ensures Text(ItemTokens(Names, columns), a) == Text(ItemTokens(Names, columns), b)
  {
    hide Text, ItemTokens;
    FirstColumnText(columns, a);
    FirstColumnText(columns, b);
    if |columns| > 1 {
      ColumnsSame(columns[1..], a, b);
    }
  }

  lemma SelectionFits(all: bool, columns: seq<string>, bare: string -> bool)
    requires ValidSelection(all, columns)
    ensures var s := Text(SelectionTokens(all, columns, false), bare);
            |s| < 1024 && |s| > 1 && s[0] == ' ' && Roomy(s[1..])
  {
    hide ItemTokens, ValidName, Roomy, Text;
    var tokens := SelectionTokens(all, columns, false);
    SelectionWritable(all, columns);
    NotEmptySelection(all, columns);
    TextEnds(tokens, bare);
    var s := Text(tokens, bare);
    assert s == " " + s[1..];
    if all {
      StarText(bare);
      RoomyAlone("*");
    } else {
      assert tokens == ItemTokens(Names, columns);
      RoomyColumns(columns, bare);
      RoomyBehind(" ", s[1..]);
      ColumnsSame(columns, bare, _ => false);
    }
  }

  lemma NotEmptySelection(all: bool, columns: seq<string>)
    requires all || columns != []
    ensures SelectionTokens(all, columns, false) != []
  {
  }

  lemma StarText(bare: string -> bool)
    ensures Text([Sign("*")], bare) == " *"
  {
  }

  lemma PrintedFits(all: bool, columns: seq<string>, from: seq<Token>, bare: string -> bool)
    requires ValidSelection(all, columns) && AllWritable(from) && from != []
    ensures FitsBuffers(Text(SelectionTokens(all, columns, false), bare) + Text(from, bare), Text(from, bare))
  {
    hide Text, Roomy, TrimRight, ColumnTokens;
    var s, z := Text(SelectionTokens(all, columns, false), bare), Text(from, bare);
    SelectionFits(all, columns, bare);
    SelectionWritable(all, columns);
    NotEmptySelection(all, columns);
    TextEnds(SelectionTokens(all, columns, false), bare);
    TextEnds(from, bare);
    FrontIs(s, z);
  }

  lemma FrontIs(s: string, z: string)
    requires 1 < |s| < 1024 && s[0] == ' ' && s[1] !in BLANKS && s[|s| - 1] !in BLANKS && Roomy(s[1..])
    requires |z| > 1 && z[0] == ' ' && z[1] !in BLANKS
    ensures FitsBuffers(s + z, z)
  {
    hide Roomy, TrimRight;
    SpaceExactly(s[1]);
    SpaceExactly(z[1]);
    SpaceExactly(s[|s| - 1]);
    BlankSkipped(z[1..]);
    assert z == " " + z[1..] && s + z == " " + (s[1..] + z);
    BlankSkipped(s[1..] + z);
    var b := s[1..] + z;
    assert b[..|s|] == s[1..] + " ";
    TrimRightOf(s[1..], " ");
  }

  // ---------- the round trip ----------

  /** Behind its first blank a printed command spells itself. */
  lemma PrintedSpells(tokens: seq<Token>, bare: string -> bool)
    requires AllWritable(tokens) && tokens != []
    ensures Spells(Text(tokens, bare)[1..], tokens)
  {
    hide Text, Behind, TrimLeft, OnlyEnd;
    var s := Text(tokens, bare);
    TextEnds(tokens, bare);
    TextReads(tokens, [], bare);
    NoText(bare);
    assert s + "" == s && s == " " + s[1..];
    SpaceExactly(s[1]);
    BlankSkipped(s[1..]);
    NothingEnds();
  }

  lemma NoText(bare: string -> bool)
    ensures Text([], bare) == ""
  {
  }

  lemma NothingEnds()
    ensures OnlyEnd("")
  {
  }

  lemma SelectPrintedSpells(cmd: Command, bare: string -> bool)
    requires cmd.SelectFrom? && Printable(cmd) && !SelectsFrom(cmd)
    ensures SpellsSelect(Print(cmd, bare)[1..], cmd)
  {
    hide Text, Behind, BehindAll, TrimLeft, OnlyEnd, SelectionTokens, FromTokens, FitsBuffers, SpelledFrom, ValidWhere,
         ValidName;
    var from := FromTokens(cmd.table, cmd.where, cmd.orderBy, cmd.limit, true);
    var selection := SelectionTokens(cmd.all, cmd.columns, false);
    FromWritable(cmd.table, cmd.where, cmd.orderBy, cmd.limit);
    SelectionWritable(cmd.all, cmd.columns);
    NotEmptyFrom(cmd.table, cmd.where, cmd.orderBy, cmd.limit);
    PrintedFits(cmd.all, cmd.columns, from, bare);
    TextReads(selection, from, bare);
    TextReads(from, [], bare);
    NoText(bare);
    NothingEnds();
    var a, u := Text(selection, bare) + Text(from, bare), Text(from, bare);
    assert u + "" == u;
    VerbRead(selection, from, bare);
    assert SpellsCut(a, cmd, false, true);
  }

  lemma NotEmptyFrom(table: string, where: Option<Where>, orderBy: Option<OrderBy>, limit: Option<nat>)
    ensures FromTokens(table, where, orderBy, limit, true) != []
  {
  }

  lemma VerbRead(selection: seq<Token>, from: seq<Token>, bare: string -> bool)
    requires AllWritable(selection) && AllWritable(from)
    ensures var s := Text([Key("SELECT")] + (selection + from), bare);
            && |s| > 1 && Behind(TrimLeft(s[1..]), Key("SELECT")) == Some(Text(selection, bare) + Text(from, bare))
  {
    hide Behind, TrimLeft, Text;
    var rest := Text(selection + from, bare);
    TextJoined([Key("SELECT")], selection + from, bare);
    TextJoined(selection, from, bare);
    OneText(Key("SELECT"), bare);
    var s := Text([Key("SELECT")] + (selection + from), bare);
    assert s == " " + "SELECT" + rest && s[1..] == "SELECT" + rest;
    BlankSkipped("SELECT" + rest);
    TextStarts(selection + from, bare);
    TokenReads(Key("SELECT"), bare, rest);
  }

  lemma PrintedCleans(tokens: seq<Token>, bare: string -> bool)
    requires AllWritable(tokens) && tokens != []
    ensures Clean(Text(tokens, bare)) == Text(tokens, bare)[1..]
  {
    hide Text, Clean, BLANKS;
    var s := Text(tokens, bare);
    TextEnds(tokens, bare);
    SpaceExactly(' ');
    var core := s[1..];
    assert " " + core + "" + "" + "" == s;
    assert forall c <- " " + "" + "" :: c == ' ';
    CleanExactly(" ", core, "", "", "");
  }

  lemma CommandHasTokens(cmd: Command)
    requires Printable(cmd)
    ensures Tokens(cmd) == [] <==> cmd.NoCommand?
  {
    hide Printable, ListTokens, SetTokens, WhereTokens, BodyTokens, SelectionTokens;
  }

  /**
   Parsing undoes printing, whichever values are written bare: every command within the
   parser's bounds is read back, exactly if no selected column is spelled like FROM.
   */
  lemma ParseUndoesPrintExactly(cmd: Command, bare: string -> bool)
    requires Printable(cmd) && |Print(cmd, bare)| < 8192
    ensures ParseSql(Print(cmd, bare)) == Some(cmd) <==> !SelectsFrom(cmd)
  {
    hide ParseSql, Printable, Tokens, Text, Clean, Spells, SpellsCut, AllWritable, SpelledFrom, InsertTokens,
         DeleteTokens, UpdateTokens, Behind;
    var s := Print(cmd, bare);
    ParsesExactly(s, cmd);
    CommandHasTokens(cmd);
    TokensWritable(cmd);
    if cmd.NoCommand? {
      NothingPrinted(bare);
    } else {
      PrintedCleans(Tokens(cmd), bare);
      PrintedSpells(Tokens(cmd), bare);
      TextEnds(Tokens(cmd), bare);
      PrintedIsSpelled(cmd, bare);
    }
  }

  lemma NothingPrinted(bare: string -> bool)
    ensures Printable(NoCommand) && Print(NoCommand, bare) == "" && Clean("") == ""
  {
    assert Trim("") == "" && StripSemicolons("") == "";
  }

  lemma PrintedIsSpelled(cmd: Command, bare: string -> bool)
    requires Printable(cmd) && !cmd.NoCommand? && |Print(cmd, bare)| > 0
    requires Spells(Print(cmd, bare)[1..], Tokens(cmd))
    ensures Spelled(Print(cmd, bare)[1..], cmd) <==> !SelectsFrom(cmd)
  {
    hide Spells, Text, ValidItem, ValidName, ValidWhere, SpelledFrom, InsertTokens, DeleteTokens, UpdateTokens,
         SelectionTokens, FromTokens;
    if cmd.SelectFrom? {
      if !SelectsFrom(cmd) {
        SelectPrintedSpells(cmd, bare);
      }
    }
  }
}
