/**
 Statements of member-dragon as lists of tokens: the parser makes a command of a text exactly
 if the text spells the command's tokens, in whatever case, with whatever blanks between them.
 */
module DragonSpelling {
  import opened Options
  import opened CStrings
  import opened SqlText
  import opened ResultSets
  import opened Commands
  import opened DragonGrammar
  import opened DragonTokens

  // ---------- the tokens of a command ----------

  function ItemToken(kind: ItemKind, item: string): Token {
    if kind == Names then Name(item) else Val(item)
  }

  function ItemTokens(kind: ItemKind, items: seq<string>): seq<Token>
    requires items != []
  {
    [ItemToken(kind, items[0])] + if |items| == 1 then [] else [Sign(",")] + ItemTokens(kind, items[1..])
  }

  function ListTokens(kind: ItemKind, items: seq<string>): seq<Token>
    requires items != []
  {
    [Sign("(")] + (ItemTokens(kind, items) + [Sign(")")])
  }

  function WhereTokens(where: Option<Where>): seq<Token> {
    match where
    case None => []
    case Some(Where(column, op, value)) => [Key("WHERE"), Name(column), Oper(op), Val(value)]
  }

  /** The word ASC may be left out. */
  function OrderTokens(orderBy: Option<OrderBy>, asc: bool): seq<Token> {
    match orderBy
    case None => []
    case Some(OrderBy(column, direction)) =>
      [Key("ORDER"), Key("BY"), Name(column)]
      + if direction == Descending then [Key("DESC")] else if asc then [Key("ASC")] else []
  }

  function LimitTokens(limit: Option<nat>): seq<Token> {
    match limit
    case None => []
    case Some(n) => [Key("LIMIT"), Number(n)]
  }

  function SetTokens(sets: seq<SetClause>): seq<Token>
    requires sets != []
  {
    [Name(sets[0].column), Sign("="), Val(sets[0].value)]
    + if |sets| == 1 then [] else [Sign(",")] + SetTokens(sets[1..])
  }

  // ---------- the end of a statement ----------

  /** Nothing is left but blanks, and one semicolon at most. */
  ghost predicate OnlyEnd(s: string) {
    (forall c <- s :: c in BLANKS || c == ';') && multiset(s)[';'] <= 1
  }

  ghost predicate Spells(s: string, tokens: seq<Token>) {
    var t := BehindAll(s, tokens);
    t.Some? && OnlyEnd(t.value)
  }

  lemma {:induction false} NoSemicolon(s: string)
    ensures TrimLeft(s) == [] <==> (forall c <- s :: c in BLANKS)
  {
    if s != [] {
      SpaceExactly(s[0]);
      assert s == [s[0]] + s[1..];
      if IsSpace(s[0]) {
        NoSemicolon(s[1..]);
      } else {
        assert s[0] in s;
      }
    }
  }

  lemma {:induction false} EndedExactly(s: string)
    ensures Ended(s) <==> OnlyEnd(s)
  {
    if s != [] && IsSpace(s[0]) {
      assert s == [s[0]] + s[1..];
      SpaceExactly(s[0]);
      EndedExactly(s[1..]);
      EndBehindBlank(s[0], s[1..]);
    } else if s != [] {
      assert s == [s[0]] + s[1..] && s[0] in s;
      SpaceExactly(s[0]);
      NoSemicolon(s[1..]);
      if s[0] == ';' {
        OneSemicolon(s[1..]);
      }
    }
  }

  lemma EndBehindBlank(c: char, s: string)
    requires c in BLANKS
    ensures OnlyEnd([c] + s) <==> OnlyEnd(s)
  {
    hide BLANKS;
    assert ([c] + s)[1..] == s;
    assert forall d :: d in [c] + s <==> d == c || d in s;
    assert multiset([c] + s) == multiset{c} + multiset(s);
    assert ';' !in BLANKS by { SpaceExactly(';'); }
  }

  lemma OneSemicolon(s: string)
    ensures OnlyEnd(";" + s) <==> forall c <- s :: c in BLANKS
  {
    hide BLANKS;
    assert ';' !in BLANKS by { SpaceExactly(';'); }
    assert forall d :: d in ";" + s <==> d == ';' || d in s;
    assert multiset(";" + s) == multiset{';'} + multiset(s);
    assert ';' in s <==> multiset(s)[';'] > 0;
  }

  lemma {:induction false} TrimLeftTwice(s: string)
    ensures TrimLeft(TrimLeft(s)) == TrimLeft(s)
  {
    if s != [] && IsSpace(s[0]) {
      TrimLeftTwice(s[1..]);
    }
  }

  /** Blanks in front make no difference. */
  lemma SpellsTrimmed(s: string, tokens: seq<Token>)
    ensures Spells(TrimLeft(s), tokens) <==> Spells(s, tokens)
  {
    hide TrimLeft, Behind, OnlyEnd;
    TrimLeftTwice(s);
    if tokens == [] {
      EndedTrimmed(s);
      EndedExactly(s);
      EndedExactly(TrimLeft(s));
    }
  }

  lemma EndedTrimmed(s: string)
    ensures Ended(TrimLeft(s)) <==> Ended(s)
  {
    TrimLeftTwice(s);
  }

  // ---------- lists ----------

  lemma ItemExactly(kind: ItemKind, s: string, item: string, t: string)
    ensures Item(kind, s) == Some((item, t)) <==> Behind(TrimLeft(s), ItemToken(kind, item)) == Some(t)
  {
    hide Behind, Identifier, Value, TrimLeft;
    if kind == Names {
      IdentifierExactly(s, item, t);
    } else {
      ValueExactly(s, item, t);
    }
  }

  /** No item begins with a closing parenthesis, or at the end. */
  lemma NoItemHere(kind: ItemKind, u: string, item: string)
    requires u == [] || u[0] == ')'
    ensures Behind(u, ItemToken(kind, item)) == None
  {
    if kind == Literals {
      assert Bare(item) ==> item[0] in item;
      hide PrintBody;
    } else if ValidName(item) {
      assert item[0] in item;
    }
  }

  lemma ItemsUnfold(kind: ItemKind, s: string, count: nat)
    ensures Items(kind, s, count)
         == if TrimLeft(s) == [] || TrimLeft(s)[0] == ')' || count >= 32 then None
            else match Item(kind, TrimLeft(s))
              case None => None
              case Some((item, behind)) =>
                var u := TrimLeft(behind);
                if At(u, 0) == ',' then
                  match Items(kind, u[1..], count + 1)
                  case None => None
                  case Some((items, rest)) => Some(([item] + items, rest))
                else if At(u, 0) == ')' then Some(([item], u[1..])) else None
  {
    hide Item, TrimLeft;
  }

  /** Item tokens and the closing parenthesis, from the first item on. */
  lemma ItemTokensUnfold(kind: ItemKind, s: string, items: seq<string>)
    requires items != []
    ensures BehindAll(s, ItemTokens(kind, items) + [Sign(")")])
         == match Behind(TrimLeft(s), ItemToken(kind, items[0]))
            case None => None
            case Some(b) =>
              var u := TrimLeft(b);
              if |items| == 1 then if At(u, 0) == ')' then Some(u[1..]) else None
              else if At(u, 0) == ',' then BehindAll(u[1..], ItemTokens(kind, items[1..]) + [Sign(")")]) else None
  {
    hide TrimLeft, ItemToken;
    var close := [Sign(")")];
    var tail := if |items| == 1 then close else [Sign(",")] + (ItemTokens(kind, items[1..]) + close);
    assert ItemTokens(kind, items) + close == [ItemToken(kind, items[0])] + tail;
    BehindFirst(s, ItemToken(kind, items[0]), tail);
    var b := Behind(TrimLeft(s), ItemToken(kind, items[0]));
    if b.Some? {
      var u := TrimLeft(b.value);
      SignExactly(u, ',');
      SignExactly(u, ')');
      hide Behind;
      if |items| == 1 {
        assert close == [Sign(")")] + [];
        BehindFirst(b.value, Sign(")"), []);
      } else {
        BehindFirst(b.value, Sign(","), ItemTokens(kind, items[1..]) + close);
      }
    }
  }

  lemma {:induction false} ItemsExactly(kind: ItemKind, s: string, count: nat, items: seq<string>, t: string)
    ensures Items(kind, s, count) == Some((items, t))
       <==> items != [] && count + |items| <= 32 && BehindAll(s, ItemTokens(kind, items) + [Sign(")")]) == Some(t)
    decreases |s|
  {
    hide Items, ItemTokens, Item, Behind, BehindAll, TrimLeft, ItemToken;
    var u := TrimLeft(s);
    ItemsUnfold(kind, s, count);
    TrimLeftTwice(s);
    if items == [] {
      ItemsNotEmpty(kind, s, count);
    } else {
      ItemTokensUnfold(kind, s, items);
      if u == [] || u[0] == ')' {
        NoItemHere(kind, u, items[0]);
      } else if Item(kind, u).Some? {
        var (item, b) := Item(kind, u).value;
        ItemExactly(kind, u, item, b);
        if Behind(u, ItemToken(kind, items[0])).Some? {
          ItemExactly(kind, u, items[0], Behind(u, ItemToken(kind, items[0])).value);
        }
        var v := TrimLeft(b);
        assert |items| == 1 ==> items == [items[0]];
        if At(v, 0) == ',' {
          var more := Items(kind, v[1..], count + 1);
          if more.Some? {
            assert ([item] + more.value.0)[1..] == more.value.0;
          }
          ItemsNotEmpty(kind, v[1..], count + 1);
          ItemsExactly(kind, v[1..], count + 1, items[1..], t);
          assert [items[0]] + items[1..] == items;
        }
      } else if Behind(u, ItemToken(kind, items[0])).Some? {
        ItemExactly(kind, u, items[0], Behind(u, ItemToken(kind, items[0])).value);
      }
    }
  }

  lemma ItemsNotEmpty(kind: ItemKind, s: string, count: nat)
    ensures Items(kind, s, count).Some? ==> Items(kind, s, count).value.0 != []
  {
    hide Item, TrimLeft;
  }

  lemma ParenthesizedExactly(kind: ItemKind, s: string, items: seq<string>, t: string)
    ensures Parenthesized(kind, s) == Some((items, t))
       <==> 0 < |items| <= 32 && BehindAll(s, ListTokens(kind, items)) == Some(t)
  {
    hide Items, ItemTokens, BehindAll, TrimLeft, ItemToken;
    var u := TrimLeft(s);
    SignExactly(u, '(');
    if items != [] {
      BehindFirst(s, Sign("("), ItemTokens(kind, items) + [Sign(")")]);
    }
    if At(u, 0) == '(' {
      ItemsExactly(kind, u[1..], 0, items, t);
    }
  }

  // ---------- SET ----------

  lemma SetClauseExactly(s: string, clause: SetClause, t: string)
    ensures SetClauseAt(s) == Some((clause, t))
       <==> BehindAll(s, [Name(clause.column), Sign("="), Val(clause.value)]) == Some(t)
  {
    hide Identifier, Value, Behind, TrimLeft;
    Three(s, Name(clause.column), Sign("="), Val(clause.value), []);
    assert [Name(clause.column), Sign("="), Val(clause.value)] + []
        == [Name(clause.column), Sign("="), Val(clause.value)];
    var name := Behind(TrimLeft(s), Name(clause.column));
    if name.Some? {
      IdentifierExactly(s, clause.column, name.value);
    }
    if Identifier(s).Some? {
      var (column, a) := Identifier(s).value;
      IdentifierExactly(s, column, a);
      var b := TrimLeft(a);
      SignExactly(b, '=');
      if At(b, 0) == '=' {
        ValueExactly(b[1..], clause.value, t);
      }
    }
  }

  lemma Two(s: string, a: Token, b: Token, rest: seq<Token>)
    ensures BehindAll(s, [a, b] + rest)
         == match Behind(TrimLeft(s), a)
            case None => None
            case Some(t) =>
              match Behind(TrimLeft(t), b)
              case None => None
              case Some(u) => BehindAll(u, rest)
  {
    hide Behind, TrimLeft;
    assert [a, b] + rest == [a] + ([b] + rest);
    BehindFirst(s, a, [b] + rest);
    if Behind(TrimLeft(s), a).Some? {
      BehindFirst(Behind(TrimLeft(s), a).value, b, rest);
    }
  }

  lemma Three(s: string, a: Token, b: Token, c: Token, rest: seq<Token>)
    ensures BehindAll(s, [a, b, c] + rest)
         == match Behind(TrimLeft(s), a)
            case None => None
            case Some(t) =>
              match Behind(TrimLeft(t), b)
              case None => None
              case Some(u) =>
                match Behind(TrimLeft(u), c)
                case None => None
                case Some(v) => BehindAll(v, rest)
  {
    hide Behind, TrimLeft;
    assert [a, b, c] + rest == [a] + ([b, c] + rest);
    BehindFirst(s, a, [b, c] + rest);
    if Behind(TrimLeft(s), a).Some? {
      Two(Behind(TrimLeft(s), a).value, b, c, rest);
    }
  }

  lemma SetTokensUnfold(s: string, sets: seq<SetClause>)
    requires sets != []
    ensures BehindAll(s, SetTokens(sets))
         == match BehindAll(s, [Name(sets[0].column), Sign("="), Val(sets[0].value)])
            case None => None
            case Some(t) =>
              if |sets| == 1 then Some(t)
              else if At(TrimLeft(t), 0) == ',' then BehindAll(TrimLeft(t)[1..], SetTokens(sets[1..])) else None
  {
    hide Behind, TrimLeft;
    var first := [Name(sets[0].column), Sign("="), Val(sets[0].value)];
    if |sets| == 1 {
      assert SetTokens(sets) == first + [];
      BehindJoined(s, first, []);
    } else {
      BehindJoined(s, first, [Sign(",")] + SetTokens(sets[1..]));
      var t := BehindAll(s, first);
      if t.Some? {
        BehindFirst(t.value, Sign(","), SetTokens(sets[1..]));
        SignExactly(TrimLeft(t.value), ',');
      }
    }
  }

  /** SET clauses are read as far as commas follow; the text behind them is trimmed. */
  lemma {:induction false} SetsExactly(s: string, count: nat, sets: seq<SetClause>, d: string)
    ensures SetClauses(s, count) == Some((sets, d))
       <==> && sets != [] && count + |sets| <= 32 && At(d, 0) != ','
            && var t := BehindAll(s, SetTokens(sets)); t.Some? && TrimLeft(t.value) == d
    decreases |s|
  {
    hide SetClauseAt, SetTokens, BehindAll, TrimLeft;
    if sets == [] {
      SetsNotEmpty(s, count);
    } else {
      SetTokensUnfold(s, sets);
      var first := BehindAll(s, [Name(sets[0].column), Sign("="), Val(sets[0].value)]);
      if first.Some? {
        SetClauseExactly(s, sets[0], first.value);
      }
      if count < 32 && SetClauseAt(s).Some? {
        var (clause, b) := SetClauseAt(s).value;
        SetClauseExactly(s, clause, b);
        SetClauseExactly(s, sets[0], b);
        var v := TrimLeft(b);
        assert |sets| == 1 ==> sets == [sets[0]];
        if At(v, 0) == ',' {
          var more := SetClauses(v[1..], count + 1);
          if more.Some? {
            assert ([clause] + more.value.0)[1..] == more.value.0;
          }
          SetsNotEmpty(v[1..], count + 1);
          SetsExactly(v[1..], count + 1, sets[1..], d);
          assert [sets[0]] + sets[1..] == sets;
        }
      }
    }
  }

  lemma SetsNotEmpty(s: string, count: nat)
    ensures SetClauses(s, count).Some? ==> SetClauses(s, count).value.0 != []
  {
    hide SetClauseAt, TrimLeft;
  }

  // ---------- clauses ----------

  lemma WhereExactly(s: string, where: Option<Where>, t: string)
    ensures WhereClause(s) == Some((where, t))
       <==> && BehindAll(s, WhereTokens(where)) == Some(t)
            && (where.None? ==> Behind(TrimLeft(s), Key("WHERE")) == None)
  {
    hide Identifier, Operator, Value, Behind, TrimLeft, Keyword;
    KeywordExactly(s, "WHERE");
    if where.Some? {
      var Where(column, op, value) := where.value;
      assert WhereTokens(where) == [Key("WHERE")] + ([Name(column), Oper(op), Val(value)] + []);
      BehindFirst(s, Key("WHERE"), [Name(column), Oper(op), Val(value)] + []);
      if Keyword(s, "WHERE").Some? {
        ConditionExactly(Keyword(s, "WHERE").value, where.value, t);
      }
    }
  }

  /** The three parts of a WHERE behind its keyword. */
  function Condition(a: string): Option<(Where, string)> {
    var (column, b) :- Identifier(a);
    var (op, c) :- Operator(b);
    var (value, t) :- Value(c);
    Some((Where(column, op, value), t))
  }

  lemma ConditionExactly(a: string, where: Where, t: string)
    ensures Condition(a) == Some((where, t))
       <==> BehindAll(a, [Name(where.column), Oper(where.op), Val(where.value)] + []) == Some(t)
  {
    hide Identifier, Operator, Value, Behind, TrimLeft;
    Three(a, Name(where.column), Oper(where.op), Val(where.value), []);
    var first := Behind(TrimLeft(a), Name(where.column));
    if first.Some? {
      var b := first.value;
      IdentifierExactly(a, where.column, b);
      var second := Behind(TrimLeft(b), Oper(where.op));
      if second.Some? {
        OperatorExactly(b, where.op, second.value);
        ValueExactly(second.value, where.value, t);
      } else if Operator(b).Some? {
        OperatorExactly(b, where.op, Operator(b).value.1);
      }
    } else if Identifier(a).Some? {
      IdentifierExactly(a, where.column, Identifier(a).value.1);
    }
  }

  lemma LimitExactly(s: string, limit: Option<nat>, t: string)
    ensures LimitClause(s) == Some((limit, t))
       <==> && BehindAll(s, LimitTokens(limit)) == Some(t)
            && (limit.None? ==> Behind(TrimLeft(s), Key("LIMIT")) == None)
  {
    hide TrimLeft, Keyword, DigitsValue, SkipDigits;
    KeywordExactly(s, "LIMIT");
    if limit.Some? {
      Two(s, Key("LIMIT"), Number(limit.value), []);
      assert [Key("LIMIT"), Number(limit.value)] + [] == LimitTokens(limit);
    }
  }

  /** No ASC and no DESC begins here. */
  ghost predicate NoDirection(s: string) {
    Behind(TrimLeft(s), Key("ASC")) == None && Behind(TrimLeft(s), Key("DESC")) == None
  }

  lemma DirectionExactly(w: string)
    requires TrimLeft(w) == w
    ensures DirectionAt(w)
         == match Behind(w, Key("DESC"))
            case Some(t) => (Descending, t)
            case None =>
              match Behind(w, Key("ASC"))
              case Some(t) => (Ascending, t)
              case None => (Ascending, w)
  {
    hide TrimLeft, KeywordMatches, Behind;
    KeywordExactly(w, "DESC");
    KeywordExactly(w, "ASC");
  }

  predicate Capital(c: char) {
    'A' <= c <= 'Z'
  }

  /** Two keywords that begin with different letters do not stand at the same place. */
  lemma NotBoth(u: string, a: string, b: string)
    requires a != [] && b != [] && Capital(a[0]) && Capital(b[0]) && a[0] != b[0]
    ensures Behind(u, Key(a)) == None || Behind(u, Key(b)) == None
  {
    if Behind(u, Key(a)).Some? {
      assert u[0] == u[..|a|][0] && SameLetter(u[..|a|][0], a[0]);
      assert |b| <= |u| ==> u[..|b|][0] == u[0] && !SameLetter(u[0], b[0]);
    }
  }

  /** A column and the direction behind it. */
  function ColumnAndDirection(u: string): Option<(OrderBy, string)> {
    var (column, v) :- Identifier(u);
    var (direction, rest) := DirectionAt(TrimLeft(v));
    Some((OrderBy(column, direction), rest))
  }

  function DirectionToken(direction: Direction): Token {
    if direction == Descending then Key("DESC") else Key("ASC")
  }

  lemma ColumnThenDirection(u: string, o: OrderBy, t: string)
    ensures ColumnAndDirection(u) == Some((o, t))
       <==> match Behind(TrimLeft(u), Name(o.column))
            case None => false
            case Some(v) =>
              || Behind(TrimLeft(v), DirectionToken(o.direction)) == Some(t)
              || (o.direction == Ascending && NoDirection(v) && t == TrimLeft(v))
  {
    hide TrimLeft, Identifier, Behind, DirectionAt;
    forall v ensures Identifier(u) == Some((o.column, v)) <==> Behind(TrimLeft(u), Name(o.column)) == Some(v) {
      IdentifierExactly(u, o.column, v);
    }
    if Behind(TrimLeft(u), Name(o.column)).Some? {
      var v := Behind(TrimLeft(u), Name(o.column)).value;
      TrimLeftTwice(v);
      DirectionExactly(TrimLeft(v));
      NotBoth(TrimLeft(v), "ASC", "DESC");
    }
  }

  /** The direction is written out, or left out where neither word follows. */
  lemma OrderExactly(s: string, o: OrderBy, t: string)
    ensures OrderClause(s) == Some((Some(o), t))
       <==> || BehindAll(s, OrderTokens(Some(o), true)) == Some(t)
            || (o.direction == Ascending
                && var v := BehindAll(s, OrderTokens(Some(o), false));
                   v.Some? && NoDirection(v.value) && t == TrimLeft(v.value))
  {
    hide TrimLeft, Keyword, Identifier, Behind, DirectionAt;
    KeywordExactly(s, "ORDER");
    var word := DirectionToken(o.direction);
    assert OrderTokens(Some(o), true) == [Key("ORDER"), Key("BY"), Name(o.column)] + [word];
    Three(s, Key("ORDER"), Key("BY"), Name(o.column), [word]);
    Three(s, Key("ORDER"), Key("BY"), Name(o.column), []);
    assert [Key("ORDER"), Key("BY"), Name(o.column)] + [] == [Key("ORDER"), Key("BY"), Name(o.column)];
    if Keyword(s, "ORDER").Some? {
      var a := Keyword(s, "ORDER").value;
      KeywordExactly(a, "BY");
      if Keyword(a, "BY").Some? {
        var u := Keyword(a, "BY").value;
        ColumnThenDirection(u, o, t);
        if Behind(TrimLeft(u), Name(o.column)).Some? {
          BehindFirst(Behind(TrimLeft(u), Name(o.column)).value, word, []);
          assert [word] + [] == [word];
        }
      }
    }
  }

  // ---------- what follows a table name ----------

  /** No keyword stands where the statement ends. */
  lemma EndHasNoKey(s: string, word: string)
    requires OnlyEnd(s) && word != [] && Capital(word[0])
    ensures Behind(TrimLeft(s), Key(word)) == None
  {
    hide BLANKS;
    var u := TrimLeft(s);
    TrimLeftWithin(s);
    if |word| <= |u| {
      assert u[0] in u && u[..|word|][0] == u[0];
      SpaceExactly(u[0]);
      assert !SameLetter(u[0], word[0]);
    }
  }

  /** Nor where another one begins what follows. */
  lemma OtherKey(s: string, tokens: seq<Token>, word: string)
    requires Spells(s, tokens) && word != [] && Capital(word[0])
    requires tokens != [] ==> tokens[0].Key? && tokens[0].word != [] && Capital(tokens[0].word[0])
                              && tokens[0].word[0] != word[0]
    ensures Behind(TrimLeft(s), Key(word)) == None
  {
    hide Behind, OnlyEnd, TrimLeft;
    if tokens == [] {
      EndHasNoKey(s, word);
    } else {
      NotBoth(TrimLeft(s), tokens[0].word, word);
    }
  }

  /** A LIMIT and the end of the statement. */
  function LimitAndEnd(s: string): Option<Option<nat>> {
    var (limit, rest) :- LimitClause(s);
    if Ended(rest) then Some(limit) else None
  }

  lemma LimitAndEndExactly(s: string, limit: Option<nat>)
    ensures LimitAndEnd(s) == Some(limit) <==> Spells(s, LimitTokens(limit))
  {
    hide LimitClause, Ended, OnlyEnd, Behind, TrimLeft;
    var t := BehindAll(s, LimitTokens(limit));
    if LimitClause(s).Some? {
      LimitExactly(s, limit, LimitClause(s).value.1);
      EndedExactly(LimitClause(s).value.1);
    }
    if t.Some? {
      LimitExactly(s, limit, t.value);
      EndedExactly(t.value);
      if Spells(s, LimitTokens(limit)) && limit.None? {
        OtherKey(s, [], "LIMIT");
      }
    }
  }

  ghost predicate SpellsTail(s: string, orderBy: Option<OrderBy>, limit: Option<nat>, asc: bool) {
    Spells(s, OrderTokens(orderBy, asc) + LimitTokens(limit))
  }

  lemma TailJoined(s: string, orderBy: Option<OrderBy>, limit: Option<nat>, asc: bool)
    ensures SpellsTail(s, orderBy, limit, asc)
       <==> var t := BehindAll(s, OrderTokens(orderBy, asc)); t.Some? && Spells(t.value, LimitTokens(limit))
  {
    hide OrderTokens, LimitTokens, OnlyEnd;
    BehindJoined(s, OrderTokens(orderBy, asc), LimitTokens(limit));
  }

  lemma TailExactly(s: string, orderBy: Option<OrderBy>, limit: Option<nat>)
    ensures OrderAndLimit(s) == Some((orderBy, limit))
       <==> SpellsTail(s, orderBy, limit, true) || SpellsTail(s, orderBy, limit, false)
  {
    hide SpellsTail, OrderTokens, Spells, OrderClause, LimitClause, LimitAndEnd, Ended;
    OrderAndLimitUnfold(s);
    if OrderAndLimit(s) == Some((orderBy, limit)) {
      TailIsSpelled(s, orderBy, limit);
    }
    if SpellsTail(s, orderBy, limit, true) {
      SpelledTailReads(s, orderBy, limit, true);
    }
    if SpellsTail(s, orderBy, limit, false) {
      SpelledTailReads(s, orderBy, limit, false);
    }
  }

  lemma OrderAndLimitUnfold(s: string)
    ensures OrderAndLimit(s)
         == match OrderClause(s)
            case None => None
            case Some((orderBy, a)) =>
              match LimitAndEnd(a)
              case None => None
              case Some(limit) => Some((orderBy, limit))
  {
    hide OrderClause, LimitClause, Ended;
  }

  lemma TailIsSpelled(s: string, orderBy: Option<OrderBy>, limit: Option<nat>)
    requires OrderAndLimit(s) == Some((orderBy, limit))
    ensures SpellsTail(s, orderBy, limit, true) || SpellsTail(s, orderBy, limit, false)
  {
    hide SpellsTail, OrderTokens, Spells, OrderClause, LimitAndEnd, OrderAndLimit, LimitTokens, NoDirection, Behind;
    OrderAndLimitUnfold(s);
    var a := OrderClause(s).value.1;
    LimitAndEndExactly(a, limit);
    TailJoined(s, orderBy, limit, true);
    TailJoined(s, orderBy, limit, false);
    match orderBy {
      case None =>
        NoOrder(s, a);
      case Some(o) =>
        OrderExactly(s, o, a);
        if BehindAll(s, OrderTokens(orderBy, true)) != Some(a) {
          SpellsTrimmed(BehindAll(s, OrderTokens(orderBy, false)).value, LimitTokens(limit));
        }
    }
  }

  lemma NoOrder(s: string, a: string)
    ensures OrderClause(s) == Some((None, a)) <==> a == s && Behind(TrimLeft(s), Key("ORDER")) == None
    ensures BehindAll(s, OrderTokens(None, true)) == Some(s)
  {
    hide Keyword, Identifier, DirectionAt, TrimLeft, Behind;
    KeywordExactly(s, "ORDER");
  }

  lemma SpelledTailReads(s: string, orderBy: Option<OrderBy>, limit: Option<nat>, asc: bool)
    requires SpellsTail(s, orderBy, limit, asc)
    ensures OrderAndLimit(s) == Some((orderBy, limit))
  {
    hide SpellsTail, OrderTokens, Spells, OrderClause, LimitAndEnd, OrderAndLimit, NoDirection, Behind, TrimLeft;
    OrderAndLimitUnfold(s);
    TailJoined(s, orderBy, limit, asc);
    var t := BehindAll(s, OrderTokens(orderBy, asc)).value;
    LimitAndEndExactly(t, limit);
    match orderBy {
      case None =>
        NoOrderTokens(asc);
        NoOrder(s, s);
        OtherKey(t, LimitTokens(limit), "ORDER");
      case Some(o) =>
        if asc || o.direction == Descending {
          SameOrderTokens(o, asc);
          OrderExactly(s, o, t);
        } else {
          OtherKey(t, LimitTokens(limit), "ASC");
          OtherKey(t, LimitTokens(limit), "DESC");
          NoDirectionHere(t);
          OrderExactly(s, o, TrimLeft(t));
          SpellsTrimmed(t, LimitTokens(limit));
          LimitAndEndExactly(TrimLeft(t), limit);
        }
    }
  }

  lemma NoDirectionHere(t: string)
    requires Behind(TrimLeft(t), Key("ASC")) == None && Behind(TrimLeft(t), Key("DESC")) == None
    ensures NoDirection(t)
  {
  }

  lemma NoOrderTokens(asc: bool)
    ensures OrderTokens(None, asc) == []
  {
  }

  lemma SameOrderTokens(o: OrderBy, asc: bool)
    requires asc || o.direction == Descending
    ensures OrderTokens(Some(o), asc) == OrderTokens(Some(o), true)
  {
  }

  /** A WHERE and the end of the statement. */
  function WhereAndEnd(s: string): Option<Option<Where>> {
    var (where, rest) :- WhereClause(s);
    if Ended(rest) then Some(where) else None
  }

  lemma WhereAndEndExactly(s: string, where: Option<Where>)
    ensures WhereAndEnd(s) == Some(where) <==> Spells(s, WhereTokens(where))
  {
    hide WhereClause, Ended, OnlyEnd, Behind, TrimLeft;
    var t := BehindAll(s, WhereTokens(where));
    if WhereClause(s).Some? {
      WhereExactly(s, where, WhereClause(s).value.1);
      EndedExactly(WhereClause(s).value.1);
    }
    if t.Some? {
      WhereExactly(s, where, t.value);
      EndedExactly(t.value);
      if Spells(s, WhereTokens(where)) && where.None? {
        OtherKey(s, [], "WHERE");
      }
    }
  }

  /** All that follows the table of a SELECT. */
  function WhereAndTail(s: string): Option<(Option<Where>, Option<OrderBy>, Option<nat>)> {
    var (where, a) :- WhereClause(s);
    var (orderBy, limit) :- OrderAndLimit(a);
    Some((where, orderBy, limit))
  }

  function BodyTokens(where: Option<Where>, orderBy: Option<OrderBy>, limit: Option<nat>, asc: bool): seq<Token> {
    WhereTokens(where) + (OrderTokens(orderBy, asc) + LimitTokens(limit))
  }

  lemma BodyJoined(s: string, where: Option<Where>, orderBy: Option<OrderBy>, limit: Option<nat>, asc: bool)
    ensures Spells(s, BodyTokens(where, orderBy, limit, asc))
       <==> var t := BehindAll(s, WhereTokens(where)); t.Some? && SpellsTail(t.value, orderBy, limit, asc)
  {
    hide WhereTokens, OrderTokens, LimitTokens, OnlyEnd;
    BehindJoined(s, WhereTokens(where), OrderTokens(orderBy, asc) + LimitTokens(limit));
  }

  lemma BodyExactly(s: string, where: Option<Where>, orderBy: Option<OrderBy>, limit: Option<nat>)
    ensures WhereAndTail(s) == Some((where, orderBy, limit))
       <==> Spells(s, BodyTokens(where, orderBy, limit, true)) || Spells(s, BodyTokens(where, orderBy, limit, false))
  {
    hide SpellsTail, Spells, BodyTokens, WhereClause, OrderAndLimit, Behind, TrimLeft, WhereTokens;
    BodyJoined(s, where, orderBy, limit, true);
    BodyJoined(s, where, orderBy, limit, false);
    var t := BehindAll(s, WhereTokens(where));
    if WhereClause(s).Some? {
      WhereExactly(s, where, WhereClause(s).value.1);
      TailExactly(WhereClause(s).value.1, orderBy, limit);
    }
    if t.Some? {
      WhereExactly(s, where, t.value);
      TailExactly(t.value, orderBy, limit);
      if where.None? {
        NoWhereHere(s, orderBy, limit, true);
        NoWhereHere(s, orderBy, limit, false);
      }
      assert OrderAndLimit(t.value).Some? ==>
               var (o, l) := OrderAndLimit(t.value).value; OrderAndLimit(t.value) == Some((o, l));
    }
  }

  lemma NoWhereHere(s: string, orderBy: Option<OrderBy>, limit: Option<nat>, asc: bool)
    ensures BehindAll(s, WhereTokens(None)) == Some(s)
    ensures SpellsTail(s, orderBy, limit, asc) ==> Behind(TrimLeft(s), Key("WHERE")) == None
  {
    hide Behind, TrimLeft, OnlyEnd, Spells;
    if SpellsTail(s, orderBy, limit, asc) {
      OtherKey(s, OrderTokens(orderBy, asc) + LimitTokens(limit), "WHERE");
    }
  }

  function FromTokens(table: string, where: Option<Where>, orderBy: Option<OrderBy>, limit: Option<nat>, asc: bool)
    : seq<Token>
  {
    [Key("FROM"), Name(table)] + BodyTokens(where, orderBy, limit, asc)
  }

  lemma FromExactly(s: string, all: bool, columns: seq<string>, cmd: Command)
    ensures ParseFrom(s, all, columns) == Some(cmd)
       <==> && cmd.SelectFrom? && cmd.all == all && cmd.columns == columns
            && (|| Spells(s, FromTokens(cmd.table, cmd.where, cmd.orderBy, cmd.limit, true))
                || Spells(s, FromTokens(cmd.table, cmd.where, cmd.orderBy, cmd.limit, false)))
  {
    hide BodyTokens, WhereClause, OrderAndLimit, Behind, TrimLeft, Keyword, Identifier, OnlyEnd;
    KeywordExactly(s, "FROM");
    if cmd.SelectFrom? {
      Two(s, Key("FROM"), Name(cmd.table), BodyTokens(cmd.where, cmd.orderBy, cmd.limit, true));
      Two(s, Key("FROM"), Name(cmd.table), BodyTokens(cmd.where, cmd.orderBy, cmd.limit, false));
      if Keyword(s, "FROM").Some? {
        var a := Keyword(s, "FROM").value;
        if Identifier(a).Some? {
          IdentifierExactly(a, cmd.table, Identifier(a).value.1);
          BodyExactly(Identifier(a).value.1, cmd.where, cmd.orderBy, cmd.limit);
        }
        var b := Behind(TrimLeft(a), Name(cmd.table));
        if b.Some? {
          IdentifierExactly(a, cmd.table, b.value);
        }
      }
    }
  }

  // ---------- DELETE, INSERT, UPDATE ----------

  function DeleteTokens(cmd: Command): seq<Token>
    requires cmd.DeleteFrom?
  {
    [Key("DELETE"), Key("FROM"), Name(cmd.table)] + WhereTokens(cmd.where)
  }

  lemma DeleteExactly(s: string, cmd: Command)
    ensures ParseDelete(s) == Some(cmd) <==> cmd.DeleteFrom? && Spells(s, DeleteTokens(cmd))
  {
    hide WhereTokens, WhereClause, Behind, TrimLeft, Keyword, Identifier, OnlyEnd, Ended;
    KeywordExactly(s, "DELETE");
    if cmd.DeleteFrom? {
      Three(s, Key("DELETE"), Key("FROM"), Name(cmd.table), WhereTokens(cmd.where));
      if Keyword(s, "DELETE").Some? {
        var a := Keyword(s, "DELETE").value;
        KeywordExactly(a, "FROM");
        if Keyword(a, "FROM").Some? {
          var b := Keyword(a, "FROM").value;
          if Identifier(b).Some? {
            IdentifierExactly(b, cmd.table, Identifier(b).value.1);
            WhereAndEndExactly(Identifier(b).value.1, cmd.where);
          }
          if Behind(TrimLeft(b), Name(cmd.table)).Some? {
            IdentifierExactly(b, cmd.table, Behind(TrimLeft(b), Name(cmd.table)).value);
          }
        }
      }
    }
  }

  function InsertTokens(cmd: Command): seq<Token>
    requires cmd.InsertInto? && cmd.columns != [] && cmd.values != []
  {
    [Key("INSERT"), Key("INTO"), Name(cmd.table)]
    + (ListTokens(Names, cmd.columns) + ([Key("VALUES")] + ListTokens(Literals, cmd.values)))
  }

  /** The two lists of an INSERT and its end. */
  function ListsAndEnd(s: string): Option<(seq<string>, seq<string>)> {
    var (columns, d) :- Parenthesized(Names, s);
    var e :- Keyword(d, "VALUES");
    var (values, rest) :- Parenthesized(Literals, e);
    if Ended(rest) then Some((columns, values)) else None
  }

  lemma ListsExactly(s: string, columns: seq<string>, values: seq<string>)
    ensures ListsAndEnd(s) == Some((columns, values))
       <==> && 0 < |columns| <= 32 && 0 < |values| <= 32
            && Spells(s, ListTokens(Names, columns) + ([Key("VALUES")] + ListTokens(Literals, values)))
  {
    hide ListTokens, Parenthesized, Behind, TrimLeft, Keyword, OnlyEnd, Ended;
    if columns != [] && values != [] {
      var more := [Key("VALUES")] + ListTokens(Literals, values);
      BehindJoined(s, ListTokens(Names, columns), more);
      var t := BehindAll(s, ListTokens(Names, columns));
      if t.Some? {
        ParenthesizedExactly(Names, s, columns, t.value);
        ValuesExactly(t.value, values);
      }
    }
    if Parenthesized(Names, s).Some? {
      var (names, d) := Parenthesized(Names, s).value;
      ParenthesizedExactly(Names, s, columns, d);
      ValuesExactly(d, values);
    }
  }

  /** The second list and the end. */
  function ValuesAndEnd(d: string): Option<seq<string>> {
    var e :- Keyword(d, "VALUES");
    var (values, rest) :- Parenthesized(Literals, e);
    if Ended(rest) then Some(values) else None
  }

  lemma ValuesExactly(d: string, values: seq<string>)
    ensures ValuesAndEnd(d) == Some(values)
       <==> 0 < |values| <= 32 && Spells(d, [Key("VALUES")] + ListTokens(Literals, values))
  {
    hide ListTokens, Parenthesized, Behind, TrimLeft, Keyword, OnlyEnd, Ended;
    KeywordExactly(d, "VALUES");
    if values != [] {
      BehindFirst(d, Key("VALUES"), ListTokens(Literals, values));
    }
    if Keyword(d, "VALUES").Some? {
      var e := Keyword(d, "VALUES").value;
      if Parenthesized(Literals, e).Some? {
        ParenthesizedExactly(Literals, e, values, Parenthesized(Literals, e).value.1);
        EndedExactly(Parenthesized(Literals, e).value.1);
      }
      if values != [] && BehindAll(e, ListTokens(Literals, values)).Some? {
        ParenthesizedExactly(Literals, e, values, BehindAll(e, ListTokens(Literals, values)).value);
        EndedExactly(BehindAll(e, ListTokens(Literals, values)).value);
      }
    }
  }

  lemma InsertExactly(s: string, cmd: Command)
    ensures ParseInsert(s) == Some(cmd)
       <==> && cmd.InsertInto? && 0 < |cmd.columns| <= 32 && 0 < |cmd.values| <= 32
            && Spells(s, InsertTokens(cmd))
  {
    hide ListTokens, Parenthesized, Behind, TrimLeft, Keyword, Identifier, OnlyEnd, Ended;
    KeywordExactly(s, "INSERT");
    if cmd.InsertInto? && Keyword(s, "INSERT").Some? {
      var a := Keyword(s, "INSERT").value;
      KeywordExactly(a, "INTO");
      if Keyword(a, "INTO").Some? {
        var b := Keyword(a, "INTO").value;
        if Identifier(b).Some? {
          IdentifierExactly(b, cmd.table, Identifier(b).value.1);
          ListsExactly(Identifier(b).value.1, cmd.columns, cmd.values);
        }
        if Behind(TrimLeft(b), Name(cmd.table)).Some? {
          IdentifierExactly(b, cmd.table, Behind(TrimLeft(b), Name(cmd.table)).value);
        }
      }
    }
    if cmd.InsertInto? && cmd.columns != [] && cmd.values != [] {
      Three(s, Key("INSERT"), Key("INTO"), Name(cmd.table),
            ListTokens(Names, cmd.columns) + ([Key("VALUES")] + ListTokens(Literals, cmd.values)));
    }
  }

  function UpdateTokens(cmd: Command): seq<Token>
    requires cmd.UpdateSet? && cmd.sets != []
  {
    [Key("UPDATE"), Name(cmd.table), Key("SET")] + (SetTokens(cmd.sets) + WhereTokens(cmd.where))
  }

  function SetsAndEnd(s: string): Option<(seq<SetClause>, Option<Where>)> {
    var (sets, d) :- SetClauses(s, 0);
    var where :- WhereAndEnd(d);
    Some((sets, where))
  }

  lemma SetsAndEndExactly(s: string, sets: seq<SetClause>, where: Option<Where>)
    ensures SetsAndEnd(s) == Some((sets, where))
       <==> 0 < |sets| <= 32 && Spells(s, SetTokens(sets) + WhereTokens(where))
  {
    hide SetTokens, WhereTokens, SetClauses, WhereAndEnd, Behind, TrimLeft, OnlyEnd;
    if sets != [] {
      BehindJoined(s, SetTokens(sets), WhereTokens(where));
      var t := BehindAll(s, SetTokens(sets));
      if t.Some? {
        var d := TrimLeft(t.value);
        SetsExactly(s, 0, sets, d);
        SpellsTrimmed(t.value, WhereTokens(where));
        WhereAndEndExactly(d, where);
        if Spells(t.value, WhereTokens(where)) {
          NoCommaHere(t.value, where);
        }
      }
    }
    if SetClauses(s, 0).Some? {
      SetsExactly(s, 0, sets, SetClauses(s, 0).value.1);
    }
  }

  lemma NoCommaHere(s: string, where: Option<Where>)
    requires Spells(s, WhereTokens(where))
    ensures At(TrimLeft(s), 0) != ','
  {
    hide BLANKS;
    var u := TrimLeft(s);
    if where.Some? {
      assert u[..5][0] == u[0];
    } else {
      TrimLeftWithin(s);
      SpaceExactly(',');
    }
  }

  lemma UpdateExactly(s: string, cmd: Command)
    ensures ParseUpdate(s) == Some(cmd)
       <==> cmd.UpdateSet? && 0 < |cmd.sets| <= 32 && Spells(s, UpdateTokens(cmd))
  {
    hide SetTokens, WhereTokens, SetClauses, WhereClause, Behind, TrimLeft, Keyword, Identifier, OnlyEnd, Ended;
    KeywordExactly(s, "UPDATE");
    if cmd.UpdateSet? && cmd.sets != [] {
      Three(s, Key("UPDATE"), Name(cmd.table), Key("SET"), SetTokens(cmd.sets) + WhereTokens(cmd.where));
    }
    if cmd.UpdateSet? && Keyword(s, "UPDATE").Some? {
      var a := Keyword(s, "UPDATE").value;
      if Identifier(a).Some? {
        IdentifierExactly(a, cmd.table, Identifier(a).value.1);
        var b := Identifier(a).value.1;
        KeywordExactly(b, "SET");
        if Keyword(b, "SET").Some? {
          SetsAndEndExactly(Keyword(b, "SET").value, cmd.sets, cmd.where);
        }
      }
      if Behind(TrimLeft(a), Name(cmd.table)).Some? {
        IdentifierExactly(a, cmd.table, Behind(TrimLeft(a), Name(cmd.table)).value);
      }
    }
  }
}
