/**
 The tokens of member-dragon's SQL and how they may be spelled: keywords in any case, values
 quoted or bare.  Each reader of the grammar reads exactly the spellings of its token.
 */
module DragonTokens {
  import opened Options
  import opened CStrings
  import opened SqlText
  import opened Comparison
  import opened ResultSets
  import opened DragonGrammar

  datatype Token =
    | Key(word: string)
    | Name(word: string)
    | Val(value: string)
    | Oper(op: CompareOp)
    | Sign(text: string)
    | Number(n: nat)

  // ---------- spelling ----------

  predicate ValidName(s: string) {
    0 < |s| < 256 && IsWord(s)
  }

  /** A value that may be written without quotes. */
  predicate Bare(v: string) {
    0 < |v| < 256 && v[0] != '\'' && forall c <- v :: c !in BLANKS && c != ',' && c != ')' && c != ';'
  }

  function OperatorText(op: CompareOp): string {
    match op
    case OpEq => "="
    case OpNe => "!="
    case OpGt => ">"
    case OpLt => "<"
    case OpGe => ">="
    case OpLe => "<="
  }

  /** The text behind a token that s begins with. */
  function Behind(s: string, token: Token): Option<string> {
    match token
    case Key(w) =>
      if |w| <= |s| && SameLetters(s[..|w|], w) && !IsIdentifierChar(At(s, |w|)) then Some(s[|w|..]) else None
    case Name(w) =>
      if ValidName(w) && w <= s && !IsIdentifierChar(At(s, |w|)) then Some(s[|w|..]) else None
    case Val(v) =>
      var quoted := PrintLiteral(v, "");
      if |v| < 256 && quoted <= s && At(s, |quoted|) != '\'' then Some(s[|quoted|..])
      else if Bare(v) && v <= s && (|s| == |v| || s[|v|] in BLANKS || s[|v|] in ",);") then Some(s[|v|..])
      else None
    case Oper(op) =>
      var x := OperatorText(op);
      if x <= s && (x == ">" || x == "<" ==> At(s, 1) != '=') then Some(s[|x|..]) else None
    case Sign(x) =>
      if x <= s then Some(s[|x|..]) else None
    case Number(n) =>
      var k := SkipDigits(s, 0);
      if k > 0 && DigitsValue(s[..k]) == n then Some(s[k..]) else None
  }

  /** The text behind a list of tokens, with any blanks in front of each. */
  function BehindAll(s: string, tokens: seq<Token>): Option<string>
    decreases |tokens|
  {
    if tokens == [] then Some(s)
    else
      var t :- Behind(TrimLeft(s), tokens[0]);
      BehindAll(t, tokens[1..])
  }

  lemma BehindFirst(s: string, token: Token, rest: seq<Token>)
    ensures BehindAll(s, [token] + rest)
         == match Behind(TrimLeft(s), token)
            case None => None
            case Some(t) => BehindAll(t, rest)
  {
    hide Behind;
    assert ([token] + rest)[1..] == rest;
  }

  lemma {:induction false} BehindJoined(s: string, a: seq<Token>, b: seq<Token>)
    ensures BehindAll(s, a + b)
         == match BehindAll(s, a)
            case None => None
            case Some(t) => BehindAll(t, b)
    decreases |a|
  {
    hide Behind;
    if a == [] {
      assert a + b == b;
    } else {
      assert (a + b)[1..] == a[1..] + b;
      if Behind(TrimLeft(s), a[0]).Some? {
        BehindJoined(Behind(TrimLeft(s), a[0]).value, a[1..], b);
      }
    }
  }

  // ---------- words ----------

  lemma KeywordExactly(s: string, word: string)
    ensures Keyword(s, word) == Behind(TrimLeft(s), Key(word))
  {
    hide TrimLeft, SameLetter, ToLower;
    CaseStartsExactly(TrimLeft(s), word);
  }

  lemma IdentifierExactly(s: string, name: string, t: string)
    ensures Identifier(s) == Some((name, t)) <==> Behind(TrimLeft(s), Name(name)) == Some(t)
  {
    hide TrimLeft;
    var u := TrimLeft(s);
    var n := WordLength(u);
    WordMeasured(u);
    if Behind(u, Name(name)) == Some(t) {
      assert u == name + t;
      WordReads(name, t);
    }
  }

  lemma {:induction false} WordMeasured(s: string)
    ensures IsWord(s[..WordLength(s)]) && !IsIdentifierChar(At(s, WordLength(s)))
  {
    if s != [] && IsIdentifierChar(s[0]) {
      WordMeasured(s[1..]);
      assert s[..WordLength(s)] == [s[0]] + s[1..][..WordLength(s[1..])];
    }
  }

  // ---------- values ----------

  lemma {:induction false} QuotedExactly(s: string, len: nat, v: string, t: string)
    requires len < MAX_VALUE_LEN
    ensures Quoted(s, len) == Some((v, t)) <==> s == PrintBody(v, t) && len + |v| < 256 && At(t, 0) != '\''
    decreases |s|
  {
    if s != [] {
      var width := if s[0] == '\'' && At(s, 1) == '\'' then 2 else 1;
      if v == [] {
        assert s[0] == '\'' ==> s == "'" + s[1..];
      } else {
        assert v == [v[0]] + v[1..] && s == s[..width] + s[width..];
        BodyBegins(s, v, t, width);
        if len + 1 < MAX_VALUE_LEN && (s[0] != '\'' || width == 2) {
          QuotedExactly(s[width..], len + 1, v[1..], t);
        }
      }
    }
  }

  lemma BodyBegins(s: string, v: string, t: string, width: nat)
    requires s != [] && v != [] && width == if s[0] == '\'' && At(s, 1) == '\'' then 2 else 1
    ensures s == PrintBody(v, t)
       <==> v[0] == s[0] && (s[0] == '\'' ==> width == 2) && s[width..] == PrintBody(v[1..], t)
  {
    assert s == s[..width] + s[width..];
  }

  lemma {:induction false} TokenMeasured(s: string)
    ensures var n := TokenLength(s);
            && (forall c <- s[..n] :: !EndsToken(c)) && (n < |s| ==> EndsToken(s[n]))
  {
    if s != [] && !EndsToken(s[0]) {
      TokenMeasured(s[1..]);
      assert s[..TokenLength(s)] == [s[0]] + s[1..][..TokenLength(s[1..])];
    }
  }

  lemma {:induction false} TokenIs(v: string, t: string)
    requires (forall c <- v :: !EndsToken(c)) && (t != [] ==> EndsToken(t[0]))
    ensures TokenLength(v + t) == |v|
  {
    if v == [] {
      assert v + t == t;
    } else {
      assert v[0] in v && (v + t)[1..] == v[1..] + t;
      TokenIs(v[1..], t);
    }
  }

  lemma EndsExactly(c: char)
    ensures EndsToken(c) <==> c in BLANKS || c in ",);"
  {
    SpaceExactly(c);
  }

  /** The text stops in front of a character that ends a bare value. */
  predicate Stops(t: string) {
    t == [] || t[0] in BLANKS || t[0] in ",);"
  }

  lemma BareIsToken(v: string)
    requires v != [] && |v| < 256 && v[0] != '\''
    ensures Bare(v) <==> forall c <- v :: !EndsToken(c)
  {
    forall c | c in v ensures EndsToken(c) <==> c in BLANKS || c == ',' || c == ')' || c == ';' {
      EndsExactly(c);
    }
  }

  /** A bare value is read as it stands, up to what ends it. */
  lemma BareExactly(u: string, v: string, t: string)
    requires u != [] ==> u[0] != '\''
    ensures BareToken(u) == Some((v, t)) <==> Bare(v) && u == v + t && Stops(t)
  {
    hide EndsToken, Trim, BLANKS;
    var n := TokenLength(u);
    TokenMeasured(u);
    TokenIsTrimmed(u[..n]);
    if u == v + t && v != [] && |v| < 256 {
      BareIsToken(v);
      if t != [] {
        EndsExactly(t[0]);
      }
      if Bare(v) && Stops(t) {
        TokenIs(v, t);
      }
    }
    if n < |u| {
      EndsExactly(u[n]);
    }
  }

  lemma TokenIsTrimmed(token: string)
    requires forall c <- token :: !EndsToken(c)
    ensures Trim(token) == token
  {
    if token != [] {
      assert token[0] in token && token[|token| - 1] in token;
    }
  }

  lemma QuotedIsValue(u: string, v: string, t: string)
    requires u != [] && u[0] == '\''
    ensures Quoted(u[1..], 0) == Some((v, t)) <==> |v| < 256 && u == PrintLiteral(v, "") + t && At(t, 0) != '\''
  {
    QuotedExactly(u[1..], 0, v, t);
    BodyInFront(v, t);
    assert u == "'" + u[1..];
    assert "'" + (PrintBody(v, "") + t) == PrintLiteral(v, "") + t;
    assert u == PrintLiteral(v, "") + t ==> u[1..] == PrintBody(v, "") + t;
  }

  lemma ValueExactly(s: string, v: string, t: string)
    ensures Value(s) == Some((v, t)) <==> Behind(TrimLeft(s), Val(v)) == Some(t)
  {
    hide TrimLeft, Quoted, BareToken, PrintBody, Bare;
    var u := TrimLeft(s);
    ValBehind(u, v, t);
    if u != [] && u[0] == '\'' {
      QuotedIsValue(u, v, t);
      if Bare(v) {
        BareStarts(v);
      }
    } else {
      BareExactly(u, v, t);
    }
  }

  lemma BareStarts(v: string)
    requires Bare(v)
    ensures v[0] != '\''
  {
  }

  lemma ValBehind(u: string, v: string, t: string)
    ensures Behind(u, Val(v)) == Some(t)
       <==> || (|v| < 256 && u == PrintLiteral(v, "") + t && At(t, 0) != '\'')
            || (Bare(v) && u == v + t && Stops(t))
  {
    hide PrintBody, BLANKS;
    var quoted := PrintLiteral(v, "");
    if quoted <= u {
      assert u == quoted + u[|quoted|..];
    }
    if v <= u {
      assert u == v + u[|v|..];
    }
  }

  /** A value without quotes is read as it stands, up to a blank, a comma, a parenthesis, a semicolon or the end. */
  lemma BareReads(v: string, rest: string)
    requires Bare(v) && Stops(rest)
    ensures Value(v + rest) == Some((v, rest))
  {
    hide Value, Behind, BLANKS;
    assert v[0] in v;
    SpaceExactly(v[0]);
    BlankSkipped(v + rest);
    ValBehind(v + rest, v, rest);
    ValueExactly(v + rest, v, rest);
  }

  // ---------- signs ----------

  lemma OperatorExactly(s: string, op: CompareOp, t: string)
    ensures Operator(s) == Some((op, t)) <==> Behind(TrimLeft(s), Oper(op)) == Some(t)
  {
    hide TrimLeft;
    var u := TrimLeft(s);
    OperatorPrefix(u, op);
  }

  lemma OperatorPrefix(u: string, op: CompareOp)
    ensures var x := OperatorText(op);
            x <= u <==> At(u, 0) == x[0] && (|x| == 2 ==> At(u, 1) == x[1])
  {
  }

  lemma SignExactly(u: string, x: char)
    requires x != '\0'
    ensures Behind(u, Sign([x])) == if At(u, 0) == x then Some(u[1..]) else None
  {
  }
}
