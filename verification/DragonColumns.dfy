/**
 The column list of a SELECT of member-dragon, which is cut at commas, and the search for the
 word FROM behind it: both read exactly the tokens that stand there.
 */
module DragonColumns {
  import opened Options
  import opened CStrings
  import opened SqlText
  import opened Commands
  import opened DragonGrammar
  import opened DragonTokens
  import opened DragonSpelling

  // ---------- parts of a text ----------

  lemma {:induction false} TrimLeftSuffix(s: string)
    ensures var k := |s| - |TrimLeft(s)|;
            && TrimLeft(s) == s[k..] && (forall i | 0 <= i < k :: IsSpace(s[i]))
            && (k < |s| ==> !IsSpace(s[k]))
  {
    if s != [] && IsSpace(s[0]) {
      TrimLeftSuffix(s[1..]);
      assert TrimLeft(s) == TrimLeft(s[1..]);
      assert forall i | 0 < i < |s| - |TrimLeft(s)| :: s[i] == s[1..][i - 1];
    }
  }

  lemma {:induction false} TrimRightPrefix(s: string)
    ensures var r := TrimRight(s);
            && r == s[..|r|] && (forall i | |r| <= i < |s| :: IsSpace(s[i]))
            && (r != [] ==> !IsSpace(r[|r| - 1]))
  {
    if s != [] && IsSpace(s[|s| - 1]) {
      TrimRightPrefix(s[..|s| - 1]);
      assert forall i | |TrimRight(s)| <= i < |s| - 1 :: s[i] == s[..|s| - 1][i];
    }
  }

  lemma {:induction false} TrimLeftOf(front: string, s: string)
    requires Blank(front) && (s != [] ==> !IsSpace(s[0]))
    ensures TrimLeft(front + s) == s
  {
    if front == [] {
      assert front + s == s;
    } else {
      assert front[0] in front && (front + s)[1..] == front[1..] + s;
      TrimLeftOf(front[1..], s);
    }
  }

  lemma {:induction false} TrimRightOf(s: string, back: string)
    requires Blank(back) && (s != [] ==> !IsSpace(s[|s| - 1]))
    ensures TrimRight(s + back) == s
  {
    if back == [] {
      assert s + back == s;
    } else {
      var n := |back| - 1;
      assert back[n] in back && (s + back)[..|s| + n] == s + back[..n];
      TrimRightOf(s, back[..n]);
    }
  }

  // ---------- the tokens ----------

  function ColumnTokens(columns: seq<string>, comma: bool): (tokens: seq<Token>)
    requires columns != []
    ensures tokens != []
  {
    ItemTokens(Names, columns) + if comma then [Sign(",")] else []
  }

  /** The columns one by one: a comma stands behind each but the last, and may stand there too. */
  lemma ColumnTokensUnfold(s: string, columns: seq<string>, comma: bool)
    requires columns != []
    ensures BehindAll(s, ColumnTokens(columns, comma))
         == match Behind(TrimLeft(s), Name(columns[0]))
            case None => None
            case Some(r) =>
              if |columns| == 1 && !comma then Some(r)
              else if At(TrimLeft(r), 0) != ',' then None
              else if |columns| == 1 then Some(TrimLeft(r)[1..])
              else BehindAll(TrimLeft(r)[1..], ColumnTokens(columns[1..], comma))
  {
    hide TrimLeft;
    var tail := if comma then [Sign(",")] else [];
    var name := Behind(TrimLeft(s), Name(columns[0]));
    if |columns| == 1 {
      assert ColumnTokens(columns, comma) == [Name(columns[0])] + tail;
      BehindFirst(s, Name(columns[0]), tail);
      if comma && name.Some? {
        assert tail == [Sign(",")] + [];
        BehindFirst(name.value, Sign(","), []);
        SignExactly(TrimLeft(name.value), ',');
      }
    } else {
      var more := ColumnTokens(columns[1..], comma);
      assert ColumnTokens(columns, comma) == [Name(columns[0]), Sign(",")] + more;
      Two(s, Name(columns[0]), Sign(","), more);
      if name.Some? {
        SignExactly(TrimLeft(name.value), ',');
      }
    }
  }

  // ---------- the list ----------

  /** No 256 characters in a row without a comma. */
  ghost predicate Roomy(c: string) {
    forall i, j | 0 <= i <= j <= |c| && ',' !in c[i..j] :: j - i < 256
  }

  lemma RoomySplit(w: string, c: string)
    requires ',' !in w
    ensures Roomy(w + "," + c) <==> |w| < 256 && Roomy(c)
  {
    var s := w + "," + c;
    var n := |w|;
    assert s[0..n] == w;
    if |w| < 256 && Roomy(c) {
      forall i, j | 0 <= i <= j <= |s| && ',' !in s[i..j] ensures j - i < 256 {
        if i <= n < j {
          CommaInside(s, i, j, n);
        }
        if n < i {
          assert s[i..j] == c[i - n - 1..j - n - 1];
        }
      }
    }
    if Roomy(s) {
      forall i, j | 0 <= i <= j <= |c| && ',' !in c[i..j] ensures j - i < 256 {
        assert s[i + n + 1..j + n + 1] == c[i..j];
      }
    }
  }

  lemma CommaInside(s: string, i: nat, j: nat, n: nat)
    requires i <= n < j <= |s| && s[n] == ','
    ensures ',' in s[i..j]
  {
    assert s[i..j][n - i] == ',';
  }

  lemma RoomyAlone(w: string)
    requires ',' !in w
    ensures Roomy(w) <==> |w| < 256
  {
    assert w[0..|w|] == w;
  }

  lemma {:induction false} CommaMeasured(s: string)
    ensures ',' !in s[..CommaAt(s)] && (CommaAt(s) < |s| ==> s[CommaAt(s)] == ',')
  {
    if s != [] && s[0] != ',' {
      CommaMeasured(s[1..]);
      assert s[..CommaAt(s)] == [s[0]] + s[1..][..CommaAt(s[1..])];
    }
  }

  lemma NameEdges(x: string)
    requires ValidName(x)
    ensures x != [] && !IsSpace(x[0]) && !IsSpace(x[|x| - 1]) && ',' !in x
  {
    assert x[0] in x && x[|x| - 1] in x;
  }

  lemma NameBehind(u: string, x: string, r: string)
    ensures Behind(u, Name(x)) == Some(r) <==> ValidName(x) && u == x + r && !IsIdentifierChar(At(r, 0))
  {
    if x <= u {
      assert u == x + u[|x|..];
    }
  }

  /** What stands in front of a comma is a name with blanks around it. */
  lemma NameThenComma(w: string, y: string, x: string, q: string)
    requires ',' !in w
    ensures (match Behind(TrimLeft(w + "," + y), Name(x))
             case None => false
             case Some(r) => At(TrimLeft(r), 0) == ',' && TrimLeft(r)[1..] == q)
       <==> Trim(w) == x && ValidName(x) && q == y
    ensures var b := Behind(TrimLeft(w + "," + y), Name(x)); b.Some? ==> |b.value| > |y|
  {
    hide TrimLeft, TrimRight, ValidName, Behind;
    var s := w + "," + y;
    var v := TrimLeft(w);
    TrimLeftSuffix(w);
    TrimRightPrefix(v);
    LeadingBlanks(w, "," + y);
    assert s == w + ("," + y) && TrimLeft(s) == v + ("," + y);
    if ValidName(x) {
      NameEdges(x);
      if Trim(w) == x {
        var r := v[|x|..] + ("," + y);
        assert v + ("," + y) == x + r;
        assert Blank(v[|x|..]);
        TrimLeftOf(v[|x|..], "," + y);
        NameEnds(v[|x|..], y);
        NameBehind(TrimLeft(s), x, r);
      }
    }
    var b := Behind(TrimLeft(s), Name(x));
    if b.Some? {
      NameBehind(TrimLeft(s), x, b.value);
      NameEdges(x);
      PrefixBeforeComma(v, y, x, b.value);
      var g := v[|x|..];
      LeadingBlanks(g, "," + y);
      TrimLeftSuffix(g);
      if At(TrimLeft(b.value), 0) == ',' {
        NoCommaInside(g, y);
        TrimRightOf(x, g);
        assert v == x + g;
      }
    }
  }

  /** Blanks in front of a text that begins with none are those in front of its first part. */
  lemma {:induction false} LeadingBlanks(w: string, rest: string)
    requires rest != [] ==> !IsSpace(rest[0])
    ensures TrimLeft(w + rest) == TrimLeft(w) + rest
  {
    if w == [] {
      assert w + rest == rest;
    } else if IsSpace(w[0]) {
      assert (w + rest)[1..] == w[1..] + rest;
      LeadingBlanks(w[1..], rest);
    }
  }

  lemma NameEnds(g: string, y: string)
    requires Blank(g)
    ensures !IsIdentifierChar(At(g + ("," + y), 0))
  {
    if g != [] {
      assert g[0] in g;
    }
  }

  lemma PrefixBeforeComma(v: string, y: string, x: string, r: string)
    requires v + ("," + y) == x + r && ',' !in x && x != []
    ensures |x| <= |v| && v == x + v[|x|..] && r == v[|x|..] + ("," + y)
  {
    var t := v + ("," + y);
    if |x| > |v| {
      LongPrefix(v, y, x, r);
    }
    assert v == t[..|v|] && x == t[..|x|] && r == t[|x|..];
  }

  lemma LongPrefix(v: string, y: string, x: string, r: string)
    requires v + ("," + y) == x + r && |v| < |x|
    ensures ',' in x
  {
    assert (v + ("," + y))[|v|] == ',' && x[|v|] == (x + r)[|v|];
  }

  lemma NoCommaInside(g: string, y: string)
    requires ',' !in g && At(TrimLeft(g) + ("," + y), 0) == ','
    ensures TrimLeft(g) == [] && Blank(g)
  {
    TrimLeftSuffix(g);
    FirstIsIn(g);
  }

  lemma FirstIsIn(g: string)
    ensures TrimLeft(g) != [] ==> TrimLeft(g)[0] in g
  {
    TrimLeftWithin(g);
  }

  lemma {:induction false} LeftOfJoined(w: string, z: string)
    requires w != [] && !IsSpace(w[|w| - 1])
    ensures TrimLeft(w + z) == TrimLeft(w) + z && TrimLeft(w) != []
    ensures TrimLeft(w)[|TrimLeft(w)| - 1] == w[|w| - 1]
  {
    if IsSpace(w[0]) {
      assert (w + z)[1..] == w[1..] + z;
      LeftOfJoined(w[1..], z);
    }
  }

  lemma SameFront(v: string, x: string, z: string)
    ensures v + z == x + z <==> v == x
  {
    if v + z == x + z {
      assert (v + z)[..|v|] == v && (x + z)[..|x|] == x;
    }
  }

  lemma AlreadyTrimmed(v: string)
    requires v != [] && !IsSpace(v[|v| - 1])
    ensures TrimRight(v) == v
  {
  }

  /** A last name stands alone behind its blanks. */
  lemma NameAlone(w: string, x: string, z: string)
    requires w != [] && !IsSpace(w[|w| - 1]) && !IsIdentifierChar(At(z, 0))
    ensures Behind(TrimLeft(w + z), Name(x)) == Some(z) <==> Trim(w) == x && ValidName(x)
  {
    hide TrimLeft, TrimRight, ValidName, Behind;
    LeftOfJoined(w, z);
    AlreadyTrimmed(TrimLeft(w));
    SameFront(TrimLeft(w), x, z);
    NameBehind(TrimLeft(w + z), x, z);
  }

  lemma TrimNotLonger(s: string)
    ensures |Trim(s)| <= |s|
  {
  }

  /** A name and the list behind its comma. */
  lemma ListAtComma(w: string, c: string, count: nat)
    requires ',' !in w
    ensures ColumnList(w + "," + c, count)
         == if count >= 32 || |w| >= 256 || !ValidName(Trim(w)) then None
            else match ColumnList(c, count + 1)
              case None => None
              case Some(rest) => Some([Trim(w)] + rest)
  {
    hide Trim, CommaAt, IsWord;
    var s := w + "," + c;
    CommaIs(s, |w|);
    TrimNotLonger(w);
    assert s[..|w|] == w && s[|w| + 1..] == c;
  }

  lemma {:induction false} CommaIs(s: string, n: nat)
    requires n <= |s| && ',' !in s[..n] && (n < |s| ==> s[n] == ',')
    ensures CommaAt(s) == n
  {
    if n > 0 {
      assert s[..n][0] == s[0] && s[..n][1..] == s[1..][..n - 1];
      CommaIs(s[1..], n - 1);
    }
  }

  lemma ListAlone(w: string, count: nat)
    requires ',' !in w && w != []
    ensures ColumnList(w, count)
         == if count >= 32 || |w| >= 256 || !ValidName(Trim(w)) then None else Some([Trim(w)])
  {
    hide Trim, CommaAt, IsWord;
    assert w[..|w|] == w;
    CommaIs(w, |w|);
    TrimNotLonger(w);
  }

  lemma ListNotEmpty(s: string, count: nat)
    ensures ColumnList(s, count).Some? ==> (ColumnList(s, count).value == [] <==> s == [])
  {
    hide Trim, CommaAt, IsWord;
  }

  /** Tokens that begin with a name take something of the text. */
  lemma ColumnsTakeSome(s: string, columns: seq<string>, comma: bool)
    requires columns != []
    ensures BehindAll(s, ColumnTokens(columns, comma)).Some? ==>
              |BehindAll(s, ColumnTokens(columns, comma)).value| < |s|
    decreases |columns|
  {
    hide Behind, ColumnTokens;
    ColumnTokensUnfold(s, columns, comma);
    var u := TrimLeft(s);
    if Behind(u, Name(columns[0])).Some? {
      var r := Behind(u, Name(columns[0])).value;
      NameBehind(u, columns[0], r);
      if At(TrimLeft(r), 0) == ',' && |columns| > 1 {
        ColumnsTakeSome(TrimLeft(r)[1..], columns[1..], comma);
      }
    }
  }

  lemma SuffixComma(s: string, k: nat, t: string)
    requires k <= |s| && |t| <= |s| && t == s[|s| - |t|..] && t != [] && t[0] == ',' && ',' !in s[..k]
    ensures |s| - |t| >= k
  {
    assert s[|s| - |t|] == ',';
    FrontHas(s, k);
  }

  lemma FrontHas(s: string, k: nat)
    requires k <= |s|
    ensures forall i | 0 <= i < k :: s[i] in s[..k]
  {
    forall i | 0 <= i < k ensures s[i] in s[..k] {
      assert s[..k][i] == s[i];
    }
  }

  /** Without a comma there is no second name in front of z. */
  lemma NoSecondName(c: string, columns: seq<string>, z: string)
    requires |columns| > 1 && ',' !in c
    ensures BehindAll(c + z, ColumnTokens(columns, false)) != Some(z)
  {
    hide TrimLeft, Behind, ColumnTokens, ValidName;
    var s := c + z;
    ColumnTokensUnfold(s, columns, false);
    TrimLeftSuffix(s);
    var u := TrimLeft(s);
    var name := Behind(u, Name(columns[0]));
    if name.Some? && At(TrimLeft(name.value), 0) == ',' {
      var r := name.value;
      NameBehind(u, columns[0], r);
      TrimLeftSuffix(r);
      var t := TrimLeft(r);
      assert t == s[|s| - |t|..];
      assert s[..|c|] == c;
      SuffixComma(s, |c|, t);
      ColumnsTakeSome(t[1..], columns[1..], false);
    }
  }

  lemma ListBeforeComma(c: string, n: nat, count: nat, columns: seq<string>, z: string)
    requires n < |c| && c[n] == ',' && ',' !in c[..n] && !IsSpace(c[|c| - 1])
    requires columns != []
    requires c[n + 1..] != [] ==>
               (ColumnList(c[n + 1..], count + 1) == Some(columns[1..])
                <==> && |columns| > 1 && count + |columns| <= 32 && Roomy(c[n + 1..])
                     && BehindAll(c[n + 1..] + z, ColumnTokens(columns[1..], c[|c| - 1] == ',')) == Some(z))
    ensures ColumnList(c, count) == Some(columns)
       <==> && count + |columns| <= 32 && Roomy(c)
            && BehindAll(c + z, ColumnTokens(columns, c[|c| - 1] == ',')) == Some(z)
  {
    hide ColumnList, Roomy, Trim, TrimLeft, ValidName, Behind, ColumnTokens;
    var w, c2, comma := c[..n], c[n + 1..], c[|c| - 1] == ',';
    assert c == w + "," + c2 && c + z == w + "," + (c2 + z);
    ListAtComma(w, c2, count);
    RoomySplit(w, c2);
    ColumnTokensUnfold(c + z, columns, comma);
    var name := Behind(TrimLeft(c + z), Name(columns[0]));
    NameThenComma(w, c2 + z, columns[0], c2 + z);
    if name.Some? {
      if At(TrimLeft(name.value), 0) == ',' {
        NameThenComma(w, c2 + z, columns[0], TrimLeft(name.value)[1..]);
      }
    }
    ListNotEmpty(c2, count + 1);
    if |columns| == 1 {
      assert columns == [columns[0]] + [];
    } else {
      assert columns == [columns[0]] + columns[1..];
    }
    if c2 == [] {
      NothingLeft(count + 1);
      assert c2 + z == z;
      if |columns| > 1 {
        ColumnsTakeSome(z, columns[1..], comma);
      }
    }
  }

  lemma NothingLeft(count: nat)
    ensures ColumnList([], count) == Some([]) && Roomy([])
  {
  }

  /** The list read up to its last comma or name is the names of the tokens that stand there. */
  lemma {:induction false} ListExactly(c: string, count: nat, columns: seq<string>, z: string)
    requires c != [] && !IsSpace(c[|c| - 1]) && (c[|c| - 1] == ',' || !IsIdentifierChar(At(z, 0)))
    ensures ColumnList(c, count) == Some(columns)
       <==> && columns != [] && count + |columns| <= 32 && Roomy(c)
            && BehindAll(c + z, ColumnTokens(columns, c[|c| - 1] == ',')) == Some(z)
    decreases |c|
  {
    hide ColumnList, Roomy, Trim, TrimLeft, ValidName, Behind, BehindAll, ColumnTokens, CommaAt;
    ListNotEmpty(c, count);
    var n := CommaAt(c);
    CommaMeasured(c);
    if columns != [] {
      if n < |c| {
        if c[n + 1..] != [] {
          if |columns| > 1 {
            ListExactly(c[n + 1..], count + 1, columns[1..], z);
          } else {
            ListNotEmpty(c[n + 1..], count + 1);
          }
        }
        ListBeforeComma(c, n, count, columns, z);
      } else {
        assert c[..n] == c;
        LastList(c, count, columns, z);
      }
    }
  }

  lemma LastList(c: string, count: nat, columns: seq<string>, z: string)
    requires ',' !in c && c != [] && !IsSpace(c[|c| - 1]) && !IsIdentifierChar(At(z, 0)) && columns != []
    ensures ColumnList(c, count) == Some(columns)
       <==> count + |columns| <= 32 && Roomy(c) && BehindAll(c + z, ColumnTokens(columns, false)) == Some(z)
  {
    hide ColumnList, Roomy, Trim, TrimLeft, ValidName, Behind, ColumnTokens;
    ListAlone(c, count);
    RoomyAlone(c);
    ColumnTokensUnfold(c + z, columns, false);
    NameAlone(c, columns[0], z);
    if |columns| == 1 {
      assert columns == [columns[0]];
    } else {
      NoSecondName(c, columns, z);
    }
  }

  // ---------- finding FROM behind the columns ----------

  predicate SpelledFrom(name: string) {
    SameLetters(name, "FROM")
  }

  /** Behind a character of a word no keyword starts. */
  lemma {:induction false} FindInsideWord(s: string, i: nat, j: nat, keyword: string)
    requires 0 < i <= j <= |s| && forall k | i - 1 <= k < j - 1 :: IsIdentifierChar(s[k])
    ensures FindKeyword(s, i, keyword) == FindKeyword(s, j, keyword)
    decreases j - i
  {
    if i < j {
      assert IsIdentifierChar(s[i - 1]);
      FindInsideWord(s, i + 1, j, keyword);
    }
  }

  /** A word of another spelling is passed over, or the place of the word is found. */
  lemma FindPastWord(s: string, i: nat, word: string, rest: string)
    requires i <= |s| && s[i..] == word + rest && ValidName(word) && !IsIdentifierChar(At(rest, 0))
    requires i == 0 || !IsIdentifierChar(s[i - 1])
    ensures FindKeyword(s, i, "FROM") == if SpelledFrom(word) then Some(i) else FindKeyword(s, i + |word|, "FROM")
  {
    hide FindKeyword;
    assert forall k | i <= k < i + |word| :: s[k] == s[i..][k - i] == word[k - i] && word[k - i] in word;
    FromMatches(word, rest);
    FindHere(s, i);
    if !SpelledFrom(word) {
      FindInsideWord(s, i + 1, i + |word|, "FROM");
    }
  }

  lemma FindHere(s: string, i: nat)
    requires i < |s| && (i == 0 || !IsIdentifierChar(s[i - 1]))
    ensures FindKeyword(s, i, "FROM")
           == if KeywordMatches(s[i..], "FROM") then Some(i) else FindKeyword(s, i + 1, "FROM")
  {
  }

  lemma FromMatches(word: string, rest: string)
    requires ValidName(word) && !IsIdentifierChar(At(rest, 0))
    ensures KeywordMatches(word + rest, "FROM") <==> SpelledFrom(word)
  {
    var s := word + rest;
    if |word| > 4 {
      assert s[4] == word[4] && word[4] in word;
    } else if |word| < 4 {
      assert |s| > |word| ==> s[|word|] == rest[0];
      assert |s| > |word| ==> ToLower(s[|word|]) != ToLower("FROM"[|word|]);
    } else if |word| == 4 {
      assert forall k | 0 <= k < 4 :: s[k] == word[k];
    }
  }

  /** A character outside words is passed over. */
  lemma FindPastOther(s: string, i: nat)
    requires i < |s| && !IsIdentifierChar(s[i])
    ensures FindKeyword(s, i, "FROM") == FindKeyword(s, i + 1, "FROM")
  {
    assert ToLower(s[i..][0]) != ToLower("FROM"[0]);
  }

  lemma {:induction false} FindPastOthers(s: string, i: nat, j: nat)
    requires i <= j <= |s| && forall k | i <= k < j :: !IsIdentifierChar(s[k])
    ensures FindKeyword(s, i, "FROM") == FindKeyword(s, j, "FROM")
    decreases j - i
  {
    hide FindKeyword;
    if i < j {
      FindPastOther(s, i);
      FindPastOthers(s, i + 1, j);
    }
  }

  /** Blanks are passed over. */
  lemma FindPastBlanks(s: string, i: nat) returns (k: nat)
    requires i <= |s|
    ensures i <= k <= |s| && s[k..] == TrimLeft(s[i..]) && |s| - |TrimLeft(s[i..])| == k
    ensures FindKeyword(s, i, "FROM") == FindKeyword(s, k, "FROM") && (k > i ==> !IsIdentifierChar(s[k - 1]))
  {
    hide FindKeyword;
    TrimLeftSuffix(s[i..]);
    k := |s| - |TrimLeft(s[i..])|;
    assert forall j | i <= j < k :: s[j] == s[i..][j - i];
    FindPastOthers(s, i, k);
    assert s[i..][k - i..] == s[k..];
  }

  lemma FromIsKeyword(u: string)
    ensures KeywordMatches(u, "FROM") <==> Behind(u, Key("FROM")).Some?
    ensures Behind(u, Key("FROM")).Some? ==> u != [] && IsIdentifierChar(u[0]) && !IsSpace(u[0])
  {
    if |u| >= 4 {
      FoldExactly(u[0], 'F');
      FoldExactly(u[1], 'R');
      FoldExactly(u[2], 'O');
      FoldExactly(u[3], 'M');
      assert u[..4][0] == u[0] && u[..4][1] == u[1] && u[..4][2] == u[2] && u[..4][3] == u[3];
    }
  }

  /** The word FROM behind blanks, where no longer word stands before it. */
  lemma FindsHere(s: string, i: nat)
    requires i <= |s| && (i == 0 || !IsIdentifierChar(s[i - 1]) || (i < |s| && !IsIdentifierChar(s[i])))
    requires Behind(TrimLeft(s[i..]), Key("FROM")).Some?
    ensures FindKeyword(s, i, "FROM") == Some(|s| - |TrimLeft(s[i..])|)
  {
    hide FindKeyword, TrimLeft, Behind, KeywordMatches;
    var k := FindPastBlanks(s, i);
    FromIsKeyword(s[k..]);
    FindHere(s, k);
  }

  /** One name of the list, and what stands behind it. */
  lemma FindPastName(s: string, i: nat, c: string, r: string) returns (k: nat)
    requires i <= |s| && (i == 0 || !IsIdentifierChar(s[i - 1])) && Behind(TrimLeft(s[i..]), Name(c)) == Some(r)
    ensures i <= k && k + |c| <= |s| && s[k + |c|..] == r && |c| > 0 && !IsIdentifierChar(At(r, 0))
    ensures FindKeyword(s, i, "FROM") == if SpelledFrom(c) then Some(k) else FindKeyword(s, k + |c|, "FROM")
  {
    hide FindKeyword, TrimLeft, Behind, SpelledFrom;
    k := FindPastBlanks(s, i);
    NameBehind(s[k..], c, r);
    FindPastWord(s, k, c, r);
    assert s[k + |c|..] == s[k..][|c|..];
  }

  /** The comma behind a name. */
  lemma FindPastComma(s: string, j: nat)
    requires j <= |s| && At(TrimLeft(s[j..]), 0) == ','
    ensures var q := TrimLeft(s[j..])[1..];
            && |q| < |s| - j && s[|s| - |q|..] == q && s[|s| - |q| - 1] == ','
            && FindKeyword(s, j, "FROM") == FindKeyword(s, |s| - |q|, "FROM")
  {
    hide FindKeyword, TrimLeft;
    var m := FindPastBlanks(s, j);
    assert s[m] == ',' && s[m + 1..] == TrimLeft(s[j..])[1..];
    FindPastOther(s, m);
  }

  /** The search stops at the FROM behind the columns, or at the first column that is spelled like it. */
  lemma {:induction false} FindsFrom(s: string, i: nat, columns: seq<string>, comma: bool, u: string)
    requires columns != [] && i <= |s| && (i == 0 || !IsIdentifierChar(s[i - 1]))
    requires BehindAll(s[i..], ColumnTokens(columns, comma)) == Some(u) && Behind(TrimLeft(u), Key("FROM")).Some?
    ensures |u| <= |s| - i && u == s[|s| - |u|..]
    ensures if forall c <- columns :: !SpelledFrom(c)
            then FindKeyword(s, i, "FROM") == Some(|s| - |TrimLeft(u)|)
            else FindKeyword(s, i, "FROM").Some? && FindKeyword(s, i, "FROM").value < |s| - |u|
    decreases |columns|
  {
    hide FindKeyword, TrimLeft, Behind, BehindAll, SpelledFrom, ColumnTokens;
    ColumnTokensUnfold(s[i..], columns, comma);
    var c := columns[0];
    var r := Behind(TrimLeft(s[i..]), Name(c)).value;
    var k := FindPastName(s, i, c, r);
    var j := k + |c|;
    if |columns| == 1 && !comma {
      FromIsKeyword(TrimLeft(u));
      assert s[j..] == u && u[0] == s[j];
      FindsHere(s, j);
    } else {
      FindPastComma(s, j);
      var q := TrimLeft(r)[1..];
      var next := |s| - |q|;
      if |columns| == 1 {
        FindsHere(s, next);
      } else {
        FindsFrom(s, next, columns[1..], comma, u);
        assert columns == [c] + columns[1..];
      }
    }
  }

  // ---------- SELECT ----------

  /** The tokens in front of FROM: a star, or columns. */
  function SelectionTokens(all: bool, columns: seq<string>, comma: bool): seq<Token>
    requires all || columns != []
  {
    if all then [Sign("*")] else ColumnTokens(columns, comma)
  }

  /** The text in front of FROM fits its 1024-byte buffer, and each column between commas its 256-byte token. */
  ghost predicate FitsBuffers(a: string, u: string) {
    var front := |TrimLeft(a)| - |TrimLeft(u)|;
    0 <= front < 1024 && front <= |TrimLeft(a)| && Roomy(TrimRight(TrimLeft(a)[..front]))
  }

  /** Behind the word SELECT: with or without a comma behind the last column, and with or without ASC. */
  ghost predicate SpellsCut(a: string, cmd: Command, comma: bool, asc: bool)
    requires cmd.SelectFrom?
  {
    && (if cmd.all then cmd.columns == [] else 0 < |cmd.columns| <= 32)
    && (forall c <- cmd.columns :: !SpelledFrom(c))
    && var u := BehindAll(a, SelectionTokens(cmd.all, cmd.columns, comma));
       && u.Some? && FitsBuffers(a, u.value)
       && Spells(u.value, FromTokens(cmd.table, cmd.where, cmd.orderBy, cmd.limit, asc))
  }

  /** The text behind the word SELECT, cut at FROM. */
  function CutAtFrom(a: string): Option<Command> {
    var b := TrimLeft(a);
    var from :- FindKeyword(b, 0, "FROM");
    if from == 0 || from >= MAX_COLUMNS_TEXT then None
    else
      var (all, columns) :- SelectedColumns(Trim(b[..from]));
      ParseFrom(b[from..], all, columns)
  }

  /** The text in front of FROM, without blanks at its end, and what is behind it. */
  lemma FrontOf(b: string, from: nat) returns (c: string, z: string)
    requires 0 < from <= |b| && !IsSpace(b[0]) && (from < |b| ==> !IsSpace(b[from]))
    ensures c == Trim(b[..from]) == TrimRight(b[..from]) && c != [] && b == c + z && TrimLeft(z) == b[from..]
    ensures !IsSpace(c[|c| - 1]) && c[0] == b[0]
    ensures !IsIdentifierChar(b[from - 1]) ==> !IsIdentifierChar(c[|c| - 1]) || !IsIdentifierChar(At(z, 0))
    ensures |c| <= from
  {
    hide TrimLeft, TrimRight;
    var front := b[..from];
    c := TrimRight(front);
    TrimRightPrefix(front);
    TrimmedFront(front);
    z := b[|c|..];
    assert b == c + z;
    assert Blank(b[|c|..from]);
    assert z == b[|c|..from] + b[from..];
    TrimLeftOf(b[|c|..from], b[from..]);
    if |c| < from {
      assert IsSpace(front[|c|]) && z[0] == front[|c|];
    }
  }

  lemma TrimmedFront(front: string)
    requires front != [] && !IsSpace(front[0])
    ensures Trim(front) == TrimRight(front) && TrimRight(front) != [] && TrimRight(front)[0] == front[0]
  {
    TrimRightPrefix(front);
  }

  lemma {:induction false} FoundIs(s: string, i: nat, keyword: string)
    requires i <= |s| && FindKeyword(s, i, keyword).Some?
    ensures var k := FindKeyword(s, i, keyword).value;
            (k == 0 || !IsIdentifierChar(s[k - 1])) && KeywordMatches(s[k..], keyword)
    decreases |s| - i
  {
    hide KeywordMatches;
    if FindKeyword(s, i, keyword) != Some(i) {
      FoundIs(s, i + 1, keyword);
    }
  }

  /** The last character of a list that can be read. */
  lemma {:induction false} ListEndsInWord(c: string, count: nat)
    requires c != [] && !IsSpace(c[|c| - 1]) && ColumnList(c, count).Some?
    ensures c[|c| - 1] == ',' || IsIdentifierChar(c[|c| - 1])
    decreases |c|
  {
    hide ColumnList, Trim, CommaAt;
    var n := CommaAt(c);
    CommaMeasured(c);
    if n == |c| {
      assert c[..n] == c;
      ListAlone(c, count);
      LastOfTrimmed(c);
      assert Trim(c)[|Trim(c)| - 1] in Trim(c);
    } else {
      assert c == c[..n] + "," + c[n + 1..];
      ListAtComma(c[..n], c[n + 1..], count);
      if n + 1 < |c| {
        ListEndsInWord(c[n + 1..], count + 1);
      }
    }
  }

  lemma LastOfTrimmed(w: string)
    requires w != [] && !IsSpace(w[|w| - 1])
    ensures Trim(w) != [] && Trim(w)[|Trim(w)| - 1] == w[|w| - 1]
  {
    hide TrimLeft;
    LeftOfJoined(w, []);
    AlreadyTrimmed(TrimLeft(w));
  }

  lemma BehindTrimmed(a: string, tokens: seq<Token>)
    requires tokens != []
    ensures BehindAll(TrimLeft(a), tokens) == BehindAll(a, tokens)
  {
    hide Behind, TrimLeft;
    TrimLeftTwice(a);
  }

  /** What the parser reads is spelled. */
  lemma CutIsSpelled(a: string, cmd: Command)
    requires CutAtFrom(a) == Some(cmd)
    ensures cmd.SelectFrom? && exists comma, asc :: SpellsCut(a, cmd, comma, asc)
  {
    hide TrimLeft, TrimRight, FindKeyword, SelectedColumns, ParseFrom, Behind, Spells, Roomy, FromTokens,
         KeywordMatches;
    var b := TrimLeft(a);
    TrimLeftSuffix(a);
    var from := FindKeyword(b, 0, "FROM").value;
    FoundIs(b, 0, "FROM");
    FromIsKeyword(b[from..]);
    var c, z := FrontOf(b, from);
    var (all, columns) := SelectedColumns(c).value;
    FromExactly(b[from..], all, columns, cmd);
    var asc := Spells(b[from..], FromTokens(cmd.table, cmd.where, cmd.orderBy, cmd.limit, true));
    SpellsTrimmed(z, FromTokens(cmd.table, cmd.where, cmd.orderBy, cmd.limit, asc));
    SelectionIsSpelled(a, b, from, c, z, all, columns);
    var comma := c[|c| - 1] == ',';
    FrontFits(a, z, from, c);
    assert SpellsCut(a, cmd, comma, asc);
  }

  lemma FrontFits(a: string, z: string, from: nat, c: string)
    requires from < 1024 && from <= |TrimLeft(a)| && TrimLeft(z) == TrimLeft(a)[from..]
    requires c == TrimRight(TrimLeft(a)[..from]) && Roomy(c)
    ensures FitsBuffers(a, z)
  {
    hide TrimLeft, TrimRight, Roomy;
  }

  lemma SelectionIsSpelled(a: string, b: string, from: nat, c: string, z: string, all: bool, columns: seq<string>)
    requires b == TrimLeft(a) && b == c + z && c != [] && !IsSpace(c[|c| - 1]) && |c| <= from <= |b|
    requires SelectedColumns(c) == Some((all, columns)) && FindKeyword(b, 0, "FROM") == Some(from)
    requires TrimLeft(z) == b[from..] && Behind(b[from..], Key("FROM")).Some?
    requires !IsIdentifierChar(c[|c| - 1]) || !IsIdentifierChar(At(z, 0))
    ensures if all then columns == [] else 0 < |columns| <= 32
    ensures BehindAll(a, SelectionTokens(all, columns, c[|c| - 1] == ',')) == Some(z) && Roomy(c)
    ensures forall name <- columns :: !SpelledFrom(name)
  {
    hide TrimLeft, FindKeyword, ColumnList, Behind, Roomy, SpelledFrom, ColumnTokens;
    if all {
      StarSelected(c, columns);
      StarBehind(a, z);
      RoomyAlone("*");
    } else {
      ListSelected(c, columns);
      ListEndsInWord(c, 0);
      ListExactly(c, 0, columns, z);
      BehindTrimmed(a, ColumnTokens(columns, c[|c| - 1] == ','));
      assert b[0..] == b;
      FindsFrom(b, 0, columns, c[|c| - 1] == ',', z);
    }
  }

  lemma StarSelected(c: string, columns: seq<string>)
    ensures SelectedColumns(c) == Some((true, columns)) <==> c == "*" && columns == []
  {
    hide ColumnList;
  }

  lemma ListSelected(c: string, columns: seq<string>)
    ensures SelectedColumns(c) == Some((false, columns))
       <==> c != "*" && columns != [] && ColumnList(c, 0) == Some(columns)
  {
    hide ColumnList;
  }

  lemma StarBehind(a: string, z: string)
    ensures BehindAll(a, [Sign("*")]) == Some(z) <==> TrimLeft(a) == "*" + z
  {
    hide TrimLeft;
    var u := TrimLeft(a);
    assert [Sign("*")] == [Sign("*")] + [];
    BehindFirst(a, Sign("*"), []);
    SignExactly(u, '*');
    if At(u, 0) == '*' {
      assert u == "*" + u[1..];
    }
  }

  /** The last character that the tokens of a list take. */
  lemma {:induction false} ColumnsEnd(s: string, columns: seq<string>, comma: bool, u: string)
    requires columns != [] && BehindAll(s, ColumnTokens(columns, comma)) == Some(u)
    ensures |u| < |s| && u == s[|s| - |u|..]
    ensures var last := s[|s| - |u| - 1];
            if comma then last == ',' else IsIdentifierChar(last) && !IsIdentifierChar(At(u, 0))
    decreases |columns|
  {
    hide TrimLeft, Behind, ColumnTokens;
    ColumnTokensUnfold(s, columns, comma);
    var t := TrimLeft(s);
    TrimLeftSuffix(s);
    var c := columns[0];
    var r := Behind(t, Name(c)).value;
    NameBehind(t, c, r);
    NameTaken(s, t, c, r);
    if |columns| > 1 || comma {
      TrimLeftSuffix(r);
      var q := TrimLeft(r)[1..];
      CommaTaken(s, r, q);
      if |columns| > 1 {
        ColumnsEnd(q, columns[1..], comma, u);
        assert s[|s| - |q|..][|q| - |u| - 1] == q[|q| - |u| - 1];
      }
    }
  }

  lemma NameTaken(s: string, t: string, c: string, r: string)
    requires |t| <= |s| && t == s[|s| - |t|..] && t == c + r && ValidName(c)
    ensures |r| < |s| && r == s[|s| - |r|..] && IsIdentifierChar(s[|s| - |r| - 1])
  {
    assert s[|s| - |r| - 1] == t[|c| - 1] == c[|c| - 1] && c[|c| - 1] in c;
  }

  lemma CommaTaken(s: string, r: string, q: string)
    requires |r| < |s| && r == s[|s| - |r|..] && At(TrimLeft(r), 0) == ',' && q == TrimLeft(r)[1..]
    ensures |q| < |s| && q == s[|s| - |q|..] && s[|s| - |q| - 1] == ','
  {
    hide TrimLeft;
    var v := TrimLeft(r);
    TrimLeftSuffix(r);
    assert v == s[|s| - |v|..];
    assert s[|s| - |v|] == v[0];
  }

  lemma BlanksInside(b: string, u: string)
    requires |u| <= |b| && u == b[|b| - |u|..]
    ensures |TrimLeft(u)| <= |u| && b[|b| - |TrimLeft(u)|..] == TrimLeft(u)
    ensures forall p | |b| - |u| <= p < |b| - |TrimLeft(u)| :: IsSpace(b[p])
  {
    hide TrimLeft;
    TrimLeftSuffix(u);
    var k := |b| - |u|;
    assert forall p | k <= p < |b| :: b[p] == u[p - k];
  }

  /** Two ends of a text that differ in leading blanks only are the same behind a character that is none. */
  lemma SameEnd(b: string, z: string, u: string)
    requires |z| < |b| && z == b[|b| - |z|..] && |u| < |b| && u == b[|b| - |u|..] && TrimLeft(z) == TrimLeft(u)
    requires !IsSpace(b[|b| - |z| - 1]) && !IsSpace(b[|b| - |u| - 1])
    ensures z == u
  {
    hide TrimLeft, IsSpace;
    BlanksInside(b, z);
    BlanksInside(b, u);
  }

  /** What is spelled is read. */
  lemma SpelledCutReads(a: string, cmd: Command, comma: bool, asc: bool)
    requires cmd.SelectFrom? && SpellsCut(a, cmd, comma, asc)
    ensures CutAtFrom(a) == Some(cmd)
  {
    hide TrimLeft, TrimRight, FindKeyword, SelectedColumns, ParseFrom, Behind, Spells, Roomy, FromTokens,
         SelectionTokens, Trim, SpelledFrom;
    var b := TrimLeft(a);
    var u := BehindAll(a, SelectionTokens(cmd.all, cmd.columns, comma)).value;
    var from := |b| - |TrimLeft(u)|;
    FromIsNext(u, cmd, asc);
    SelectionFound(a, b, u, cmd, comma);
    FrontReads(a, b, from, u, cmd, comma);
    SpellsTrimmed(u, FromTokens(cmd.table, cmd.where, cmd.orderBy, cmd.limit, asc));
    FromExactly(b[from..], cmd.all, cmd.columns, cmd);
  }

  lemma FrontReads(a: string, b: string, from: nat, u: string, cmd: Command, comma: bool)
    requires cmd.SelectFrom? && b == TrimLeft(a) && 0 < from < |b| && b[from..] == TrimLeft(u)
    requires |u| < |b| && u == b[|b| - |u|..] && !IsSpace(b[|b| - |u| - 1]) && !IsSpace(b[0]) && !IsSpace(b[from])
    requires Roomy(TrimRight(b[..from]))
    requires if cmd.all then cmd.columns == [] else 0 < |cmd.columns| <= 32
    requires BehindAll(a, SelectionTokens(cmd.all, cmd.columns, comma)) == Some(u)
    ensures SelectedColumns(Trim(b[..from])) == Some((cmd.all, cmd.columns))
  {
    hide TrimLeft, TrimRight, SelectedColumns, Behind, Roomy, SelectionTokens, Trim;
    var c, z := FrontOf(b, from);
    SameEnd(b, z, u);
    SelectionReads(a, b, c, u, cmd, comma);
  }

  lemma FromIsNext(u: string, cmd: Command, asc: bool)
    requires cmd.SelectFrom? && Spells(u, FromTokens(cmd.table, cmd.where, cmd.orderBy, cmd.limit, asc))
    ensures Behind(TrimLeft(u), Key("FROM")).Some?
  {
    hide Behind, BodyTokens, TrimLeft, OnlyEnd;
  }

  lemma SelectionFound(a: string, b: string, u: string, cmd: Command, comma: bool)
    requires cmd.SelectFrom? && (cmd.all || cmd.columns != []) && b == TrimLeft(a)
    requires BehindAll(a, SelectionTokens(cmd.all, cmd.columns, comma)) == Some(u)
    requires (forall c <- cmd.columns :: !SpelledFrom(c)) && Behind(TrimLeft(u), Key("FROM")).Some?
    ensures |u| < |b| && u == b[|b| - |u|..] && !IsSpace(b[|b| - |u| - 1])
    ensures var from := |b| - |TrimLeft(u)|;
            && 0 < from < |b| && b[from..] == TrimLeft(u) && !IsSpace(b[0]) && !IsSpace(b[from])
            && FindKeyword(b, 0, "FROM") == Some(from)
  {
    hide TrimLeft, FindKeyword, Behind, SpelledFrom, ColumnTokens;
    TrimLeftSuffix(a);
    FromIsKeyword(TrimLeft(u));
    if cmd.all {
      StarFound(a, b, u);
    } else {
      BehindTrimmed(a, ColumnTokens(cmd.columns, comma));
      ColumnsFound(b, u, cmd.columns, comma);
    }
    BlanksInside(b, u);
  }

  lemma StarFound(a: string, b: string, u: string)
    requires b == TrimLeft(a) && BehindAll(a, [Sign("*")]) == Some(u) && Behind(TrimLeft(u), Key("FROM")).Some?
    ensures |u| < |b| && u == b[|b| - |u|..] && !IsSpace(b[|b| - |u| - 1])
    ensures FindKeyword(b, 0, "FROM") == Some(|b| - |TrimLeft(u)|)
  {
    hide TrimLeft, FindKeyword, Behind;
    StarBehind(a, u);
    assert b[1..] == u;
    FindPastOther(b, 0);
    FindsHere(b, 1);
  }

  lemma ColumnsFound(b: string, u: string, columns: seq<string>, comma: bool)
    requires columns != [] && BehindAll(b, ColumnTokens(columns, comma)) == Some(u)
    requires (forall c <- columns :: !SpelledFrom(c)) && Behind(TrimLeft(u), Key("FROM")).Some?
    ensures |u| < |b| && u == b[|b| - |u|..] && !IsSpace(b[|b| - |u| - 1])
    ensures FindKeyword(b, 0, "FROM") == Some(|b| - |TrimLeft(u)|)
  {
    hide TrimLeft, FindKeyword, Behind, BehindAll, SpelledFrom, ColumnTokens;
    ColumnsEnd(b, columns, comma, u);
    assert b[0..] == b;
    FindsFrom(b, 0, columns, comma, u);
  }

  lemma SelectionReads(a: string, b: string, c: string, u: string, cmd: Command, comma: bool)
    requires cmd.SelectFrom? && b == TrimLeft(a) && b == c + u && c != [] && !IsSpace(c[|c| - 1]) && Roomy(c)
    requires if cmd.all then cmd.columns == [] else 0 < |cmd.columns| <= 32
    requires BehindAll(a, SelectionTokens(cmd.all, cmd.columns, comma)) == Some(u)
    ensures SelectedColumns(c) == Some((cmd.all, cmd.columns))
  {
    hide TrimLeft, Behind, ColumnTokens, ColumnList, Roomy;
    if cmd.all {
      StarBehind(a, u);
      SameFront(c, "*", u);
      StarSelected(c, []);
    } else {
      BehindTrimmed(a, ColumnTokens(cmd.columns, comma));
      ColumnsEnd(b, cmd.columns, comma, u);
      assert b[|b| - |u| - 1] == c[|c| - 1];
      ListExactly(c, 0, cmd.columns, u);
      ListSelected(c, cmd.columns);
    }
  }

  /** The SELECT that is read is the one that is spelled. */
  lemma CutExactly(a: string, cmd: Command)
    ensures CutAtFrom(a) == Some(cmd) <==> cmd.SelectFrom? && exists comma, asc :: SpellsCut(a, cmd, comma, asc)
  {
    hide CutAtFrom, SpellsCut;
    if CutAtFrom(a) == Some(cmd) {
      CutIsSpelled(a, cmd);
    }
    if cmd.SelectFrom? && exists comma, asc :: SpellsCut(a, cmd, comma, asc) {
      var comma, asc :| SpellsCut(a, cmd, comma, asc);
      SpelledCutReads(a, cmd, comma, asc);
    }
  }

  /** A SELECT, spelled behind any blanks. */
  ghost predicate SpellsSelect(s: string, cmd: Command)
    requires cmd.SelectFrom?
  {
    var a := Behind(TrimLeft(s), Key("SELECT"));
    a.Some? && exists comma, asc :: SpellsCut(a.value, cmd, comma, asc)
  }

  lemma SelectExactly(s: string, cmd: Command)
    ensures ParseSelect(s) == Some(cmd) <==> cmd.SelectFrom? && SpellsSelect(s, cmd)
  {
    hide SpellsCut, TrimLeft, FindKeyword, SelectedColumns, ParseFrom, Behind, Keyword, Trim;
    KeywordExactly(s, "SELECT");
    var a := Keyword(s, "SELECT");
    if a.Some? {
      CutExactly(a.value, cmd);
      assert ParseSelect(s) == CutAtFrom(a.value);
    }
  }
}
