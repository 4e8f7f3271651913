/**
 The text format of member-dragon's table files: one line per row, each value behind its
 length and a colon.  When a table can be read back, and when it cannot.
 */
module FileCodec {
  import opened Options
  import opened CStrings
  import opened ResultSets

  const MAX_ROW_LINE_LEN: nat := 16384
  const TWO_64: nat := 0x1_0000_0000_0000_0000

  datatype ErrorCode = ErrNone | ErrInvalidQuery | ErrTableNotFound | ErrColumnMismatch | ErrFileOpen

  datatype Result<+T> = Ok(value: T) | Err(error: ErrorCode)

  // ---------- writing ----------

  function Digit(d: nat): (c: char)
    requires d < 10
    ensures IsDigit(c) && DigitOf(c) == d
  {
    '0' + d as char
  }

  /** A number in decimal, without leading zeros. */
  function Decimal(n: nat): (s: string)
    ensures s != [] && forall c <- s :: IsDigit(c)
  {
    if n < 10 then [Digit(n)] else Decimal(n / 10) + [Digit(n % 10)]
  }

  function EncodeValue(v: string): string {
    Decimal(|v|) + ":" + v
  }

  function EncodeValues(row: Row): string {
    if row == [] then [] else EncodeValue(row[0]) + EncodeValues(row[1..])
  }

  function EncodeRow(row: Row): string {
    EncodeValues(row) + "\n"
  }

  function EncodeTable(rows: seq<Row>): string {
    if rows == [] then [] else EncodeRow(rows[0]) + EncodeTable(rows[1..])
  }

  // ---------- reading ----------

  /** The accumulated length, in the wrapping arithmetic of a 64-bit size. */
  function WrappedValue(s: string): nat
    requires forall c <- s :: IsDigit(c)
  {
    if s == [] then 0 else (10 * WrappedValue(s[..|s| - 1]) + DigitOf(s[|s| - 1])) % TWO_64
  }

  /** A length and its colon: the length and the position behind. */
  function ParseLength(line: string, pos: nat): (r: Option<(nat, nat)>)
    requires pos <= |line|
    ensures r.Some? ==> pos < r.value.1 <= |line|
  {
    var end := SkipDigits(line, pos);
    if end == pos || At(line, end) != ':' then None else Some((WrappedValue(line[pos..end]), end + 1))
  }

  function SkipNewlines(line: string, pos: nat): (r: nat)
    requires pos <= |line|
    ensures pos <= r <= |line|
    decreases |line| - pos
  {
    if pos < |line| && (line[pos] == '\r' || line[pos] == '\n') then SkipNewlines(line, pos + 1) else pos
  }

  function ParseValues(line: string, pos: nat, columns: nat): (r: Option<(Row, nat)>)
    requires pos <= |line|
    ensures r.Some? ==> pos <= r.value.1 <= |line| && |r.value.0| == columns
    decreases columns
  {
    if columns == 0 then Some(([], pos))
    else
      match ParseLength(line, pos)
      case None => None
      case Some((len, start)) =>
        if len >= MAX_VALUE_LEN || |line| - start < len then None
        else
          match ParseValues(line, start + len, columns - 1)
          case None => None
          case Some((rest, end)) => Some(([line[start..start + len]] + rest, end))
  }

  function ParseRow(line: string, columns: nat): Option<Row> {
    match ParseValues(line, 0, columns)
    case None => None
    case Some((row, end)) => if SkipNewlines(line, end) == |line| then Some(row) else None
  }

  /** Behind the first newline, or the end. */
  function LineEnd(text: string): (n: nat)
    ensures n <= |text|
    ensures text != [] ==> n > 0
  {
    if text == [] then 0 else if text[0] == '\n' then 1 else 1 + LineEnd(text[1..])
  }

  /** What one call reads into the line buffer. */
  function LineLength(text: string): (n: nat)
    ensures n <= |text|
    ensures text != [] ==> n > 0
  {
    if LineEnd(text) < MAX_ROW_LINE_LEN then LineEnd(text) else MAX_ROW_LINE_LEN - 1
  }

  /** Rows of a file, behind those already read. */
  function ReadRows(text: string, columns: nat, rows: seq<Row>): Result<seq<Row>>
    decreases |text|
  {
    if text == [] then Ok(rows)
    else if |rows| >= MAX_ROWS then Err(ErrInvalidQuery)
    else
      var n := LineLength(text);
      match ParseRow(text[..n], columns)
      case None => Err(ErrFileOpen)
      case Some(row) => ReadRows(text[n..], columns, rows + [row])
  }

  function ReadTable(text: string, columns: nat): Result<seq<Row>> {
    ReadRows(text, columns, [])
  }

  // ---------- one row ----------

  predicate ValueFits(v: string) {
    |v| < MAX_VALUE_LEN
  }

  lemma {:induction false} DecimalReads(n: nat)
    requires n < TWO_64
    ensures WrappedValue(Decimal(n)) == n
  {
    if n >= 10 {
      DecimalReads(n / 10);
      var s := Decimal(n);
      assert s[..|s| - 1] == Decimal(n / 10);
    } else {
      assert Decimal(n)[..0] == [];
    }
  }

  lemma {:induction false} SkipDigitsExactly(s: string, pos: nat, end: nat)
    requires pos <= end <= |s| && (forall j | pos <= j < end :: IsDigit(s[j])) && (end < |s| ==> !IsDigit(s[end]))
    ensures SkipDigits(s, pos) == end
    decreases end - pos
  {
    if pos < end {
      SkipDigitsExactly(s, pos + 1, end);
    }
  }

  /** A text that begins a number and its colon: digits, and the colon behind all of them. */
  lemma DigitsAhead(line: string, pos: nat, d: string, rest: string)
    requires pos <= |line| && line[pos..] <= d + ":" + rest && forall c <- d :: IsDigit(c)
    ensures forall j | pos <= j < pos + |d| && j < |line| :: IsDigit(line[j])
    ensures |line| > pos + |d| ==> line[pos + |d|] == ':' && line[pos..pos + |d|] == d
  {
    var tail := line[pos..];
    forall j | pos <= j < pos + |d| && j < |line| ensures line[j] == d[j - pos] {
      assert line[j] == tail[j - pos] == (d + ":" + rest)[j - pos];
    }
    if |line| > pos + |d| {
      assert line[pos + |d|] == tail[|d|] == (d + ":" + rest)[|d|];
    }
  }

  /** A row is written as the length of each value, a colon and the value, and a newline behind them all. */
  lemma RowExactly(v: string, row: Row)
    ensures EncodeRow([]) == "\n" && EncodeRow([v] + row) == EncodeValue(v) + EncodeRow(row)
    ensures EncodeValue(v) == Decimal(|v|) + ":" + v
  {
    NoValues();
    FirstValue(v, row);
    assert EncodeValue(v) == Decimal(|v|) + ":" + v;
    hide EncodeValue, EncodeValues, Decimal;
    Regrouped(EncodeValue(v), EncodeValues(row));
  }

  lemma Regrouped(a: string, b: string)
    ensures a + b + "\n" == a + (b + "\n")
  {
  }

  lemma FirstValue(v: string, row: Row)
    ensures EncodeValues([v] + row) == EncodeValue(v) + EncodeValues(row)
  {
    hide EncodeValue;
    assert ([v] + row)[1..] == row;
  }

  lemma NoValues()
    ensures EncodeValues([]) == []
  {
  }

  /** A line that is a prefix of the encoding, cut at or behind the colon. */
  lemma LengthReadsBack(line: string, pos: nat, v: string, rest: string)
    requires pos <= |line| && ValueFits(v) && line[pos..] <= Decimal(|v|) + ":" + rest
    ensures |line| > pos + |Decimal(|v|)| ==> ParseLength(line, pos) == Some((|v|, pos + |Decimal(|v|)| + 1))
    ensures |line| <= pos + |Decimal(|v|)| ==> ParseLength(line, pos) == None
  {
    hide Decimal, SkipDigits;
    var d := Decimal(|v|);
    DigitsAhead(line, pos, d, rest);
    if |line| > pos + |d| {
      SkipDigitsExactly(line, pos, pos + |d|);
      DecimalReads(|v|);
    } else {
      SkipDigitsExactly(line, pos, |line|);
    }
  }

  lemma CutValue(line: string, pos: nat, head: string, v: string, rest: string)
    requires pos + |head| + |v| <= |line| && line[pos..] <= head + (v + rest)
    ensures line[pos + |head|..pos + |head| + |v|] == v && line[pos + |head| + |v|..] <= rest
  {
    var tail, all := line[pos..], head + (v + rest);
    var a, b := |head|, |head| + |v|;
    assert tail[a..b] == all[a..b] == v;
    assert line[pos + a..pos + b] == tail[a..b];
    assert line[pos + b..] == tail[b..];
    assert tail[b..] <= all[b..] == rest;
  }

  lemma EncodedHead(row: Row, trailing: string)
    requires row != []
    ensures EncodeValues(row) + trailing
         == Decimal(|row[0]|) + ":" + (row[0] + (EncodeValues(row[1..]) + trailing))
  {
    hide Decimal;
  }

  /** One column of a line: read, or missing because the line is cut short. */
  lemma ValueReadsBack(line: string, pos: nat, v: string, rest: string)
    requires pos <= |line| && ValueFits(v) && line[pos..] <= Decimal(|v|) + ":" + (v + rest)
    ensures var start := pos + |Decimal(|v|)| + 1;
            var next := start + |v|;
            && (|line| < start ==> ParseLength(line, pos) == None)
            && (start <= |line| ==> ParseLength(line, pos) == Some((|v|, start)))
            && (next <= |line| ==> line[start..next] == v && line[next..] <= rest)
  {
    hide Decimal, ParseLength;
    LengthReadsBack(line, pos, v, v + rest);
    var head := Decimal(|v|) + ":";
    if pos + |head| + |v| <= |line| {
      CutValue(line, pos, head, v, rest);
    }
  }

  /** The values of a row, written at `pos`, read back; a line cut short of them is rejected. */
  lemma {:induction false} ValuesReadBack(line: string, pos: nat, row: Row, trailing: string)
    requires pos <= |line| && (forall v <- row :: ValueFits(v)) && line[pos..] <= EncodeValues(row) + trailing
    ensures var end := pos + |EncodeValues(row)|;
            if |line| < end then ParseValues(line, pos, |row|) == None
            else ParseValues(line, pos, |row|) == Some((row, end))
    decreases |row|
  {
    hide Decimal, ParseLength;
    if row != [] {
      var v := row[0];
      assert row == [v] + row[1..];
      EncodedHead(row, trailing);
      ValueReadsBack(line, pos, v, EncodeValues(row[1..]) + trailing);
      var next := pos + |Decimal(|v|)| + 1 + |v|;
      if next <= |line| {
        ValuesReadBack(line, next, row[1..], trailing);
      }
    }
  }

  lemma SkipOneNewline(line: string, pos: nat)
    requires pos + 1 == |line| && line[pos] == '\n'
    ensures SkipNewlines(line, pos) == |line|
  {
    assert SkipNewlines(line, pos + 1) == pos + 1;
  }

  /** Reading a row back gives the row, whatever characters its values hold. */
  lemma RowReadsBack(row: Row)
    requires forall v <- row :: ValueFits(v)
    ensures ParseRow(EncodeRow(row), |row|) == Some(row)
  {
    var line := EncodeRow(row);
    assert line[0..] == line;
    ValuesReadBack(line, 0, row, "\n");
    SkipOneNewline(line, |EncodeValues(row)|);
  }

  // ---------- which lines are rows ----------

  /** The length is that of all digits, but for multiples of 2^64. */
  lemma {:induction false} WrappedExactly(s: string)
    requires forall c <- s :: IsDigit(c)
    ensures WrappedValue(s) == DigitsValue(s) % TWO_64
  {
    if s != [] {
      var t := s[..|s| - 1];
      WrappedExactly(t);
      WrapsTwice(DigitsValue(t), DigitOf(s[|s| - 1]));
    }
  }

  lemma WrapsTwice(x: nat, d: nat)
    ensures (10 * (x % TWO_64) + d) % TWO_64 == (10 * x + d) % TWO_64
  {
    var q := x / TWO_64;
    assert 10 * x + d == 10 * (x % TWO_64) + d + TWO_64 * (10 * q);
    Multiples(10 * (x % TWO_64) + d, 10 * q);
  }

  lemma {:induction false} Multiples(x: nat, q: nat)
    ensures (x + TWO_64 * q) % TWO_64 == x % TWO_64
  {
    if q > 0 {
      Multiples(x, q - 1);
      assert x + TWO_64 * q == x + TWO_64 * (q - 1) + TWO_64;
    }
  }

  /** The line begins with k digits for the length of the value, a colon, and the value. */
  ghost predicate Heads(line: string, k: nat, v: string) {
    && 0 < k && k + 1 + |v| <= |line| && (forall c <- line[..k] :: IsDigit(c)) && line[k] == ':'
    && DigitsValue(line[..k]) % TWO_64 == |v| < 256 && line[k + 1..k + 1 + |v|] == v
  }

  /** The line is the values of the row, each behind its length, and nothing but line ends behind them. */
  ghost predicate Spells(line: string, row: Row)
    decreases |row|
  {
    if row == [] then LineEnds(line)
    else exists k: nat :: Heads(line, k, row[0]) && Spells(line[k + 1 + |row[0]|..], row[1..])
  }

  lemma LengthExactly(line: string, pos: nat, len: nat, start: nat)
    requires pos <= |line|
    ensures ParseLength(line, pos) == Some((len, start))
       <==> && pos + 1 < start <= |line| && (forall c <- line[pos..start - 1] :: IsDigit(c)) && line[start - 1] == ':'
            && DigitsValue(line[pos..start - 1]) % TWO_64 == len
  {
    hide WrappedValue, DigitsValue;
    var end := SkipDigits(line, pos);
    forall c | c in line[pos..end] ensures IsDigit(c) {
    }
    WrappedExactly(line[pos..end]);
    if pos < start <= |line| && (forall c <- line[pos..start - 1] :: IsDigit(c)) && line[start - 1] == ':' {
      assert forall j | pos <= j < start - 1 :: line[j] == line[pos..start - 1][j - pos];
      SkipDigitsExactly(line, pos, start - 1);
    }
  }

  /** One value is read where the line begins with it. */
  lemma HeadExactly(line: string, pos: nat, k: nat, v: string)
    requires pos <= |line|
    ensures Heads(line[pos..], k, v)
       <==> && ParseLength(line, pos) == Some((|v|, pos + k + 1)) && |v| < MAX_VALUE_LEN
            && pos + k + 1 + |v| <= |line| && line[pos + k + 1..pos + k + 1 + |v|] == v
  {
    hide ParseLength, DigitsValue;
    LengthExactly(line, pos, |v|, pos + k + 1);
    var tail := line[pos..];
    if pos + k + 1 + |v| <= |line| {
      assert tail[..k] == line[pos..pos + k] && tail[k] == line[pos + k];
      assert tail[k + 1..k + 1 + |v|] == line[pos + k + 1..pos + k + 1 + |v|];
    }
  }

  predicate LineEnds(s: string) {
    forall i | 0 <= i < |s| :: s[i] == '\r' || s[i] == '\n'
  }

  lemma {:induction false} LineEndsExactly(line: string, pos: nat)
    requires pos <= |line|
    ensures SkipNewlines(line, pos) == |line| <==> LineEnds(line[pos..])
    decreases |line| - pos
  {
    if pos < |line| {
      LineEndsExactly(line, pos + 1);
      assert line[pos..][1..] == line[pos + 1..];
      FirstAndRest(line[pos..]);
    }
  }

  lemma FirstAndRest(s: string)
    requires s != []
    ensures LineEnds(s) <==> (s[0] == '\r' || s[0] == '\n') && LineEnds(s[1..])
  {
    assert forall i | 0 < i < |s| :: s[i] == s[1..][i - 1];
  }

  lemma SpellsFirst(line: string, pos: nat, row: Row)
    requires pos <= |line| && row != []
    ensures Spells(line[pos..], row)
       <==> match ParseLength(line, pos)
            case None => false
            case Some((len, start)) =>
              && len == |row[0]| < MAX_VALUE_LEN && start + len <= |line| && line[start..start + len] == row[0]
              && Spells(line[start + len..], row[1..])
  {
    hide Heads, ParseLength;
    var v, tail := row[0], line[pos..];
    forall k: nat | Heads(tail, k, v)
      ensures pos + k + 1 + |v| <= |line| && tail[k + 1 + |v|..] == line[pos + k + 1 + |v|..]
      ensures ParseLength(line, pos) == Some((|v|, pos + k + 1)) && |v| < MAX_VALUE_LEN
      ensures line[pos + k + 1..pos + k + 1 + |v|] == v
    {
      HeadExactly(line, pos, k, v);
    }
    if ParseLength(line, pos).Some? {
      var (len, start) := ParseLength(line, pos).value;
      if len == |v| && start + len <= |line| {
        LengthExactly(line, pos, len, start);
        HeadExactly(line, pos, start - pos - 1, v);
      }
    }
  }

  /** The values from here on are those of the row, and only line ends stand behind them. */
  predicate Reads(line: string, pos: nat, row: Row)
    requires pos <= |line|
  {
    var r := ParseValues(line, pos, |row|);
    r.Some? && r.value.0 == row && SkipNewlines(line, r.value.1) == |line|
  }

  lemma ReadsFirst(line: string, pos: nat, row: Row)
    requires pos <= |line| && row != []
    ensures Reads(line, pos, row)
       <==> match ParseLength(line, pos)
            case None => false
            case Some((len, start)) =>
              && len == |row[0]| < MAX_VALUE_LEN && start + len <= |line| && line[start..start + len] == row[0]
              && Reads(line, start + len, row[1..])
  {
    hide ParseLength, SkipNewlines;
    assert row == [row[0]] + row[1..];
    if ParseLength(line, pos).Some? {
      var (len, start) := ParseLength(line, pos).value;
      if start + len <= |line| && ParseValues(line, start + len, |row| - 1).Some? {
        var (rest, end) := ParseValues(line, start + len, |row| - 1).value;
        SameRows(line[start..start + len], rest, row);
      }
    }
  }

  lemma SameRows(v: string, rest: Row, row: Row)
    requires row != []
    ensures [v] + rest == row <==> v == row[0] && rest == row[1..]
  {
    assert row == [row[0]] + row[1..];
    assert ([v] + rest)[0] == v && ([v] + rest)[1..] == rest;
  }

  lemma NothingLeft(line: string, pos: nat)
    requires pos <= |line|
    ensures Spells(line[pos..], []) <==> Reads(line, pos, [])
  {
    hide SkipNewlines, LineEnds;
    LineEndsExactly(line, pos);
  }

  lemma {:induction false} ValuesExactly(line: string, pos: nat, row: Row)
    requires pos <= |line|
    ensures Spells(line[pos..], row) <==> Reads(line, pos, row)
    decreases |row|
  {
    hide Spells, Reads, ParseLength;
    if row == [] {
      NothingLeft(line, pos);
    } else {
      SpellsFirst(line, pos, row);
      ReadsFirst(line, pos, row);
      if ParseLength(line, pos).Some? {
        var (len, start) := ParseLength(line, pos).value;
        if start + len <= |line| {
          ValuesExactly(line, start + len, row[1..]);
        }
      }
    }
  }

  /** A line is read as a row exactly if it spells the row, also one that the program did not write. */
  lemma ParseRowExactly(line: string, row: Row)
    ensures ParseRow(line, |row|) == Some(row) <==> Spells(line, row)
  {
    hide Spells, ParseValues, SkipNewlines;
    assert line[0..] == line;
    ValuesExactly(line, 0, row);
  }

  // ---------- which files are tables ----------

  /** What one fgets call takes: through a newline, or as much as the buffer holds, or all that is left. */
  ghost predicate Chunk(text: string, n: nat) {
    && 0 < n <= |text| && n < 16384 && '\n' !in text[..n - 1]
    && (text[n - 1] == '\n' || n == 16383 || n == |text|)
  }

  /** Every chunk of the text spells a row. */
  ghost predicate SpellsTable(text: string, rows: seq<Row>)
    decreases |rows|
  {
    if rows == [] then text == []
    else exists n: nat :: Chunk(text, n) && Spells(text[..n], rows[0]) && SpellsTable(text[n..], rows[1..])
  }

  lemma {:induction false} FirstLineIs(text: string)
    ensures var n := LineEnd(text);
            text != [] ==> 0 < n && '\n' !in text[..n - 1] && (text[n - 1] == '\n' || n == |text|)
  {
    if text != [] && text[0] != '\n' && text[1..] != [] {
      var n := LineEnd(text);
      FirstLineIs(text[1..]);
      assert text[..n - 1] == [text[0]] + text[1..][..n - 2] && text[n - 1] == text[1..][n - 2];
    }
  }

  lemma ChunkExactly(text: string, n: nat)
    requires text != []
    ensures Chunk(text, n) <==> n == LineLength(text)
  {
    hide LineEnd;
    var end := LineEnd(text);
    FirstLineIs(text);
    if n < end <= |text| && 0 < n {
      assert text[n - 1] == text[..end - 1][n - 1] && text[n - 1] in text[..end - 1];
      assert text[..n - 1] == text[..end - 1][..n - 1];
    }
    if end < n <= |text| {
      assert text[..n - 1][end - 1] == text[end - 1];
    }
  }

  lemma SpellsTableFirst(text: string, rows: seq<Row>)
    requires text != [] && rows != []
    ensures var n := LineLength(text);
            SpellsTable(text, rows) <==> Spells(text[..n], rows[0]) && SpellsTable(text[n..], rows[1..])
  {
    hide Chunk, LineLength, Spells;
    ChunkExactly(text, LineLength(text));
    forall n: nat | Chunk(text, n) ensures n == LineLength(text) {
      ChunkExactly(text, n);
    }
  }

  lemma NothingSpelled(rows: seq<Row>)
    ensures SpellsTable([], rows) <==> rows == []
    ensures forall text :: SpellsTable(text, []) ==> text == []
  {
    hide Spells;
  }

  lemma {:induction false} ReadRowsExactly(text: string, columns: nat, done: seq<Row>, rows: seq<Row>)
    requires |done| <= MAX_ROWS
    ensures ReadRows(text, columns, done) == Ok(done + rows)
       <==> SpellsTable(text, rows) && |done| + |rows| <= MAX_ROWS && forall row <- rows :: |row| == columns
    decreases |text|
  {
    hide ParseRow, LineLength, SpellsTable, Spells;
    NothingSpelled(rows);
    if text == [] {
      assert done + rows == done <==> rows == [];
    } else if |done| < MAX_ROWS {
      var n := LineLength(text);
      if rows != [] {
        SpellsTableFirst(text, rows);
        ParseRowExactly(text[..n], rows[0]);
        assert rows == [rows[0]] + rows[1..];
        assert done + rows == done + [rows[0]] + rows[1..];
        ReadRowsExactly(text[n..], columns, done + [rows[0]], rows[1..]);
      }
      if ParseRow(text[..n], columns).Some? {
        var row := ParseRow(text[..n], columns).value;
        ParseRowShape(text[..n], columns);
        ReadsBehind(text[n..], columns, done + [row]);
        NextRow(done, row, rows);
      }
    } else if rows != [] {
      assert |done + rows| > MAX_ROWS;
    }
  }

  lemma ParseRowShape(line: string, columns: nat)
    ensures ParseRow(line, columns).Some? ==> |ParseRow(line, columns).value| == columns
  {
  }

  lemma NextRow(done: seq<Row>, row: Row, rows: seq<Row>)
    ensures done + [row] <= done + rows ==> rows != [] && rows[0] == row
  {
    if done + [row] <= done + rows {
      assert (done + rows)[..|done| + 1][|done|] == row;
    }
  }

  /** Rows read are kept. */
  lemma {:induction false} ReadsBehind(text: string, columns: nat, done: seq<Row>)
    ensures ReadRows(text, columns, done).Ok? ==> done <= ReadRows(text, columns, done).value
    decreases |text|
  {
    hide ParseRow, LineLength;
    if text != [] && ParseRow(text[..LineLength(text)], columns).Some? {
      ReadsBehind(text[LineLength(text)..], columns, done + [ParseRow(text[..LineLength(text)], columns).value]);
    }
  }

  /** A file is read as these rows exactly if its chunks spell them and they are at most 1024. */
  lemma ReadTableExactly(text: string, columns: nat, rows: seq<Row>)
    ensures ReadTable(text, columns) == Ok(rows)
       <==> SpellsTable(text, rows) && |rows| <= 1024 && forall row <- rows :: |row| == columns
  {
    hide SpellsTable, ReadRows;
    ReadRowsExactly(text, columns, [], rows);
    assert [] + rows == rows;
  }

  // ---------- a whole table ----------

  predicate LineSafe(row: Row) {
    forall v <- row :: '\n' !in v
  }

  /** The shape of the rows of a table: values and columns that fit their fixed arrays. */
  ghost predicate WellShaped(rows: seq<Row>, columns: nat) {
    forall row <- rows :: |row| == columns && forall v <- row :: ValueFits(v)
  }

  lemma {:induction false} DecimalIsShort(n: nat)
    requires n < 1000
    ensures |Decimal(n)| <= 3
  {
    if n >= 10 {
      if n / 10 >= 10 {
        assert Decimal(n / 10) == Decimal(n / 100) + [Digit(n / 10 % 10)];
      }
    }
  }

  /** An encoded row of 32 columns has at most 8289 characters. */
  lemma {:induction false} ValuesLength(row: Row)
    requires forall v <- row :: ValueFits(v)
    ensures |EncodeValues(row)| <= 259 * |row|
  {
    if row != [] {
      assert row[0] in row;
      DecimalIsShort(|row[0]|);
      ValuesLength(row[1..]);
    }
  }

  lemma {:induction false} ValuesNewline(row: Row)
    ensures '\n' in EncodeValues(row) <==> !LineSafe(row)
  {
    hide Decimal;
    if row != [] {
      ValuesNewline(row[1..]);
      assert row == [row[0]] + row[1..];
      assert '\n' !in Decimal(|row[0]|) by {
        assert forall c <- Decimal(|row[0]|) :: IsDigit(c);
      }
    }
  }

  lemma {:induction false} LineEndIs(text: string, p: nat)
    requires p < |text| && text[p] == '\n' && forall j | 0 <= j < p :: text[j] != '\n'
    ensures LineEnd(text) == p + 1
  {
    if p > 0 {
      assert text[0] != '\n';
      LineEndIs(text[1..], p - 1);
    }
  }

  /** The line of a safe row is all of it. */
  lemma SafeLine(row: Row, rest: string)
    requires LineSafe(row) && (forall v <- row :: ValueFits(v)) && |row| <= MAX_COLUMNS
    ensures LineLength(EncodeRow(row) + rest) == |EncodeRow(row)|
  {
    hide EncodeValues;
    ValuesNewline(row);
    ValuesLength(row);
    LineEndIs(EncodeRow(row) + rest, |EncodeValues(row)|);
  }

  /** Reading a safe row moves on to what is behind it. */
  lemma ReadSafeRow(row: Row, rest: string, columns: nat, done: seq<Row>)
    requires LineSafe(row) && (forall v <- row :: ValueFits(v)) && |row| == columns <= MAX_COLUMNS
    ensures ReadRows(EncodeRow(row) + rest, columns, done)
         == if |done| >= MAX_ROWS then Err(ErrInvalidQuery) else ReadRows(rest, columns, done + [row])
  {
    hide EncodeRow, ParseRow, LineLength;
    SafeLine(row, rest);
    RowReadsBack(row);
    var text := EncodeRow(row) + rest;
    assert text[..|EncodeRow(row)|] == EncodeRow(row) && text[|EncodeRow(row)|..] == rest;
    EncodedNotEmpty(row);
  }

  lemma EncodedNotEmpty(row: Row)
    ensures EncodeRow(row) != []
  {
  }

  lemma {:induction false} ReadSafeRows(rows: seq<Row>, rest: string, columns: nat, done: seq<Row>)
    requires columns <= MAX_COLUMNS && WellShaped(rows, columns) && forall row <- rows :: LineSafe(row)
    requires |done| + |rows| <= MAX_ROWS
    ensures ReadRows(EncodeTable(rows) + rest, columns, done) == ReadRows(rest, columns, done + rows)
    decreases |rows|
  {
    hide EncodeRow, ReadRows;
    if rows == [] {
      assert EncodeTable(rows) + rest == rest && done + rows == done;
    } else {
      assert rows == [rows[0]] + rows[1..];
      assert EncodeTable(rows) + rest == EncodeRow(rows[0]) + (EncodeTable(rows[1..]) + rest);
      ReadSafeRow(rows[0], EncodeTable(rows[1..]) + rest, columns, done);
      ReadSafeRows(rows[1..], rest, columns, done + [rows[0]]);
      assert done + [rows[0]] + rows[1..] == done + rows;
    }
  }

  lemma {:induction false} ReadAtMostMax(text: string, columns: nat, done: seq<Row>)
    requires |done| <= MAX_ROWS && ReadRows(text, columns, done).Ok?
    ensures done <= ReadRows(text, columns, done).value && |ReadRows(text, columns, done).value| <= MAX_ROWS
    decreases |text|
  {
    hide ParseRow, LineLength;
    if text != [] {
      var n := LineLength(text);
      ReadAtMostMax(text[n..], columns, done + [ParseRow(text[..n], columns).value]);
    }
  }

  /** The first newline of a string that has one. */
  lemma FirstNewline(s: string) returns (p: nat)
    requires '\n' in s
    ensures p < |s| && s[p] == '\n' && forall j | 0 <= j < p :: s[j] != '\n'
  {
    p := 0;
    while s[p] != '\n'
      invariant p < |s| && forall j | 0 <= j < p :: s[j] != '\n'
      invariant '\n' in s[p..]
      decreases |s| - p
    {
      assert s[p..] == [s[p]] + s[p + 1..];
      p := p + 1;
    }
  }

  lemma BareNewlineFails(rest: string, columns: nat, done: seq<Row>)
    requires columns > 0
    ensures ReadRows("\n" + rest, columns, done).Err?
  {
    var text := "\n" + rest;
    LineEndIs(text, 0);
    assert text[..1] == "\n";
    assert ParseLength("\n", 0) == None;
    assert ParseValues("\n", 0, columns) == None;
  }

  /** A row with a newline in a value cannot be read: its line is cut, or a bare newline is left over. */
  lemma UnsafeRowFails(row: Row, rest: string, columns: nat, done: seq<Row>)
    requires !LineSafe(row) && (forall v <- row :: ValueFits(v)) && 0 < |row| == columns <= MAX_COLUMNS
    ensures ReadRows(EncodeRow(row) + rest, columns, done).Err?
  {
    hide EncodeValues, ParseValues, LineEnd;
    var values := EncodeValues(row);
    var text := EncodeRow(row) + rest;
    ValuesNewline(row);
    ValuesLength(row);
    var p := FirstNewline(values);
    assert forall j | 0 <= j <= p :: text[j] == values[j];
    LineEndIs(text, p);
    var line := text[..p + 1];
    assert LineLength(text) == p + 1;
    assert line[0..] <= values + "\n";
    ValuesReadBack(line, 0, row, "\n");
    if |line| == |values| {
      assert text[p + 1..] == "\n" + rest;
      forall r: Row ensures ReadRows(text[p + 1..], columns, done + [r]).Err? {
        BareNewlineFails(rest, columns, done + [r]);
      }
    }
  }

  lemma TableFirst(row: Row, rest: seq<Row>)
    ensures EncodeTable([row] + rest) == EncodeRow(row) + EncodeTable(rest)
  {
    assert ([row] + rest)[1..] == rest;
  }

  lemma {:induction false} TableConcat(a: seq<Row>, b: seq<Row>)
    ensures EncodeTable(a + b) == EncodeTable(a) + EncodeTable(b)
  {
    hide EncodeRow;
    if a == [] {
      assert a + b == b;
    } else {
      assert (a + b)[1..] == a[1..] + b;
      TableConcat(a[1..], b);
    }
  }

  /** More rows than the buffer has are rejected. */
  lemma {:induction false} OverfullTableFails(rows: seq<Row>, columns: nat, done: seq<Row>)
    requires columns <= MAX_COLUMNS && WellShaped(rows, columns) && forall row <- rows :: LineSafe(row)
    requires |done| <= MAX_ROWS < |done| + |rows|
    ensures ReadRows(EncodeTable(rows), columns, done) == Err(ErrInvalidQuery)
    decreases |rows|
  {
    hide LineSafe, EncodeRow, ReadRows, ValueFits;
    ReadSafeRow(rows[0], EncodeTable(rows[1..]), columns, done);
    if |done| < MAX_ROWS {
      OverfullTableFails(rows[1..], columns, done + [rows[0]]);
    }
  }

  /** A newline in any value makes the whole table unreadable, whatever was read before it. */
  lemma {:induction false} UnsafeTableFails(rows: seq<Row>, columns: nat, done: seq<Row>)
    requires 0 < columns <= MAX_COLUMNS && WellShaped(rows, columns) && exists row <- rows :: !LineSafe(row)
    ensures ReadRows(EncodeTable(rows), columns, done).Err?
    decreases |rows|
  {
    hide LineSafe, EncodeRow, ReadRows, ValueFits;
    var rest := EncodeTable(rows[1..]);
    if LineSafe(rows[0]) {
      ReadSafeRow(rows[0], rest, columns, done);
      assert rows == [rows[0]] + rows[1..];
      UnsafeTableFails(rows[1..], columns, done + [rows[0]]);
    } else {
      UnsafeRowFails(rows[0], rest, columns, done);
    }
  }

  /**
   A written table can be read back exactly when it has at most 1024 rows and no value
   contains a newline.
   */
  lemma TableReadsBackExactly(rows: seq<Row>, columns: nat)
    requires 0 < columns <= MAX_COLUMNS && WellShaped(rows, columns)
    ensures ReadTable(EncodeTable(rows), columns) == Ok(rows)
       <==> |rows| <= MAX_ROWS && forall row <- rows :: LineSafe(row)
  {
    hide LineSafe, EncodeTable, ReadRows;
    if |rows| <= MAX_ROWS {
      if forall row <- rows :: LineSafe(row) {
        ReadSafeRows(rows, [], columns, []);
        assert EncodeTable(rows) + [] == EncodeTable(rows) && [] + rows == rows;
        ReadNothing(columns, rows);
      } else {
        UnsafeTableFails(rows, columns, []);
      }
    } else if ReadTable(EncodeTable(rows), columns).Ok? {
      ReadAtMostMax(EncodeTable(rows), columns, []);
    }
  }

  lemma ReadNothing(columns: nat, rows: seq<Row>)
    ensures ReadRows([], columns, rows) == Ok(rows)
  {
  }
}
