/**
 The text format of member-hyeonok's data files: fields separated by tabs, rows by newlines,
 and backslash escapes for the three characters that would be misread.
 */
module EscapeCodec {
  import opened Options
  import opened CStrings
  import opened Readers

  type Row = seq<string>

  // ---------- writing ----------

  predicate Special(c: char) {
    c == '\\' || c == '\t' || c == '\n'
  }

  /** The letter that stands for a special character behind a backslash. */
  function Letter(c: char): char
    requires Special(c)
  {
    if c == '\t' then 't' else if c == '\n' then 'n' else '\\'
  }

  function EscapeChar(c: char): string {
    if Special(c) then ['\\', Letter(c)] else [c]
  }

  function Escape(s: string): string {
    if s == [] then [] else EscapeChar(s[0]) + Escape(s[1..])
  }

  /** The line of a row, without its newline. */
  function EncodeFields(row: Row): string {
    if row == [] then []
    else if |row| == 1 then Escape(row[0])
    else Escape(row[0]) + "\t" + EncodeFields(row[1..])
  }

  function EncodeRows(rows: seq<Row>): string {
    if rows == [] then [] else EncodeFields(rows[0]) + "\n" + EncodeRows(rows[1..])
  }

  // ---------- reading ----------

  predicate EndsField(c: char) {
    c == '\t' || c == '\n'
  }

  /** A field at the start of a line, and the rest of the line from its separator on. */
  function Field(s: string): Option<(string, string)> {
    if s == [] || EndsField(s[0]) then Some(("", s))
    else if s[0] != '\\' then Join([s[0]], Field(s[1..]))
    else if |s| == 1 || s[1] !in "tn\\" then None
    else Join([Unescaped(s[1])], Field(s[2..]))
  }

  function Unescaped(letter: char): char {
    if letter == 't' then '\t' else if letter == 'n' then '\n' else letter
  }

  /** So many fields with a tab between any two, and the rest of the line. */
  function Fields(s: string, n: nat): (r: Option<(Row, string)>)
    ensures r.Some? ==> |r.value.0| == n
    decreases n
  {
    if n == 0 then Some(([], s))
    else match Field(s)
      case None => None
      case Some((f, rest)) =>
        if n == 1 then Some(([f], rest))
        else if At(rest, 0) != '\t' then None
        else match Fields(rest[1..], n - 1)
          case None => None
          case Some((fs, end)) => Some(([f] + fs, end))
  }

  function ParseRow(line: string, n: nat): (r: Option<Row>)
    ensures r.Some? ==> |r.value| == n
  {
    match Fields(line, n)
    case None => None
    case Some((row, rest)) => if rest == [] || rest[0] == '\n' then Some(row) else None
  }

  /** The length of the first line, without its newline. */
  function LineEnd(text: string): (n: nat)
    ensures n <= |text| && '\n' !in text[..n] && (n < |text| ==> text[n] == '\n')
  {
    if text == [] || text[0] == '\n' then 0 else 1 + LineEnd(text[1..])
  }

  /** The rows that a query sees in a file, up to the first line it cannot read. */
  function Scan(text: string, columns: nat): (r: (seq<Row>, bool))
    decreases |text|
  {
    if text == [] then ([], true)
    else
      var n := LineEnd(text);
      var rest := if n < |text| then text[n + 1..] else [];
      if n == 0 then Scan(rest, columns)
      else match ParseRow(text[..n], columns)
        case None => ([], false)
        case Some(row) => var (rows, ok) := Scan(rest, columns); ([row] + rows, ok)
  }

  // ---------- the format ----------

  /** Three characters are written as a backslash and a letter, the others as themselves, one after the other. */
  lemma {:induction false} EscapeExactly(a: string, b: string)
    ensures Escape(a + b) == Escape(a) + Escape(b)
    ensures Escape("\t") == "\\t" && Escape("\n") == "\\n" && Escape("\\") == "\\\\"
    ensures |a| == 1 && a[0] != '\t' && a[0] != '\n' && a[0] != '\\' ==> Escape(a) == a
    decreases |a|
  {
    assert "\t"[1..] == [] && "\n"[1..] == [] && "\\"[1..] == [];
    if a == [] {
      assert a + b == b;
    } else {
      assert (a + b)[1..] == a[1..] + b;
      EscapeExactly(a[1..], b);
    }
  }

  /** The line of a row is its escaped fields with a tab between any two. */
  lemma {:induction false} FieldsExactly(a: Row, b: Row)
    requires a != [] && b != []
    ensures EncodeFields(a + b) == EncodeFields(a) + "\t" + EncodeFields(b)
    ensures |a| == 1 ==> EncodeFields(a) == Escape(a[0])
    decreases |a|
  {
    hide Escape;
    assert (a + b)[1..] == a[1..] + b && (a + b)[0] == a[0];
    if |a| > 1 {
      FieldsExactly(a[1..], b);
    } else {
      assert a[1..] + b == b;
    }
  }

  // ---------- one field ----------

  /** Escaped text holds no separator. */
  lemma {:induction false} EscapedIsPlain(s: string)
    ensures '\t' !in Escape(s) && '\n' !in Escape(s)
    ensures NulFree(s) ==> NulFree(Escape(s))
  {
    if s != [] {
      EscapedIsPlain(s[1..]);
    }
  }

  /** Reading undoes escaping, in front of a separator or the end of the line. */
  lemma {:induction false} FieldUndoesEscape(s: string, rest: string)
    requires rest == [] || EndsField(rest[0])
    ensures Field(Escape(s) + rest) == Some((s, rest))
  {
    if s == [] {
      assert Escape(s) + rest == rest;
    } else {
      FieldUndoesEscape(s[1..], rest);
      var c, tail := s[0], Escape(s[1..]) + rest;
      assert Escape(s) + rest == EscapeChar(c) + tail;
      EscapedCharReads(c, tail);
      assert [s[0]] + s[1..] == s;
    }
  }

  lemma EscapedCharReads(c: char, tail: string)
    ensures Field(EscapeChar(c) + tail) == Join([c], Field(tail))
  {
    var s := EscapeChar(c) + tail;
    if Special(c) {
      assert s[2..] == tail && Unescaped(Letter(c)) == c;
    } else {
      assert s[1..] == tail;
    }
  }

  /** Escaping undoes reading: each field has one spelling. */
  lemma {:induction false} EscapeUndoesField(s: string)
    requires Field(s).Some?
    ensures var (f, rest) := Field(s).value;
            Escape(f) + rest == s && (rest == [] || EndsField(rest[0]))
    decreases |s|
  {
    if s == [] || EndsField(s[0]) {
      assert Escape("") + s == s;
    } else if s[0] == '\\' {
      EscapeUndoesField(s[2..]);
      EscapeGrows(Unescaped(s[1]), Field(s[2..]).value.0, Field(s[2..]).value.1);
      assert s == ['\\', s[1]] + s[2..];
    } else {
      EscapeUndoesField(s[1..]);
      EscapeGrows(s[0], Field(s[1..]).value.0, Field(s[1..]).value.1);
      assert s == [s[0]] + s[1..];
    }
  }

  lemma EscapeGrows(c: char, f: string, rest: string)
    ensures Escape([c] + f) + rest == EscapeChar(c) + (Escape(f) + rest)
  {
    assert ([c] + f)[1..] == f;
  }

  // ---------- one row ----------

  lemma FieldThenTab(s: string, f: string, tail: string, n: nat)
    requires Field(s) == Some((f, "\t" + tail)) && n > 1
    ensures Fields(s, n)
         == match Fields(tail, n - 1)
            case None => None
            case Some((fs, end)) => Some(([f] + fs, end))
  {
    hide Field;
    assert ("\t" + tail)[1..] == tail;
  }

  lemma LastField(s: string, f: string, rest: string)
    requires Field(s) == Some((f, rest))
    ensures Fields(s, 1) == Some(([f], rest))
  {
  }

  lemma {:induction false} FieldsUndoEncode(row: Row, rest: string)
    requires row != [] && (rest == [] || rest[0] == '\n')
    ensures Fields(EncodeFields(row) + rest, |row|) == Some((row, rest))
  {
    hide Field, Fields, Escape;
    if |row| == 1 {
      FieldUndoesEscape(row[0], rest);
      LastField(EncodeFields(row) + rest, row[0], rest);
      assert [row[0]] == row;
    } else {
      var tail := EncodeFields(row[1..]) + rest;
      FieldsUndoEncode(row[1..], rest);
      FieldUndoesEscape(row[0], "\t" + tail);
      assert EncodeFields(row) + rest == Escape(row[0]) + ("\t" + tail);
      FieldThenTab(EncodeFields(row) + rest, row[0], tail, |row|);
      assert [row[0]] + row[1..] == row;
    }
  }

  lemma {:induction false} EncodeUndoesFields(s: string, n: nat)
    requires Fields(s, n).Some?
    ensures var (row, rest) := Fields(s, n).value; EncodeFields(row) + rest == s
    decreases n
  {
    hide Field, Escape;
    if n == 0 {
      assert EncodeFields([]) + s == s;
    } else {
      EscapeUndoesField(s);
      var (f, rest) := Field(s).value;
      if n > 1 {
        EncodeUndoesFields(rest[1..], n - 1);
        var (fs, end) := Fields(rest[1..], n - 1).value;
        assert ([f] + fs)[1..] == fs;
        assert rest == "\t" + rest[1..];
        assert Escape(f) + "\t" + EncodeFields(fs) + end == Escape(f) + ("\t" + (EncodeFields(fs) + end));
      }
    }
  }

  lemma {:induction false} EncodedRowIsOneLine(row: Row)
    ensures '\n' !in EncodeFields(row)
    ensures (forall v <- row :: NulFree(v)) ==> NulFree(EncodeFields(row))
  {
    if row != [] {
      EscapedIsPlain(row[0]);
      if |row| > 1 {
        EncodedRowIsOneLine(row[1..]);
      }
    }
  }

  /** Rows and accepted lines correspond one to one: reading and writing are inverse both ways. */
  lemma RowCodecIsBijection(line: string, row: Row, n: nat)
    requires '\n' !in line
    ensures ParseRow(line, n) == Some(row) <==> |row| == n && EncodeFields(row) == line
  {
    hide Fields, EncodeFields;
    if ParseRow(line, n) == Some(row) {
      EncodeUndoesFields(line, n);
      var rest := Fields(line, n).value.1;
      assert rest == line[|line| - |rest|..];
      assert EncodeFields(row) + [] == EncodeFields(row);
    }
    if |row| == n && EncodeFields(row) == line {
      EncodesAs(row, line);
    }
  }

  lemma EncodesAs(row: Row, line: string)
    requires EncodeFields(row) == line
    ensures ParseRow(line, |row|) == Some(row)
  {
    if row != [] {
      hide Fields, EncodeFields;
      FieldsUndoEncode(row, []);
      assert line + [] == line;
    }
  }

  /** Only a lone empty column leaves its line empty. */
  lemma EmptyLine(row: Row)
    ensures EncodeFields(row) == [] <==> row == [] || row == [""]
  {
    if |row| == 1 && row[0] != "" {
      assert Escape(row[0]) != [];
    }
  }

  // ---------- the whole file ----------

  /** The rows that a query can show: an empty line is skipped. */
  function Visible(rows: seq<Row>): seq<Row> {
    if rows == [] then []
    else (if EncodeFields(rows[0]) == [] then [] else [rows[0]]) + Visible(rows[1..])
  }

  ghost predicate Wide(rows: seq<Row>, columns: nat) {
    forall row <- rows :: |row| == columns
  }

  lemma {:induction false} LineEndIs(text: string, n: nat)
    requires n < |text| && '\n' !in text[..n] && text[n] == '\n'
    ensures LineEnd(text) == n
  {
    if n > 0 {
      assert text[..n][0] == text[0] && text[..n][1..] == text[1..][..n - 1];
      LineEndIs(text[1..], n - 1);
    }
  }

  lemma LineEndOf(line: string, rest: string)
    requires '\n' !in line
    ensures LineEnd(line + "\n" + rest) == |line| && (line + "\n" + rest)[..|line|] == line
    ensures (line + "\n" + rest)[|line| + 1..] == rest
  {
    LineEndIs(line + "\n" + rest, |line|);
  }

  lemma FirstLine(rows: seq<Row>, rest: string)
    requires rows != []
    ensures EncodeRows(rows) + rest == EncodeFields(rows[0]) + "\n" + (EncodeRows(rows[1..]) + rest)
  {
    hide EncodeFields;
  }

  /** Any whole lines in front of a line are read before it. */
  lemma {:induction false} ScanRows(rows: seq<Row>, rest: string, columns: nat)
    requires Wide(rows, columns)
    ensures Scan(EncodeRows(rows) + rest, columns)
         == (Visible(rows) + Scan(rest, columns).0, Scan(rest, columns).1)
  {
    hide ParseRow, EncodeFields, LineEnd, Scan;
    if rows == [] {
      assert EncodeRows(rows) + rest == rest && Visible(rows) + Scan(rest, columns).0 == Scan(rest, columns).0;
    } else {
      var row, tail := rows[0], EncodeRows(rows[1..]) + rest;
      var line := EncodeFields(row);
      ScanRows(rows[1..], rest, columns);
      FirstLine(rows, rest);
      hide EncodeRows;
      EncodedRowIsOneLine(row);
      EncodesAs(row, line);
      ScanLine(line, row, tail, columns);
      ShownFirst(row, Visible(rows[1..]), Scan(rest, columns).0);
    }
  }

  /** A line that cannot be read ends the query: the rows in front of it have been shown, and it fails. */
  lemma ScanStops(rows: seq<Row>, bad: string, rest: string, columns: nat)
    requires Wide(rows, columns) && '\n' !in bad && bad != [] && ParseRow(bad, columns) == None
    ensures Scan(EncodeRows(rows) + (bad + "\n" + rest), columns) == (Visible(rows), false)
  {
    hide ParseRow, EncodeRows, EncodeFields;
    ScanRows(rows, bad + "\n" + rest, columns);
    LineEndOf(bad, rest);
    assert Visible(rows) + [] == Visible(rows);
  }

  lemma ScanLine(line: string, row: Row, tail: string, columns: nat)
    requires '\n' !in line && ParseRow(line, columns) == Some(row)
    ensures var shown: seq<Row> := if line == [] then [] else [row];
            Scan(line + "\n" + tail, columns) == (shown + Scan(tail, columns).0, Scan(tail, columns).1)
  {
    hide ParseRow, LineEnd;
    LineEndOf(line, tail);
    assert [] + Scan(tail, columns).0 == Scan(tail, columns).0;
    assert line + "\n" + tail != [];
  }

  lemma ShownFirst(row: Row, shown: seq<Row>, rest: seq<Row>)
    ensures [] + (shown + rest) == ([] + shown) + rest && [row] + (shown + rest) == ([row] + shown) + rest
  {
  }

  lemma {:induction false} VisibleIsAll(rows: seq<Row>)
    ensures |Visible(rows)| <= |rows|
    ensures Visible(rows) == rows <==> forall row <- rows :: EncodeFields(row) != []
  {
    if rows != [] {
      VisibleIsAll(rows[1..]);
      assert forall row <- rows :: row == rows[0] || row in rows[1..];
      if EncodeFields(rows[0]) != [] {
        assert Visible(rows)[1..] == Visible(rows[1..]);
        assert rows == [rows[0]] + rows[1..];
      } else {
        assert rows[0] in rows;
      }
    }
  }

  /**
   A query shows exactly the rows that were written, whatever they hold, unless a table of one
   column holds an empty value: that line is taken for a blank one.
   */
  lemma FileReadsBackExactly(rows: seq<Row>, columns: nat)
    requires columns >= 1 && Wide(rows, columns)
    ensures Scan(EncodeRows(rows), columns).1
    ensures Scan(EncodeRows(rows), columns).0 == rows <==> columns >= 2 || [""] !in rows
  {
    hide EncodeFields;
    ScanRows(rows, "", columns);
    assert EncodeRows(rows) + "" == EncodeRows(rows);
    assert Visible(rows) + [] == Visible(rows);
    VisibleIsAll(rows);
    forall row <- rows ensures EncodeFields(row) == [] <==> row == [""] {
      EmptyLine(row);
    }
  }

  // ---------- the writers ----------

  method WriteEscapedText(file: string, text: string) returns (r: string)
    ensures r == file + Escape(text)
  {
    r := file;
    assert text[0..] == text;
    for i := 0 to |text|
      invariant r + Escape(text[i..]) == file + Escape(text)
    {
      hide Escape, EscapeChar;
      EscapeNext(r, text, i);
      if text[i] == '\\' {
        r := r + "\\\\";
      } else if text[i] == '\t' {
        r := r + "\\t";
      } else if text[i] == '\n' {
        r := r + "\\n";
      } else {
        r := r + [text[i]];
      }
    }
  }

  lemma EscapeNext(done: string, text: string, i: nat)
    requires i < |text|
    ensures done + Escape(text[i..]) == done + EscapeChar(text[i]) + Escape(text[i + 1..])
    ensures EscapeChar(text[i]) == if text[i] == '\\' then "\\\\" else if text[i] == '\t' then "\\t"
                                   else if text[i] == '\n' then "\\n" else [text[i]]
  {
    assert text[i..][1..] == text[i + 1..];
  }

  method AppendStorageRow(file: string, values: seq<string>) returns (r: string)
    ensures r == file + EncodeFields(values) + "\n"
  {
    hide Escape;
    r := file;
    assert values[0..] == values;
    for i := 0 to |values|
      invariant r + (if 0 < i < |values| then "\t" else "") + EncodeFields(values[i..]) == file + EncodeFields(values)
    {
      if i > 0 {
        r := r + "\t";
      }
      assert values[i..][1..] == values[i + 1..];
      r := WriteEscapedText(r, values[i]);
    }
    r := r + "\n";
  }

  // ---------- the readers ----------

  /** Twice the capacity, with the old contents in front. */
  method Reallocate(buffer: array<char>, capacity: nat) returns (r: array<char>)
    requires buffer.Length <= capacity
    ensures fresh(r) && r.Length == capacity && r[..buffer.Length] == buffer[..]
  {
    r := new char[capacity];
    for i := 0 to buffer.Length
      invariant r[..i] == buffer[..i]
    {
      r[i] := buffer[i];
    }
  }

  /** Read the field at the cursor into a buffer that doubles before it is full. */
  method ParseEscapedField(line: string, start: nat) returns (ok: bool, text: string, cursor: nat)
    requires NulFree(line) && start <= |line|
    ensures cursor <= |line|
    ensures (if ok then Some((text, line[cursor..])) else None) == Field(line[start..])
  {
    hide Field;
    var capacity, length := 16, 0;
    var buffer := new char[capacity];
    cursor := start;
    text := "";
    assert Join(buffer[..0], Field(line[start..])) == Field(line[start..]) by {
      if Field(line[start..]).Some? {
        assert buffer[..0] + Field(line[start..]).value.0 == Field(line[start..]).value.0;
      }
    }
    while At(line, cursor) != '\0' && At(line, cursor) != '\t' && At(line, cursor) != '\n'
      invariant start <= cursor <= |line|
      invariant fresh(buffer) && buffer.Length == capacity && length < capacity
      invariant Join(buffer[..length], Field(line[cursor..])) == Field(line[start..])
      decreases |line| - cursor
    {
      FieldStep(line, cursor);
      var current := line[cursor];
      cursor := cursor + 1;
      if current == '\\' {
        if At(line, cursor) == '\0' {
          return false, "", cursor;
        }
        current := line[cursor];
        cursor := cursor + 1;
        if current == 't' {
          current := '\t';
        } else if current == 'n' {
          current := '\n';
        } else if current == '\\' {
          current := '\\';
        } else {
          return false, "", cursor;
        }
      }
      ghost var done := buffer[..length];
      JoinGrows(done, current, Field(line[cursor..]));
      if length + 1 >= capacity {
        capacity := capacity * 2;
        var newBuffer := Reallocate(buffer, capacity);
        assert newBuffer[..length] == newBuffer[..buffer.Length][..length] == done;
        buffer := newBuffer;
      }
      buffer[length] := current;
      length := length + 1;
      assert buffer[..length] == done + [current];
    }
    FieldStops(line, cursor);
    buffer[length] := '\0';
    text := buffer[..length];
    assert text + "" == text;
    return true, text, cursor;
  }

  /** One step of Field at a character that does not end the field. */
  lemma FieldStep(line: string, i: nat)
    requires NulFree(line) && i < |line| && !EndsField(line[i])
    ensures Field(line[i..])
         == if line[i] != '\\' then Join([line[i]], Field(line[i + 1..]))
            else if i + 1 == |line| || line[i + 1] !in "tn\\" then None
            else Join([Unescaped(line[i + 1])], Field(line[i + 2..]))
    ensures i + 1 < |line| ==> At(line, i + 1) != '\0'
  {
    assert line[i..][1..] == line[i + 1..];
    if i + 1 < |line| {
      assert line[i..][2..] == line[i + 2..] && line[i..][1] == line[i + 1];
    }
  }

  lemma FieldStops(line: string, i: nat)
    requires i <= |line| && (i < |line| ==> EndsField(line[i]))
    ensures Field(line[i..]) == Some(("", line[i..]))
  {
  }

  /** One step of Fields. */
  lemma FieldsStep(s: string, n: nat, done: Row)
    requires n > 0
    ensures Join(done, Fields(s, n))
         == match Field(s)
            case None => None
            case Some((f, rest)) =>
              if n == 1 then Join(done + [f], Fields(rest, 0))
              else if At(rest, 0) != '\t' then None
              else Join(done + [f], Fields(rest[1..], n - 1))
  {
    hide Field;
    if Field(s).Some? {
      var (f, rest) := Field(s).value;
      if n == 1 {
        assert done + [f] + [] == done + [f];
      } else if At(rest, 0) == '\t' && Fields(rest[1..], n - 1).Some? {
        var fs := Fields(rest[1..], n - 1).value.0;
        assert done + ([f] + fs) == done + [f] + fs;
      }
    }
  }

  lemma FieldsEnd(done: Row, s: string, n: nat)
    ensures Join([], Fields(s, n)) == Fields(s, n)
    ensures Join(done, Fields(s, 0)) == Some((done, s))
  {
    assert Fields(s, n).Some? ==> [] + Fields(s, n).value.0 == Fields(s, n).value.0;
    assert done + [] == done;
  }

  /** Read a row into its array of fields. */
  method ParseStorageRow(line: string, expected: nat) returns (ok: bool, fields: array<string>)
    requires NulFree(line)
    ensures fresh(fields) && fields.Length == expected
    ensures (if ok then Some(fields[..]) else None) == ParseRow(line, expected)
  {
    hide Field, Fields, Join;
    fields := new string[expected](_ => "");
    var cursor: nat := 0;
    assert line[0..] == line && fields[..0] == [];
    FieldsEnd([], line, expected);
    for index := 0 to expected
      invariant cursor <= |line|
      invariant Join(fields[..index], Fields(line[cursor..], expected - index)) == Fields(line, expected)
    {
      ghost var done := fields[..index];
      FieldsStep(line[cursor..], expected - index, done);
      var found, text, next := ParseEscapedField(line, cursor);
      if !found {
        return false, fields;
      }
      fields[index] := text;
      cursor := next;
      assert fields[..index + 1] == done + [text];
      if index + 1 < expected {
        if At(line, cursor) != '\t' {
          return false, fields;
        }
        assert line[cursor..][1..] == line[cursor + 1..];
        cursor := cursor + 1;
      }
    }
    assert fields[..expected] == fields[..];
    FieldsEnd(fields[..], line[cursor..], expected);
    if At(line, cursor) != '\0' && At(line, cursor) != '\n' {
      return false, fields;
    }
    return true, fields;
  }

  // ---------- the query's pass over the file ----------

  /** The C string at a position of a buffer: up to the first NUL. */
  function StringAt(buffer: seq<char>, i: nat): string
    requires i <= |buffer|
    decreases |buffer| - i
  {
    if i < |buffer| && buffer[i] != '\0' then [buffer[i]] + StringAt(buffer, i + 1) else []
  }

  lemma {:induction false} StringUpTo(buffer: seq<char>, i: nat, end: nat)
    requires i <= end < |buffer| && buffer[end] == '\0' && NulFree(buffer[i..end])
    ensures StringAt(buffer, i) == buffer[i..end]
    decreases end - i
  {
    if i < end {
      assert buffer[i..end][0] == buffer[i] && buffer[i..end][1..] == buffer[i + 1..end];
      StringUpTo(buffer, i + 1, end);
    }
  }

  /** strchr for a newline, or the end of the string. */
  method FindLineEnd(data: array<char>, start: nat) returns (end: nat)
    requires start < data.Length && data[data.Length - 1] == '\0' && NulFree(data[..data.Length - 1])
    ensures start <= end < data.Length && end == start + LineEnd(data[start..data.Length - 1])
  {
    end := start;
    assert LineEnd(data[start..data.Length - 1]) == 0 + LineEnd(data[start..data.Length - 1]);
    while data[end] != '\n' && data[end] != '\0'
      invariant start <= end < data.Length
      invariant LineEnd(data[start..data.Length - 1]) == end - start + LineEnd(data[end..data.Length - 1])
      decreases data.Length - end
    {
      assert data[end..data.Length - 1][1..] == data[end + 1..data.Length - 1];
      end := end + 1;
    }
    if end < data.Length - 1 {
      assert data[..data.Length - 1][end] == data[end] != '\0';
    }
  }

  /**
   Show the rows of the file's text.  Each line is cut out by writing a NUL over its newline,
   which is put back afterwards.
   */
  method ShowRows(data: array<char>, columns: nat) returns (ok: bool, rows: seq<Row>)
    requires data.Length > 0 && data[data.Length - 1] == '\0' && NulFree(data[..data.Length - 1])
    modifies data
    ensures data[..] == old(data[..])
    ensures (rows, ok) == Scan(old(data[..data.Length - 1]), columns)
  {
    hide Scan, ParseRow, LineEnd, StringAt, AfterLine;
    ghost var text := data[..data.Length - 1];
    ghost var whole := data[..];
    var cursor := 0;
    ok, rows := true, [];
    assert text[0..] == text && rows + Scan(text, columns).0 == Scan(text, columns).0;
    while data[cursor] != '\0'
      invariant cursor < data.Length && ok && data[..] == whole
      invariant Scan(text, columns) == (rows + Scan(text[cursor..], columns).0, Scan(text[cursor..], columns).1)
      decreases data.Length - cursor
    {
      assert data[cursor..data.Length - 1] == text[cursor..];
      var lineStart := cursor;
      var lineEnd := FindLineEnd(data, cursor);
      var savedChar := data[lineEnd];
      assert savedChar == if lineEnd < |text| then '\n' else '\0';
      ScanStep(text, cursor, lineEnd, columns);
      if savedChar == '\n' {
        data[lineEnd] := '\0';
      }
      CutLine(data[..], whole, text, lineStart, lineEnd);
      if data[lineStart] != '\0' {
        var found, fields := ParseStorageRow(StringAt(data[..], lineStart), columns);
        if !found {
          ok := false;
        } else {
          assert rows + ([fields[..]] + Scan(AfterLine(text, lineEnd), columns).0)
              == rows + [fields[..]] + Scan(AfterLine(text, lineEnd), columns).0;
          rows := rows + [fields[..]];
        }
      }
      if savedChar == '\n' {
        data[lineEnd] := '\n';
        cursor := lineEnd + 1;
      } else {
        cursor := lineEnd;
      }
      assert data[..] == whole;
      if !ok {
        assert rows + [] == rows;
        break;
      }
    }
    if ok {
      ScanNothing(columns);
      assert text[cursor..] == [] && rows + [] == rows;
    }
  }

  lemma ScanNothing(columns: nat)
    ensures Scan([], columns) == ([], true)
  {
  }

  /** The text behind the line that ends at a position. */
  function AfterLine(text: string, end: nat): string {
    if end < |text| then text[end + 1..] else []
  }

  /** One line of Scan. */
  lemma ScanStep(text: string, start: nat, end: nat, columns: nat)
    requires start <= end <= |text| && start < |text| && end == start + LineEnd(text[start..])
    ensures Scan(text[start..], columns)
         == if start == end then Scan(AfterLine(text, end), columns)
            else match ParseRow(text[start..end], columns)
              case None => ([], false)
              case Some(row) =>
                ([row] + Scan(AfterLine(text, end), columns).0, Scan(AfterLine(text, end), columns).1)
  {
    hide ParseRow, LineEnd;
    var s := text[start..];
    assert s[..end - start] == text[start..end];
    if end < |text| {
      assert s[end - start + 1..] == text[end + 1..];
    }
  }

  /** With a NUL over its newline, the line is a C string of its own. */
  lemma CutLine(buffer: seq<char>, whole: seq<char>, text: string, start: nat, end: nat)
    requires |whole| == |text| + 1 && whole[..|text|] == text && whole[|text|] == '\0' && NulFree(text)
    requires start <= end <= |text| && buffer == whole[end := '\0']
    ensures StringAt(buffer, start) == text[start..end] && NulFree(text[start..end])
    ensures start < end ==> buffer[start] != '\0'
    ensures start == end ==> buffer[start] == '\0'
    ensures AfterLine(text, end) == text[if end < |text| then end + 1 else end..]
  {
    assert buffer[start..end] == whole[start..end];
    assert whole[..|text|][start..end] == whole[start..end];
    if start < end {
      assert buffer[start] == text[start];
    }
    StringUpTo(buffer, start, end);
  }
}
