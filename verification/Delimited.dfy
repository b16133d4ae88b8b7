/** CSV and TSV output: the writer quotes what it must, and a reader in the
    style of section 2 of RFC 4180, with LF record ends, recovers every field. */
module Delimited {
  import opened Prelude

  const LF: byte := 10
  const CR: byte := 13
  const QUOTE: byte := 34
  const COMMA: byte := 44
  const TAB: byte := 9
  const MINUS: byte := 45

  type Field = seq<byte>

  // ------------------------------------------------------------ the format

  predicate Special(b: byte, delimiter: byte) {
    b == delimiter || b == QUOTE || b == LF || b == CR
  }

  predicate NeedsQuotes(field: Field, delimiter: byte) {
    exists i :: 0 <= i < |field| && Special(field[i], delimiter)
  }

  /** Every quote doubled. */
  function Escaped(field: Field): seq<byte> {
    if field == [] then []
    else (if field[0] == QUOTE then [QUOTE, QUOTE] else [field[0]]) + Escaped(field[1..])
  }

  function FieldBytes(field: Field, delimiter: byte): seq<byte> {
    if NeedsQuotes(field, delimiter) then [QUOTE] + Escaped(field) + [QUOTE] else field
  }

  function FieldsBytes(fields: seq<Field>, delimiter: byte): seq<byte> {
    if fields == [] then []
    else if |fields| == 1 then FieldBytes(fields[0], delimiter)
    else FieldBytes(fields[0], delimiter) + [delimiter] + FieldsBytes(fields[1..], delimiter)
  }

  function RecordBytes(fields: seq<Field>, delimiter: byte): seq<byte> {
    FieldsBytes(fields, delimiter) + [LF]
  }

  function DocumentBytes(records: seq<seq<Field>>, delimiter: byte): seq<byte> {
    if records == [] then [] else RecordBytes(records[0], delimiter) + DocumentBytes(records[1..], delimiter)
  }

  function Quotes(field: Field): nat {
    if field == [] then 0 else (if field[0] == 34 then 1 else 0) + Quotes(field[1..])
  }

  lemma {:induction false} EscapedLength(field: Field)
    ensures |Escaped(field)| == |field| + Quotes(field)
    decreases |field|
  {
    if field != [] { EscapedLength(field[1..]); }
  }

  /** A field is written as it is exactly if it holds no delimiter, quote (34) or
      line end (10, 13).  Otherwise it stands in quotes and grows by one byte per
      quote inside. */
  lemma QuotedExactly(field: Field, delimiter: byte)
    ensures
      var bytes := FieldBytes(field, delimiter);
      if forall i :: 0 <= i < |field| ==>
           field[i] != delimiter && field[i] != 34 && field[i] != 10 && field[i] != 13
      then bytes == field
      else |bytes| == |field| + 2 + Quotes(field) && bytes[0] == 34 && bytes[|bytes| - 1] == 34
  {
    EscapedLength(field);
    if i :| 0 <= i < |field| && Special(field[i], delimiter) { assert NeedsQuotes(field, delimiter); }
  }

  // ------------------------------------------------------------ the writers

  class Sink {
    var bytes: seq<byte>

    constructor ()
      ensures bytes == []
    {
      bytes := [];
    }
  }

  method WriteDelimitedField(out: Sink, field: Field, delimiter: byte)
    modifies out
    ensures out.bytes == old(out.bytes) + FieldBytes(field, delimiter)
  {
    if !(exists i :: 0 <= i < |field| && Special(field[i], delimiter)) {
      out.bytes := out.bytes + field;
      return;
    }
    out.bytes := out.bytes + [QUOTE];
    ghost var open := out.bytes;
    assert field[0..] == field;
    for i := 0 to |field|
      invariant open + Escaped(field) == out.bytes + Escaped(field[i..])
    {
      assert field[i..][1..] == field[i + 1..];
      ghost var before := out.bytes;
      if field[i] == QUOTE {
        out.bytes := out.bytes + [QUOTE, QUOTE];
      } else {
        out.bytes := out.bytes + [field[i]];
      }
      assert out.bytes + Escaped(field[i + 1..]) == before + Escaped(field[i..]);
    }
    assert out.bytes + Escaped(field[|field|..]) == out.bytes;
    out.bytes := out.bytes + [QUOTE];
    assert out.bytes == old(out.bytes) + ([QUOTE] + Escaped(field) + [QUOTE]);
  }

  method WriteDelimitedRecord(out: Sink, fields: seq<Field>, delimiter: byte)
    modifies out
    ensures out.bytes == old(out.bytes) + RecordBytes(fields, delimiter)
  {
    hide FieldBytes;
    ghost var start := out.bytes;
    assert fields[0..] == fields;
    assert start + FieldsBytes(fields, delimiter) == start + [] + FieldsBytes(fields, delimiter);
    for index := 0 to |fields|
      invariant start + FieldsBytes(fields, delimiter) ==
                out.bytes + Separator(index, fields, delimiter) + FieldsBytes(fields[index..], delimiter)
    {
      hide FieldsBytes;
      ghost var before := out.bytes;
      ghost var tail := FieldsBytes(fields[index + 1..], delimiter);
      FieldsStep(fields, index, delimiter);
      if index > 0 { out.bytes := out.bytes + [delimiter]; }
      assert out.bytes == before + Separator(index, fields, delimiter);
      WriteDelimitedField(out, fields[index], delimiter);
      assert before + Separator(index, fields, delimiter) +
             (FieldBytes(fields[index], delimiter) + Separator(index + 1, fields, delimiter) + tail) ==
             out.bytes + Separator(index + 1, fields, delimiter) + tail;
    }
    assert out.bytes == start + FieldsBytes(fields, delimiter) by {
      assert FieldsBytes(fields[|fields|..], delimiter) == [];
    }
    out.bytes := out.bytes + [LF];
    assert out.bytes == start + RecordBytes(fields, delimiter);
  }

  /** What still stands between the fields written and the next one. */
  function Separator(index: nat, fields: seq<Field>, delimiter: byte): seq<byte> {
    if 0 < index < |fields| then [delimiter] else []
  }

  lemma FieldsStep(fields: seq<Field>, index: nat, delimiter: byte)
    requires index < |fields|
    ensures FieldsBytes(fields[index..], delimiter) ==
            FieldBytes(fields[index], delimiter) + Separator(index + 1, fields, delimiter) +
            FieldsBytes(fields[index + 1..], delimiter)
  {
    hide FieldBytes;
    assert fields[index..][1..] == fields[index + 1..];
  }

  // ------------------------------------------------------------- the reader

  /** Where the reader stands within a field. */
  datatype Place = Start | Plain | Quoted | QuoteSeen

  /** Reads the rest of a document, given the field, record and records read so
      far; malformed quoting is refused. */
  function Read(s: seq<byte>, delimiter: byte, place: Place, field: Field, record: seq<Field>,
                records: seq<seq<Field>>): Option<seq<seq<Field>>>
    decreases |s|
  {
    if s == [] then
      if place == Quoted then None
      else if place == Start && record == [] then Some(records)
      else Some(records + [record + [field]])
    else if place == Quoted then
      if s[0] == QUOTE then Read(s[1..], delimiter, QuoteSeen, field, record, records)
      else Read(s[1..], delimiter, Quoted, field + [s[0]], record, records)
    else if s[0] == delimiter then Read(s[1..], delimiter, Start, [], record + [field], records)
    else if s[0] == LF then Read(s[1..], delimiter, Start, [], [], records + [record + [field]])
    else if s[0] == QUOTE then
      match place
      case Start => Read(s[1..], delimiter, Quoted, field, record, records)
      case QuoteSeen => Read(s[1..], delimiter, Quoted, field + [QUOTE], record, records)
      case _ => None
    else if place == QuoteSeen then None
    else Read(s[1..], delimiter, Plain, field + [s[0]], record, records)
  }

  function ReadDocument(s: seq<byte>, delimiter: byte): Option<seq<seq<Field>>> {
    Read(s, delimiter, Start, [], [], [])
  }

  // ------------------------------------------------------------- round trip

  predicate IsDelimiter(b: byte) { b == COMMA || b == TAB }

  /** What the reader does at the end of a field. */
  function Ended(s: seq<byte>, delimiter: byte, end: byte, field: Field, record: seq<Field>,
                 records: seq<seq<Field>>): Option<seq<seq<Field>>>
  {
    if end == delimiter then Read(s, delimiter, Start, [], record + [field], records)
    else Read(s, delimiter, Start, [], [], records + [record + [field]])
  }

  lemma {:induction false} ReadPlain(f: Field, end: byte, rest: seq<byte>, delimiter: byte, place: Place,
                                     field: Field, record: seq<Field>, records: seq<seq<Field>>)
    requires IsDelimiter(delimiter) && (end == delimiter || end == LF)
    requires !NeedsQuotes(f, delimiter) && (place == Plain || place == Start)
    ensures Read(f + [end] + rest, delimiter, place, field, record, records) ==
            Ended(rest, delimiter, end, field + f, record, records)
    decreases |f|
  {
    var s := f + [end] + rest;
    if f == [] {
      assert s[1..] == rest;
      assert field + [] == field;
    } else {
      assert s[1..] == f[1..] + [end] + rest;
      assert !Special(f[0], delimiter);
      assert forall i :: 0 <= i < |f[1..]| ==> f[1..][i] == f[i + 1];
      ReadPlain(f[1..], end, rest, delimiter, Plain, field + [f[0]], record, records);
      assert field + [f[0]] + f[1..] == field + f;
    }
  }

  lemma {:induction false} ReadEscaped(f: Field, end: byte, rest: seq<byte>, delimiter: byte,
                                       field: Field, record: seq<Field>, records: seq<seq<Field>>)
    requires IsDelimiter(delimiter) && (end == delimiter || end == LF)
    ensures Read(Escaped(f) + [QUOTE, end] + rest, delimiter, Quoted, field, record, records) ==
            Ended(rest, delimiter, end, field + f, record, records)
    decreases |f|
  {
    var s := Escaped(f) + [QUOTE, end] + rest;
    if f == [] {
      assert s[0] == QUOTE && s[1..][0] == end && s[1..][1..] == rest;
      assert field + [] == field;
    } else {
      var t := Escaped(f[1..]) + [QUOTE, end] + rest;
      if f[0] == QUOTE {
        assert s[0] == QUOTE && s[1..][0] == QUOTE && s[1..][1..] == t;
      } else {
        assert s[0] == f[0] && s[1..] == t;
      }
      ReadEscaped(f[1..], end, rest, delimiter, field + [f[0]], record, records);
      assert field + [f[0]] + f[1..] == field + f;
    }
  }

  lemma EnterQuotes(t: seq<byte>, delimiter: byte, record: seq<Field>, records: seq<seq<Field>>)
    requires IsDelimiter(delimiter)
    ensures Read([QUOTE] + t, delimiter, Start, [], record, records) == Read(t, delimiter, Quoted, [], record, records)
  {
    assert ([QUOTE] + t)[1..] == t;
  }

  lemma EmptyLine(t: seq<byte>, delimiter: byte, records: seq<seq<Field>>)
    requires IsDelimiter(delimiter)
    ensures Read([LF] + t, delimiter, Start, [], [], records) == Read(t, delimiter, Start, [], [], records + [[[]]])
  {
    assert ([LF] + t)[1..] == t;
    var none: seq<Field> := [];
    assert none + [[]] == [[]];
  }

  /** One written field is read back, quoted or not. */
  lemma ReadField(f: Field, end: byte, rest: seq<byte>, delimiter: byte, record: seq<Field>, records: seq<seq<Field>>)
    requires IsDelimiter(delimiter) && (end == delimiter || end == LF)
    ensures Read(FieldBytes(f, delimiter) + [end] + rest, delimiter, Start, [], record, records) ==
            Ended(rest, delimiter, end, f, record, records)
  {
    hide Ended, Read, Escaped;
    assert [] + f == f;
    if NeedsQuotes(f, delimiter) {
      var t := Escaped(f) + [QUOTE, end] + rest;
      assert FieldBytes(f, delimiter) + [end] + rest == [QUOTE] + t;
      EnterQuotes(t, delimiter, record, records);
      ReadEscaped(f, end, rest, delimiter, [], record, records);
    } else {
      ReadPlain(f, end, rest, delimiter, Start, [], record, records);
    }
  }

  lemma {:induction false} ReadRecord(fields: seq<Field>, rest: seq<byte>, delimiter: byte, record: seq<Field>,
                                      records: seq<seq<Field>>)
    requires IsDelimiter(delimiter) && fields != []
    ensures Read(RecordBytes(fields, delimiter) + rest, delimiter, Start, [], record, records) ==
            Read(rest, delimiter, Start, [], [], records + [record + fields])
    decreases |fields|
  {
    hide Read, FieldBytes;
    if |fields| == 1 {
      ReadField(fields[0], LF, rest, delimiter, record, records);
      assert fields == [fields[0]];
    } else {
      var tail := RecordBytes(fields[1..], delimiter) + rest;
      ReadField(fields[0], delimiter, tail, delimiter, record, records);
      ReadRecord(fields[1..], rest, delimiter, record + [fields[0]], records);
      assert RecordBytes(fields, delimiter) + rest == FieldBytes(fields[0], delimiter) + [delimiter] + tail;
      assert record + [fields[0]] + fields[1..] == record + fields;
    }
  }

  lemma {:induction false} ReadRecords(todo: seq<seq<Field>>, delimiter: byte, done: seq<seq<Field>>)
    requires IsDelimiter(delimiter)
    requires forall i :: 0 <= i < |todo| ==> todo[i] != []
    ensures Read(DocumentBytes(todo, delimiter), delimiter, Start, [], [], done) == Some(done + todo)
    decreases |todo|
  {
    hide RecordBytes;
    if todo == [] {
      assert done + todo == done;
    } else {
      ReadRecord(todo[0], DocumentBytes(todo[1..], delimiter), delimiter, [], done);
      assert [] + todo[0] == todo[0];
      ReadRecords(todo[1..], delimiter, done + [todo[0]]);
      assert done + [todo[0]] + todo[1..] == done + todo;
    }
  }

  /** Records without columns are written as bare line ends, which read back as
      records of one empty field. */
  lemma {:induction false} ReadEmptyRecords(n: nat, delimiter: byte, done: seq<seq<Field>>)
    requires IsDelimiter(delimiter)
    ensures Read(DocumentBytes(seq(n, i => []), delimiter), delimiter, Start, [], [], done) ==
            Some(done + seq(n, i => [[]]))
    decreases n
  {
    var todo: seq<seq<Field>> := seq(n, i => []);
    var back: seq<seq<Field>> := seq(n, i => [[]]);
    if n == 0 {
      assert done + back == done;
    } else {
      assert todo[1..] == seq(n - 1, i => []);
      assert DocumentBytes(todo, delimiter) == [LF] + DocumentBytes(todo[1..], delimiter);
      EmptyLine(DocumentBytes(todo[1..], delimiter), delimiter, done);
      ReadEmptyRecords(n - 1, delimiter, done + [[[]]]);
      assert done + [[[]]] + seq(n - 1, i => [[]]) == done + back;
    }
  }

  // ----------------------------------------------------------- query results

  datatype ValueOut = Null | Bool(b: bool) | Integer(n: int) | Float(text: seq<byte>) | String(s: seq<byte>)

  type Row = seq<(Field, ValueOut)>

  /** The parts of a query result the writers use. */
  datatype QueryResult = QueryResult(columns: seq<Field>, rows: seq<Row>)

  function Columns(result: QueryResult): seq<Field> {
    if result.columns != [] then result.columns
    else if result.rows != [] then Keys(result.rows[0])
    else []
  }

  function Keys(row: Row): seq<Field> {
    seq(|row|, i requires 0 <= i < |row| => row[i].0)
  }

  /** The first value under a column. */
  function ValueAt(row: Row, column: Field): (value: Option<ValueOut>)
    ensures value.None? ==> forall i :: 0 <= i < |row| ==> row[i].0 != column
    ensures value.Some? ==>
              exists i :: 0 <= i < |row| && row[i] == (column, value.value) &&
                          forall j :: 0 <= j < i ==> row[j].0 != column
  {
    if row == [] then None
    else if row[0].0 == column then Some(row[0].1)
    else ValueAt(row[1..], column)
  }

  function Digits(n: nat): seq<byte> {
    if n < 10 then [48 + n] else Digits(n / 10) + [48 + n % 10]
  }

  /** The number a string of digits denotes. */
  function NumberOf(digits: seq<byte>): int {
    if digits == [] then 0 else 10 * NumberOf(digits[..|digits| - 1]) + digits[|digits| - 1] as int - 48
  }

  lemma {:induction false} DigitsDenote(n: nat)
    ensures NumberOf(Digits(n)) == n && Digits(n) != []
    ensures n > 0 ==> Digits(n)[0] != 48
    ensures forall i :: 0 <= i < |Digits(n)| ==> 48 <= Digits(n)[i] <= 57
  {
    if n >= 10 {
      DigitsDenote(n / 10);
      var d := Digits(n);
      assert d[..|d| - 1] == Digits(n / 10);
    } else {
      assert Digits(n)[..0] == [];
    }
  }

  function RawValue(value: ValueOut): Field {
    match value
    case Null => []
    case Bool(b) => if b then [116, 114, 117, 101] else [102, 97, 108, 115, 101]
    case Integer(n) => if n < 0 then [MINUS] + Digits(-n) else Digits(n)
    case Float(text) => text
    case String(s) => s
  }

  /** The number a text denotes: digits, after a minus sign if it has one. */
  function IntegerOf(text: Field): int {
    if text != [] && text[0] == MINUS then -NumberOf(text[1..]) else NumberOf(text)
  }

  /** An integer's text denotes it: a minus sign exactly if it is negative, then
      digits only, without a leading zero unless it is zero. */
  lemma IntegerDenotes(n: int)
    ensures
      var text := RawValue(Integer(n));
      var digits := if n < 0 then text[1..] else text;
      && IntegerOf(text) == n
      && (text[0] == MINUS <==> n < 0)
      && digits != [] && (forall i :: 0 <= i < |digits| ==> 48 <= digits[i] <= 57)
      && (n != 0 ==> digits[0] != 48)
  {
    var size := if n < 0 then -n else n;
    DigitsDenote(size);
    assert ([MINUS] + Digits(size))[1..] == Digits(size);
  }

  /** A word in ASCII. */
  function Ascii(word: string): (bytes: seq<byte>)
    requires forall i :: 0 <= i < |word| ==> word[i] as int < 128
    ensures |bytes| == |word|
  {
    seq(|word|, i requires 0 <= i < |word| => word[i] as int)
  }

  /** The text of a value denotes it: nothing for null, the word for a boolean, the
      number for an integer, and text for itself. */
  predicate Denotes(text: Field, value: ValueOut) {
    match value
    case Null => text == []
    case Bool(b) => text == Ascii(if b then "true" else "false")
    case Integer(n) => IntegerOf(text) == n && text != [] && (text[0] == MINUS <==> n < 0)
    case Float(printed) => text == printed
    case String(s) => text == s
  }

  lemma RawValueDenotes(value: ValueOut)
    ensures Denotes(RawValue(value), value)
  {
    match value
    case Integer(n) =>
      IntegerDenotes(n);
    case Bool(b) =>
      assert RawValue(value) == Ascii(if b then "true" else "false");
    case _ =>
  }

  function Cell(row: Row, column: Field): Field {
    match ValueAt(row, column)
    case None => []
    case Some(value) => RawValue(value)
  }

  function Cells(row: Row, columns: seq<Field>): seq<Field> {
    seq(|columns|, i requires 0 <= i < |columns| => Cell(row, columns[i]))
  }

  /** The header and the raw field strings, as records. */
  function Records(result: QueryResult): seq<seq<Field>> {
    var columns := Columns(result);
    [columns] + seq(|result.rows|, i requires 0 <= i < |result.rows| => Cells(result.rows[i], columns))
  }

  /** The columns: those of the result, or else the names in its first row. */
  predicate AreColumns(columns: seq<Field>, result: QueryResult) {
    if result.columns != [] then columns == result.columns
    else if result.rows != [] then
      |columns| == |result.rows[0]| && forall j :: 0 <= j < |columns| ==> columns[j] == result.rows[0][j].0
    else columns == []
  }

  /** The field for a column in a row: the text of the first value of that name,
      and nothing if there is none. */
  ghost predicate IsCell(text: Field, row: Row, column: Field) {
    if forall k :: 0 <= k < |row| ==> row[k].0 != column then text == []
    else exists k :: HasFirst(row, column, k) && Denotes(text, row[k].1)
  }

  predicate HasFirst(row: Row, column: Field, k: int) {
    0 <= k < |row| && row[k].0 == column && forall j :: 0 <= j < k ==> row[j].0 != column
  }

  /** What is written: the columns, then for each row in order the field of each
      column in order. */
  lemma RecordsExactly(result: QueryResult, i: nat, j: nat)
    ensures
      var records := Records(result);
      && |records| == |result.rows| + 1 && AreColumns(records[0], result)
      && (i < |result.rows| ==> |records[i + 1]| == |records[0]|)
      && (i < |result.rows| && j < |records[0]| ==> IsCell(records[i + 1][j], result.rows[i], records[0][j]))
  {
    hide ValueAt, RawValue, Denotes;
    var columns := Columns(result);
    if i < |result.rows| && j < |columns| {
      var row := result.rows[i];
      var value := ValueAt(row, columns[j]);
      if value.Some? {
        RawValueDenotes(value.value);
        var k :| 0 <= k < |row| && row[k] == (columns[j], value.value) &&
                 forall l :: 0 <= l < k ==> row[l].0 != columns[j];
        assert HasFirst(row, columns[j], k);
      }
    }
  }

  method FormatDelimited(result: QueryResult, delimiter: byte) returns (bytes: seq<byte>)
    ensures bytes == DocumentBytes(Records(result), delimiter)
  {
    hide RecordBytes, Cells, Columns;
    var columns := Columns(result);
    ghost var records := Records(result);
    var out := new Sink();
    WriteDelimitedRecord(out, columns, delimiter);
    assert [] + RecordBytes(columns, delimiter) == RecordBytes(columns, delimiter);
    assert records[1..][0..] == records[1..];
    for i := 0 to |result.rows|
      invariant DocumentBytes(records, delimiter) == out.bytes + DocumentBytes(records[i + 1..], delimiter)
    {
      ghost var before := out.bytes;
      var values := Cells(result.rows[i], columns);
      WriteDelimitedRecord(out, values, delimiter);
      assert records[i + 1..][0] == values && records[i + 1..][1..] == records[i + 2..];
      assert before + (RecordBytes(values, delimiter) + DocumentBytes(records[i + 2..], delimiter)) ==
             out.bytes + DocumentBytes(records[i + 2..], delimiter);
    }
    bytes := out.bytes;
  }

  /** The header and every raw field come back, whatever delimiters, quotes and
      line ends they contain, exactly when there is at least one column. */
  lemma RoundTripExactly(result: QueryResult, delimiter: byte)
    requires IsDelimiter(delimiter)
    ensures ReadDocument(DocumentBytes(Records(result), delimiter), delimiter) == Some(Records(result)) <==>
            Columns(result) != []
  {
    hide Read, DocumentBytes, Columns;
    var records := Records(result);
    if Columns(result) != [] {
      ReadRecords(records, delimiter, []);
      assert [] + records == records;
    } else {
      assert records == seq(|records|, i => []);
      ReadEmptyRecords(|records|, delimiter, []);
      assert ([] + seq(|records|, i => [[]]))[0] != records[0];
    }
  }
}
