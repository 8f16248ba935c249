/** CSV export and import of contacts (services/api-gateway/src/csv.ts); quoting as in section 2 of RFC 4180. */
module Csv {
  import opened Options
  import opened Text

  const MAX_CSV_ROWS := 50_000
  const MAX_TAG_LENGTH := 100

  // ---------- one line ----------

  /** parseCsvLine from the middle of a line: the field so far and whether a quote is open. */
  function ParseFrom(line: string, cur: string, inQuote: bool): (fields: seq<string>)
    ensures fields != []
  {
    if line == [] then [cur]
    else if inQuote then
      if line[0] == '"' then
        if |line| > 1 && line[1] == '"' then ParseFrom(line[2..], cur + ['"'], true)
        else ParseFrom(line[1..], cur, false)
      else ParseFrom(line[1..], cur + [line[0]], true)
    else if line[0] == '"' then ParseFrom(line[1..], cur, true)
    else if line[0] == ',' then [cur] + ParseFrom(line[1..], [], false)
    else ParseFrom(line[1..], cur + [line[0]], false)
  }

  function ParseLine(line: string): (fields: seq<string>)
    ensures fields != []
  {
    ParseFrom(line, [], false)
  }

  /** The loop of parseCsvLine. */
  method ParseCsvLine(line: string) returns (fields: seq<string>)
    ensures fields == ParseLine(line)
  {
    fields := [];
    var cur: string := [];
    var inQuote := false;
    var i := 0;
    while i < |line|
      invariant 0 <= i <= |line|
      invariant fields + ParseFrom(line[i..], cur, inQuote) == ParseLine(line)
    {
      var ch := line[i];
      var rest := line[i..];
      assert rest[0] == ch && rest[1..] == line[i + 1..];
      if inQuote {
        if ch == '"' {
          if i + 1 < |line| && line[i + 1] == '"' {
            assert rest[1] == '"' && rest[2..] == line[i + 2..];
            cur := cur + ['"'];
            i := i + 1;
          } else {
            inQuote := false;
          }
        } else {
          cur := cur + [ch];
        }
      } else {
        if ch == '"' {
          inQuote := true;
        } else if ch == ',' {
          fields := fields + [cur];
          cur := [];
        } else {
          cur := cur + [ch];
        }
      }
      i := i + 1;
    }
    assert line[i..] == [];
    fields := fields + [cur];
  }

  // ---------- one cell ----------

  predicate NeedsQuotes(s: string) { '"' in s || ',' in s || '\n' in s || '\r' in s }

  /** s.replace(/"/g, '""'). */
  function DoubleQuotes(s: string): string {
    if s == [] then []
    else (if s[0] == '"' then ['"', '"'] else [s[0]]) + DoubleQuotes(s[1..])
  }

  function CsvCell(s: string): string {
    if NeedsQuotes(s) then ['"'] + DoubleQuotes(s) + ['"'] else s
  }

  function Cells(values: seq<string>): (cells: seq<string>)
    ensures |cells| == |values|
  {
    seq(|values|, i requires 0 <= i < |values| => CsvCell(values[i]))
  }

  /** A line goes on after a cell: it ends, or a comma starts the next one. */
  predicate CellEnd(rest: string) { rest == [] || rest[0] == ',' }

  lemma {:induction false} ParsePlain(s: string, rest: string, cur: string)
    requires !NeedsQuotes(s)
    ensures ParseFrom(s + rest, cur, false) == ParseFrom(rest, cur + s, false)
  {
    if s == [] {
      assert s + rest == rest && cur + s == cur;
    } else {
      assert (s + rest)[1..] == s[1..] + rest;
      ParsePlain(s[1..], rest, cur + [s[0]]);
      assert cur + [s[0]] + s[1..] == cur + s;
    }
  }

  lemma {:induction false} ParseQuoted(s: string, rest: string, cur: string)
    requires rest == [] || rest[0] != '"'
    ensures ParseFrom(DoubleQuotes(s) + ['"'] + rest, cur, true) == ParseFrom(rest, cur + s, false)
  {
    var text := DoubleQuotes(s) + ['"'] + rest;
    if s == [] {
      assert text == ['"'] + rest && text[1..] == rest && cur + s == cur;
    } else {
      var more := DoubleQuotes(s[1..]) + ['"'] + rest;
      ParseQuoted(s[1..], rest, cur + [s[0]]);
      assert cur + [s[0]] + s[1..] == cur + s;
      if s[0] == '"' {
        assert text == ['"', '"'] + more && text[2..] == more;
      } else {
        assert text == [s[0]] + more && text[1..] == more;
      }
    }
  }

  lemma OpenQuote(s: string, rest: string)
    ensures ParseFrom(['"'] + DoubleQuotes(s) + ['"'] + rest, [], false)
      == ParseFrom(DoubleQuotes(s) + ['"'] + rest, [], true)
  {
    var text, inner := ['"'] + DoubleQuotes(s) + ['"'] + rest, DoubleQuotes(s) + ['"'] + rest;
    assert text == ['"'] + inner;
    assert text[1..] == inner;
  }

  /** A printed cell reads back whole, quoted or not. */
  lemma ParseCell(s: string, rest: string)
    requires CellEnd(rest)
    ensures ParseFrom(CsvCell(s) + rest, [], false) == ParseFrom(rest, s, false)
  {
    assert [] + s == s;
    if NeedsQuotes(s) {
      OpenQuote(s, rest);
      ParseQuoted(s, rest, []);
    } else {
      ParsePlain(s, rest, []);
    }
  }

  /** parseCsvLine undoes joining printed cells with commas, for every non-empty list of strings. */
  lemma {:induction false} LineRoundTrip(values: seq<string>)
    requires values != []
    ensures ParseLine(Join(Cells(values), ",")) == values
  {
    var first := CsvCell(values[0]);
    assert Cells(values)[0] == first;
    if |values| == 1 {
      ParseCell(values[0], []);
      assert first + [] == first;
    } else {
      var more := values[1..];
      assert Cells(values)[1..] == Cells(more);
      var rest := "," + Join(Cells(more), ",");
      assert Join(Cells(values), ",") == first + rest;
      ParseCell(values[0], rest);
      assert rest[1..] == Join(Cells(more), ",");
      LineRoundTrip(more);
      assert [values[0]] + more == values;
    }
  }

  /** A cell is enclosed in quotes exactly when it holds a quote, a comma or a line break, and is otherwise left as it is. */
  lemma QuotedExactly(s: string)
    ensures CsvCell(s) == s <==> forall i :: 0 <= i < |s| ==> s[i] !in {'"', ',', '\n', '\r'}
    ensures CsvCell(s) != s ==> |CsvCell(s)| >= 2 && CsvCell(s)[0] == '"' && CsvCell(s)[|CsvCell(s)| - 1] == '"'
  {
    DoublingGrows(s);
  }

  lemma {:induction false} DoublingGrows(s: string)
    ensures |DoubleQuotes(s)| >= |s|
  {
    if s != [] { DoublingGrows(s[1..]); }
  }

  // ---------- contacts ----------

  datatype Contact = Contact(
    phone: string, firstName: Option<string>, lastName: Option<string>, country: Option<string>,
    timezone: Option<string>, tags: seq<string>, optedOut: bool)

  datatype Row = Row(
    phone: string, firstName: Option<string>, lastName: Option<string>, country: Option<string>,
    timezone: Option<string>, tags: Option<seq<string>>, consent: Option<bool>)

  datatype CsvError = Empty | NoPhoneColumn | Truncated | PhoneEmpty(row: nat) | PhoneInvalid(row: nat, phone: string)

  const HEADER := ["phone_e164", "first_name", "last_name", "country", "timezone", "tags", "consent"]

  function OrEmpty(o: Option<string>): string { if o.Some? then o.value else [] }

  function Fields(c: Contact): seq<string> {
    [c.phone, OrEmpty(c.firstName), OrEmpty(c.lastName), OrEmpty(c.country), OrEmpty(c.timezone),
     Join(c.tags, "|")]
  }

  function ContactLine(c: Contact): string {
    Join(Cells(Fields(c)) + [if c.optedOut then "false" else "true"], ",")
  }

  function Serialize(contacts: seq<Contact>): string {
    Join([Join(HEADER, ",")] + seq(|contacts|, i requires 0 <= i < |contacts| => ContactLine(contacts[i])), "\n")
  }

  // ---------- the importer ----------

  /** text.split(/\r?\n/): a carriage return right before a line feed goes with it. */
  function SplitLines(text: string): (lines: seq<string>)
    ensures lines != []
  {
    var raw := Split(text, "\n");
    seq(|raw|, i requires 0 <= i < |raw| => if i < |raw| - 1 then DropReturn(raw[i]) else raw[i])
  }

  function DropReturn(line: string): string {
    if line != [] && line[|line| - 1] == '\r' then line[..|line| - 1] else line
  }

  /** The lines that are not blank. */
  function NonBlank(lines: seq<string>): (kept: seq<string>)
    ensures forall l :: l in kept ==> l in lines && Trim(l) != []
  {
    if lines == [] then []
    else (if Trim(lines[0]) != [] then [lines[0]] else []) + NonBlank(lines[1..])
  }

  /** h.trim().toLowerCase().replace(/\s+/g, "_"). */
  function HeaderName(h: string): string { Underscores(Lower(Trim(h)), false) }

  function HeaderNames(header: seq<string>): seq<string> {
    seq(|header|, i requires 0 <= i < |header| => HeaderName(header[i]))
  }

  function Underscores(s: string, inSpace: bool): string {
    if s == [] then []
    else if IsSpace(s[0]) then (if inSpace then [] else ['_']) + Underscores(s[1..], true)
    else [s[0]] + Underscores(s[1..], false)
  }

  function IndexOf(names: seq<string>, name: string): (i: int)
    ensures -1 <= i < |names|
    ensures i >= 0 ==> names[i] == name && name !in names[..i]
    ensures i == -1 ==> name !in names
  {
    if names == [] then -1
    else if names[0] == name then 0
    else
      var i := IndexOf(names[1..], name);
      if i == -1 then -1
      else
        assert names[..i + 1] == [names[0]] + names[1..][..i];
        i + 1
  }

  function Either(names: seq<string>, name: string, alias: string): int {
    if IndexOf(names, name) != -1 then IndexOf(names, name) else IndexOf(names, alias)
  }

  datatype Columns = Columns(phone: int, first: int, last: int, country: int, timezone: int, tags: int, consent: int)

  function FindColumns(names: seq<string>): Columns {
    Columns(Either(names, "phone_e164", "phone"), Either(names, "first_name", "firstname"),
            Either(names, "last_name", "lastname"), IndexOf(names, "country"), IndexOf(names, "timezone"),
            IndexOf(names, "tags"), IndexOf(names, "consent"))
  }

  /** fields[i]?.trim(), undefined for a missing column or a short line. */
  function Cell(fields: seq<string>, i: int): Option<string> {
    if 0 <= i < |fields| then Some(Trim(fields[i])) else None
  }

  /** `value || undefined`. */
  function NonEmpty(o: Option<string>): Option<string> { if o.Some? && o.value != [] then o else None }

  /** /^\+[1-9]\d{7,14}$/. */
  predicate IsE164(phone: string) {
    && 9 <= |phone| <= 16 && phone[0] == '+' && '1' <= phone[1] <= '9'
    && forall i :: 2 <= i < |phone| ==> IsDecimalDigit(phone[i])
  }

  function Cut(tag: string): string { if |tag| <= MAX_TAG_LENGTH then tag else tag[..MAX_TAG_LENGTH] }

  /** split("|"), each tag trimmed and cut, the empty ones dropped. */
  function Tags(parts: seq<string>): (tags: seq<string>)
    ensures forall t :: t in tags ==> t != [] && |t| <= MAX_TAG_LENGTH
    ensures forall t :: t in tags ==> exists p :: p in parts && t == Cut(Trim(p))
  {
    if parts == [] then []
    else
      var tag := Cut(Trim(parts[0]));
      (if tag != [] then [tag] else []) + Tags(parts[1..])
  }

  function TagList(raw: Option<string>): seq<string> {
    if raw.Some? && raw.value != [] then Tags(Split(raw.value, "|")) else []
  }

  predicate Truthy(s: string) { s in {"1", "true", "yes", "y", "on"} }

  function ReadRow(fields: seq<string>, c: Columns, phone: string): Row {
    var tags := TagList(Cell(fields, c.tags));
    var consent := Cell(fields, c.consent);
    Row(phone, NonEmpty(Cell(fields, c.first)), NonEmpty(Cell(fields, c.last)), NonEmpty(Cell(fields, c.country)),
        NonEmpty(Cell(fields, c.timezone)), if tags != [] then Some(tags) else None,
        if consent.Some? then Some(Truthy(Lower(consent.value))) else None)
  }

  datatype Import = Import(rows: seq<Row>, errors: seq<CsvError>)

  /** One data line, numbered from 1, after those already imported. */
  function ImportLine(line: string, number: nat, c: Columns, before: Import): Import {
    var fields := ParseLine(line);
    var phone := Cell(fields, c.phone);
    if phone.None? || phone.value == [] then before.(errors := before.errors + [PhoneEmpty(number)])
    else if !IsE164(phone.value) then before.(errors := before.errors + [PhoneInvalid(number, phone.value)])
    else before.(rows := before.rows + [ReadRow(fields, c, phone.value)])
  }

  /** The data lines from index i on; stops with an error once MAX_CSV_ROWS rows are in. */
  function ImportFrom(lines: seq<string>, i: nat, c: Columns, before: Import): Import
    requires i <= |lines|
    decreases |lines| - i
  {
    if i == |lines| then before
    else if |before.rows| >= MAX_CSV_ROWS then before.(errors := before.errors + [Truncated])
    else ImportFrom(lines, i + 1, c, ImportLine(lines[i], i + 1, c, before))
  }

  function ParseText(text: string): Import {
    var lines := NonBlank(SplitLines(text));
    if lines == [] then Import([], [Empty])
    else
      var header := ParseLine(lines[0]);
      var columns := FindColumns(HeaderNames(header));
      if columns.phone == -1 then Import([], [NoPhoneColumn])
      else ImportFrom(lines, 1, columns, Import([], []))
  }

  /** parseCsv: the loop over the data lines, filling rows and errors. */
  method ParseCsv(text: string) returns (rows: seq<Row>, errors: seq<CsvError>)
    ensures Import(rows, errors) == ParseText(text)
  {
    hide ParseLine, HeaderName, ReadRow, IsE164, FindColumns, SplitLines, NonBlank, Trim;
    var lines := NonBlank(SplitLines(text));
    if lines == [] {
      return [], [Empty];
    }
    var header := ParseCsvLine(lines[0]);
    var columns := FindColumns(HeaderNames(header));
    if columns.phone == -1 {
      return [], [NoPhoneColumn];
    }
    rows, errors := [], [];
    var i := 1;
    while i < |lines|
      invariant 1 <= i <= |lines|
      invariant ImportFrom(lines, i, columns, Import(rows, errors)) == ParseText(text)
    {
      if |rows| >= MAX_CSV_ROWS {
        errors := errors + [Truncated];
        break;
      }
      var fields := ParseCsvLine(lines[i]);
      var phone := Cell(fields, columns.phone);
      if phone.None? || phone.value == [] {
        errors := errors + [PhoneEmpty(i + 1)];
      } else if !IsE164(phone.value) {
        errors := errors + [PhoneInvalid(i + 1, phone.value)];
      } else {
        rows := rows + [ReadRow(fields, columns, phone.value)];
      }
      i := i + 1;
    }
  }

  // ---------- what any import yields ----------

  lemma {:induction false} ParseFromChars(line: string, cur: string, inQuote: bool, i: nat, d: char)
    requires i < |ParseFrom(line, cur, inQuote)| && d in ParseFrom(line, cur, inQuote)[i]
    ensures d in line || d in cur
    decreases |line|
  {
    if line != [] {
      if inQuote {
        if line[0] == '"' {
          if |line| > 1 && line[1] == '"' {
            ParseFromChars(line[2..], cur + ['"'], true, i, d);
          } else {
            ParseFromChars(line[1..], cur, false, i, d);
          }
        } else {
          ParseFromChars(line[1..], cur + [line[0]], true, i, d);
        }
      } else if line[0] == '"' {
        ParseFromChars(line[1..], cur, true, i, d);
      } else if line[0] == ',' {
        if i > 0 { ParseFromChars(line[1..], [], false, i - 1, d); }
      } else {
        ParseFromChars(line[1..], cur + [line[0]], false, i, d);
      }
    }
  }

  predicate OneLine(s: string) { '\n' !in s }

  predicate OneLineOption(o: Option<string>) { o.Some? ==> OneLine(o.value) }

  /** What holds of every imported row: a valid phone, and no value with a line feed. */
  predicate Imported(r: Row) {
    && IsE164(r.phone)
    && OneLineOption(r.firstName) && OneLineOption(r.lastName) && OneLineOption(r.country) && OneLineOption(r.timezone)
    && (r.tags.Some? ==> forall t :: t in r.tags.value ==> OneLine(t))
  }

  lemma CellOneLine(line: string, i: int)
    requires OneLine(line)
    ensures OneLineOption(Cell(ParseLine(line), i))
  {
    var fields := ParseLine(line);
    if 0 <= i < |fields| {
      TrimSpec(fields[i]);
      if '\n' in fields[i] { ParseFromChars(line, [], false, i, '\n'); }
    }
  }

  lemma TagsOneLine(raw: Option<string>)
    requires OneLineOption(raw)
    ensures forall t :: t in TagList(raw) ==> OneLine(t)
  {
    if raw.Some? && raw.value != [] {
      var parts := Split(raw.value, "|");
      forall t | t in Tags(parts) ensures OneLine(t) {
        var p :| p in parts && t == Cut(Trim(p));
        TrimSpec(p);
        if '\n' in p {
          var k :| 0 <= k < |parts| && parts[k] == p;
          SplitChars(raw.value, "|", k, '\n');
        }
      }
    }
  }

  lemma ReadRowImported(line: string, c: Columns, phone: string)
    requires OneLine(line) && IsE164(phone)
    ensures Imported(ReadRow(ParseLine(line), c, phone))
  {
    CellOneLine(line, c.first);
    CellOneLine(line, c.last);
    CellOneLine(line, c.country);
    CellOneLine(line, c.timezone);
    CellOneLine(line, c.tags);
    TagsOneLine(Cell(ParseLine(line), c.tags));
  }

  lemma {:induction false} ImportFromSpec(lines: seq<string>, i: nat, c: Columns, before: Import)
    requires i <= |lines| && |before.rows| <= MAX_CSV_ROWS
    requires forall l :: l in lines ==> OneLine(l)
    requires forall r :: r in before.rows ==> Imported(r)
    ensures |ImportFrom(lines, i, c, before).rows| <= MAX_CSV_ROWS
    ensures forall r :: r in ImportFrom(lines, i, c, before).rows ==> Imported(r)
    decreases |lines| - i
  {
    if i < |lines| && |before.rows| < MAX_CSV_ROWS {
      var fields := ParseLine(lines[i]);
      var phone := Cell(fields, c.phone);
      if phone.Some? && IsE164(phone.value) { ReadRowImported(lines[i], c, phone.value); }
      ImportFromSpec(lines, i + 1, c, ImportLine(lines[i], i + 1, c, before));
    }
  }

  lemma LinesOneLine(text: string)
    ensures forall l :: l in SplitLines(text) ==> OneLine(l)
  {
    var raw := Split(text, "\n");
    forall i | 0 <= i < |raw| ensures OneLine(raw[i]) { SplitParts(text, '\n', i); }
  }

  /** Whatever the file, at most MAX_CSV_ROWS rows come out, all with valid phones and single-line values. */
  lemma ImportSpec(text: string)
    ensures |ParseText(text).rows| <= MAX_CSV_ROWS
    ensures forall r :: r in ParseText(text).rows ==> Imported(r)
  {
    LinesOneLine(text);
    var lines := NonBlank(SplitLines(text));
    if lines != [] {
      var header := ParseLine(lines[0]);
      var columns := FindColumns(HeaderNames(header));
      ImportFromSpec(lines, 1, columns, Import([], []));
    }
  }

  // ---------- the exported file, line by line ----------

  /** No value of the contact holds a line feed. */
  predicate NoBreaks(c: Contact) {
    && OneLine(c.phone)
    && OneLineOption(c.firstName) && OneLineOption(c.lastName) && OneLineOption(c.country) && OneLineOption(c.timezone)
    && forall t :: t in c.tags ==> OneLine(t)
  }

  function Flag(c: Contact): string { if c.optedOut then "false" else "true" }

  function AllFields(c: Contact): seq<string> { Fields(c) + [Flag(c)] }

  lemma FlagCell(c: Contact)
    ensures CsvCell(Flag(c)) == Flag(c) && Flag(c)[|Flag(c)| - 1] == 'e'
    ensures ContactLine(c) == Join(Cells(AllFields(c)), ",")
  {
    assert Cells(AllFields(c)) == Cells(Fields(c)) + [Flag(c)];
  }

  lemma {:induction false} DoubleQuotesChars(s: string, d: char)
    requires d in DoubleQuotes(s)
    ensures d in s
  {
    if d != s[0] { DoubleQuotesChars(s[1..], d); }
  }

  lemma {:induction false} JoinOneLine(parts: seq<string>, sep: string)
    requires OneLine(sep) && forall i :: 0 <= i < |parts| ==> OneLine(parts[i])
    ensures OneLine(Join(parts, sep))
  {
    if |parts| > 1 { JoinOneLine(parts[1..], sep); }
  }

  lemma FieldsOneLine(c: Contact)
    requires NoBreaks(c)
    ensures forall f :: f in AllFields(c) ==> OneLine(f)
  {
    assert forall i :: 0 <= i < |c.tags| ==> c.tags[i] in c.tags;
    JoinOneLine(c.tags, "|");
  }

  /** A contact without line feeds prints as one line that is not blank and does not end in a carriage return. */
  lemma ContactLineShape(c: Contact)
    requires NoBreaks(c)
    ensures OneLine(ContactLine(c)) && DropReturn(ContactLine(c)) == ContactLine(c) && Trim(ContactLine(c)) != []
  {
    FlagCell(c);
    FieldsOneLine(c);
    var cells := Cells(AllFields(c));
    JoinEnd(cells, ",");
    LastVisible(ContactLine(c));
    if '\n' in ContactLine(c) {
      CharInJoin(cells, ",", '\n');
      var i :| 0 <= i < |cells| && '\n' in cells[i];
      var f := AllFields(c)[i];
      assert f in AllFields(c);
      if '\n' in DoubleQuotes(f) { DoubleQuotesChars(f, '\n'); }
    }
  }

  /** Text that ends in a visible character survives trim. */
  lemma LastVisible(s: string)
    requires s != [] && !IsSpace(s[|s| - 1])
    ensures Trim(s) != []
  {
    TrimStartPart(s);
    var i :| 0 <= i <= |s| && TrimStart(s) == s[i..];
    KeepsVisible(s);
  }

  lemma {:induction false} KeepsVisible(s: string)
    requires s != [] && !IsSpace(s[|s| - 1])
    ensures TrimStart(s) != [] && TrimStart(s)[|TrimStart(s)| - 1] == s[|s| - 1]
  {
    if IsSpace(s[0]) { KeepsVisible(s[1..]); }
  }

  predicate GoodLine(l: string) { OneLine(l) && DropReturn(l) == l && Trim(l) != [] }

  lemma {:induction false} NonBlankAll(lines: seq<string>)
    requires forall i :: 0 <= i < |lines| ==> Trim(lines[i]) != []
    ensures NonBlank(lines) == lines
  {
    if lines != [] {
      NonBlankAll(lines[1..]);
      assert lines == [lines[0]] + lines[1..];
    }
  }

  /** Lines that are not blank and hold no break come back as they were joined. */
  lemma LinesRoundTrip(lines: seq<string>)
    requires lines != [] && forall i :: 0 <= i < |lines| ==> GoodLine(lines[i])
    ensures NonBlank(SplitLines(Join(lines, "\n"))) == lines
  {
    hide Split, Join, NonBlank, DropReturn, Trim, OneLine;
    forall i | 0 <= i < |lines| ensures '\n' !in lines[i] { OneLineHasNoFeed(lines[i]); }
    SplitJoin(lines, '\n');
    assert SplitLines(Join(lines, "\n")) == lines;
    NonBlankAll(lines);
  }

  lemma OneLineHasNoFeed(l: string)
    requires OneLine(l)
    ensures '\n' !in l
  {
  }

  // ---------- the header ----------

  const FILE_COLUMNS := Columns(0, 1, 2, 3, 4, 5, 6)

  predicate PlainChar(c: char) { 'a' <= c <= 'z' || '0' <= c <= '9' || c == '_' }

  predicate PlainName(h: string) { h != [] && forall i :: 0 <= i < |h| ==> PlainChar(h[i]) }

  lemma PlainCharSpec(c: char)
    requires PlainChar(c)
    ensures !IsSpace(c) && LowerChar(c) == c && c !in {'"', ',', '\n', '\r'}
  {
  }

  lemma {:induction false} UnderscoresPlain(s: string)
    requires forall i :: 0 <= i < |s| ==> !IsSpace(s[i])
    ensures Underscores(s, false) == s
  {
    if s != [] {
      UnderscoresPlain(s[1..]);
      assert s == [s[0]] + s[1..];
    }
  }

  lemma PlainNameReads(h: string)
    requires PlainName(h)
    ensures HeaderName(h) == h && CsvCell(h) == h && OneLine(h) && !IsSpace(h[|h| - 1]) && h[|h| - 1] != '\r'
  {
    forall i | 0 <= i < |h|
      ensures !IsSpace(h[i]) && LowerChar(h[i]) == h[i] && h[i] !in {'"', ',', '\n', '\r'}
    {
      PlainCharSpec(h[i]);
    }
    TrimSpec(h);
    LowerFixes(h);
    UnderscoresPlain(h);
  }

  lemma HeaderIsPlain()
    ensures |HEADER| == 7 && forall i :: 0 <= i < |HEADER| ==> PlainName(HEADER[i])
  {
    assert PlainName("phone_e164");
    assert PlainName("first_name");
    assert PlainName("last_name");
    assert PlainName("country");
    assert PlainName("timezone");
    assert PlainName("tags");
    assert PlainName("consent");
  }

  /** The column names differ in length, but for two pairs that differ in one letter. */
  lemma HeaderDistinct()
    ensures forall i, j :: 0 <= i < j < 7 ==> HEADER[i] != HEADER[j]
  {
    var names := HEADER;
    assert |names[0]| == |names[1]| == 10 && names[0][0] == 'p' && names[1][0] == 'f';
    assert |names[2]| == 9 && |names[4]| == 8 && |names[5]| == 4;
    assert |names[3]| == |names[6]| == 7 && names[3][2] == 'u' && names[6][2] == 'n';
  }

  lemma HeaderIndexes()
    ensures FindColumns(HEADER) == FILE_COLUMNS
  {
    hide IndexOf;
    HeaderDistinct();
    var names := HEADER;
    IndexAt(names, 0);
    IndexAt(names, 1);
    IndexAt(names, 2);
    IndexAt(names, 3);
    IndexAt(names, 4);
    IndexAt(names, 5);
    IndexAt(names, 6);
  }

  lemma IndexAt(names: seq<string>, i: nat)
    requires i < |names| && forall j :: 0 <= j < |names| && j != i ==> names[j] != names[i]
    ensures IndexOf(names, names[i]) == i
  {
    var k := IndexOf(names, names[i]);
    assert names[i] in names;
  }

  /** The exported header line reads back as the seven columns, in order. */
  lemma HeaderRoundTrip()
    ensures GoodLine(Join(HEADER, ","))
    ensures FindColumns(HeaderNames(ParseLine(Join(HEADER, ",")))) == FILE_COLUMNS
  {
    hide HeaderName, CsvCell, FindColumns, ParseLine, PlainName, IsSpace;
    HeaderIsPlain();
    var names := HEADER;
    forall i | 0 <= i < |names| ensures HeaderName(names[i]) == names[i] && CsvCell(names[i]) == names[i] {
      PlainNameReads(names[i]);
    }
    assert Cells(names) == names;
    LineRoundTrip(names);
    assert HeaderNames(names) == names;
    HeaderIndexes();
    PlainLine(names);
  }

  lemma PlainLine(names: seq<string>)
    requires names != [] && forall i :: 0 <= i < |names| ==> PlainName(names[i])
    ensures GoodLine(Join(names, ","))
  {
    hide IsSpace, PlainName;
    var line := Join(names, ",");
    forall i | 0 <= i < |names|
      ensures OneLine(names[i]) && names[i] != [] && !IsSpace(names[i][|names[i]| - 1])
        && names[i][|names[i]| - 1] != '\r'
    {
      PlainNotEmpty(names[i]);
      PlainNameReads(names[i]);
    }
    JoinEnd(names, ",");
    LastVisible(line);
    JoinOneLine(names, ",");
  }

  lemma PlainNotEmpty(h: string)
    requires PlainName(h)
    ensures h != []
  {
  }

  // ---------- the rows ----------

  /** The row an exported contact stands for: empty values are left out, consent is the opposite of the opt-out. */
  function ExpectedRow(c: Contact): Row {
    Row(c.phone, NonEmpty(c.firstName), NonEmpty(c.lastName), NonEmpty(c.country), NonEmpty(c.timezone),
        if c.tags != [] then Some(c.tags) else None, Some(!c.optedOut))
  }

  function ActualRow(c: Contact): Row { ReadRow(AllFields(c), FILE_COLUMNS, c.phone) }

  function Rows(contacts: seq<Contact>): (rows: seq<Row>)
    ensures |rows| == |contacts|
  {
    seq(|contacts|, i requires 0 <= i < |contacts| => ActualRow(contacts[i]))
  }

  function ContactLines(contacts: seq<Contact>): (lines: seq<string>)
    ensures |lines| == |contacts|
  {
    seq(|contacts|, i requires 0 <= i < |contacts| => ContactLine(contacts[i]))
  }

  lemma PhoneTrimmed(phone: string)
    requires IsE164(phone)
    ensures Trim(phone) == phone && OneLine(phone)
  {
    TrimSpec(phone);
  }

  lemma ImportContact(c: Contact, number: nat, before: Import)
    requires IsE164(c.phone)
    ensures ImportLine(ContactLine(c), number, FILE_COLUMNS, before) == before.(rows := before.rows + [ActualRow(c)])
  {
    hide ReadRow, IsE164, Trim, ParseLine, CsvCell;
    FlagCell(c);
    LineRoundTrip(AllFields(c));
    PhoneTrimmed(c.phone);
    assert c.phone != [] by { E164NotEmpty(c.phone); }
  }

  lemma E164NotEmpty(phone: string)
    requires IsE164(phone)
    ensures phone != []
  {
  }

  /** Lines of contacts with valid phones import one row each, as long as the limit is not exceeded. */
  lemma {:induction false} ImportContacts(lines: seq<string>, contacts: seq<Contact>, i: nat, before: Import)
    requires 1 <= i <= |lines| && |lines| == |contacts| + 1 && lines[1..] == ContactLines(contacts)
    requires |before.rows| == i - 1 && |contacts| <= MAX_CSV_ROWS
    requires forall c :: c in contacts ==> IsE164(c.phone)
    ensures ImportFrom(lines, i, FILE_COLUMNS, before) == before.(rows := before.rows + Rows(contacts)[i - 1..])
    decreases |lines| - i
  {
    hide ImportLine, ActualRow, ContactLine;
    if i < |lines| {
      assert lines[i] == lines[1..][i - 1] == ContactLine(contacts[i - 1]);
      ImportContact(contacts[i - 1], i + 1, before);
      var after := ImportLine(lines[i], i + 1, FILE_COLUMNS, before);
      ImportContacts(lines, contacts, i + 1, after);
      assert before.rows + Rows(contacts)[i - 1..] == before.rows + [ActualRow(contacts[i - 1])] + Rows(contacts)[i..];
    } else {
      assert Rows(contacts)[i - 1..] == [];
    }
  }

  /** The file of contacts with valid phones and no line feeds imports one row per contact and no error. */
  lemma FileReads(contacts: seq<Contact>)
    requires |contacts| <= MAX_CSV_ROWS
    requires forall c :: c in contacts ==> IsE164(c.phone) && NoBreaks(c)
    ensures ParseText(Serialize(contacts)) == Import(Rows(contacts), [])
  {
    hide ImportLine, ActualRow, ContactLine, ParseLine, HeaderName, IsE164, NoBreaks, GoodLine, ImportFrom;
    var lines := [Join(HEADER, ",")] + ContactLines(contacts);
    HeaderRoundTrip();
    forall i | 0 <= i < |lines| ensures GoodLine(lines[i]) {
      if i > 0 {
        assert contacts[i - 1] in contacts;
        GoodContact(contacts[i - 1]);
      }
    }
    LinesRoundTrip(lines);
    ImportContacts(lines, contacts, 1, Import([], []));
    assert Rows(contacts)[0..] == Rows(contacts);
    assert [] + Rows(contacts) == Rows(contacts);
  }

  lemma GoodContact(c: Contact)
    requires NoBreaks(c)
    ensures GoodLine(ContactLine(c))
  {
    ContactLineShape(c);
  }

  // ---------- exactly which contacts survive ----------

  predicate CleanOption(o: Option<string>) { o.Some? ==> Trimmed(o.value) && OneLine(o.value) }

  predicate CleanTag(t: string) { t != [] && Trimmed(t) && |t| <= MAX_TAG_LENGTH && '|' !in t }

  /** Valid phone, trimmed single-line values, and tags the importer keeps as they are. */
  predicate Clean(c: Contact) {
    && IsE164(c.phone)
    && CleanOption(c.firstName) && CleanOption(c.lastName) && CleanOption(c.country) && CleanOption(c.timezone)
    && forall i :: 0 <= i < |c.tags| ==> CleanTag(c.tags[i]) && OneLine(c.tags[i])
  }

  lemma OptionSurvives(o: Option<string>)
    ensures NonEmpty(Some(Trim(OrEmpty(o)))) == NonEmpty(o) <==> (o.Some? ==> Trimmed(o.value))
  {
    TrimSpec(OrEmpty(o));
  }

  function Total(parts: seq<string>): nat { if parts == [] then 0 else |parts[0]| + Total(parts[1..]) }

  lemma {:induction false} JoinLength(parts: seq<string>, c: char)
    requires parts != []
    ensures |Join(parts, [c])| == Total(parts) + |parts| - 1
  {
    if |parts| > 1 {
      JoinLength(parts[1..], c);
    } else {
      assert parts[1..] == [];
    }
  }

  lemma TrimShrinks(s: string)
    ensures |Trim(s)| <= |s|
  {
    TrimStartPart(s);
    TrimEndPart(TrimStart(s));
  }

  lemma TagShrinks(p: string)
    ensures |Cut(Trim(p))| <= |p|
    ensures |Cut(Trim(p))| == |p| ==> Cut(Trim(p)) == p && Trimmed(p) && |p| <= MAX_TAG_LENGTH
  {
    TrimShrinks(p);
    TrimSpec(p);
    TrimStartPart(p);
    TrimEndPart(TrimStart(p));
  }

  lemma TagsStep(parts: seq<string>)
    requires parts != []
    ensures var tag, kept := Cut(Trim(parts[0])), Tags(parts[1..]);
      && (tag != [] ==> Tags(parts) == [tag] + kept && Total(Tags(parts)) == |tag| + Total(kept))
      && (tag == [] ==> Tags(parts) == kept)
  {
    hide Trim, Cut;
    var tag, kept := Cut(Trim(parts[0])), Tags(parts[1..]);
    if tag != [] {
      assert Tags(parts) == [tag] + kept;
      assert Tags(parts)[1..] == kept;
    }
  }

  /** Reading tags loses characters or tags unless every part is already a clean tag. */
  lemma {:induction false} TagsShrink(parts: seq<string>)
    ensures |Tags(parts)| <= |parts| && Total(Tags(parts)) <= Total(parts)
    ensures |Tags(parts)| == |parts| && Total(Tags(parts)) == Total(parts) ==> Tags(parts) == parts
    ensures |Tags(parts)| == |parts| && Total(Tags(parts)) == Total(parts) ==>
      forall i :: 0 <= i < |parts| ==> parts[i] != [] && Trimmed(parts[i]) && |parts[i]| <= MAX_TAG_LENGTH
  {
    hide Trim, Cut, Trimmed, Tags, Total;
    if parts == [] {
      NoTags();
    } else {
      var more, tag := parts[1..], Cut(Trim(parts[0]));
      TagsShrink(more);
      TagShrinks(parts[0]);
      TagsStep(parts);
      TotalStep(parts);
      if tag != [] && |Tags(parts)| == |parts| && Total(Tags(parts)) == Total(parts) {
        assert |tag| == |parts[0]| && Tags(more) == more;
        assert parts == [parts[0]] + more;
        assert forall i :: 0 < i < |parts| ==> parts[i] == more[i - 1];
      }
    }
  }

  lemma TotalStep(parts: seq<string>)
    requires parts != []
    ensures Total(parts) == |parts[0]| + Total(parts[1..])
  {
  }

  lemma NoTags()
    ensures Tags([]) == []
  {
  }

  lemma {:induction false} TagsKeep(parts: seq<string>)
    requires forall i :: 0 <= i < |parts| ==> CleanTag(parts[i])
    ensures Tags(parts) == parts
  {
    if parts != [] {
      TrimSpec(parts[0]);
      TagsKeep(parts[1..]);
      assert parts == [parts[0]] + parts[1..];
    }
  }

  lemma JoinTrimmed(tags: seq<string>)
    requires tags != [] && forall i :: 0 <= i < |tags| ==> CleanTag(tags[i])
    ensures Join(tags, "|") != [] && Trim(Join(tags, "|")) == Join(tags, "|")
  {
    JoinEnd(tags, "|");
    TrimSpec(Join(tags, "|"));
    assert Join(tags, "|")[0] == tags[0][0];
  }

  lemma TagsSurviveClean(tags: seq<string>)
    requires tags != [] && forall i :: 0 <= i < |tags| ==> CleanTag(tags[i])
    ensures TagList(Some(Trim(Join(tags, "|")))) == tags
  {
    JoinTrimmed(tags);
    assert forall i :: 0 <= i < |tags| ==> CleanTag(tags[i]) && '|' !in tags[i];
    hide CleanTag;
    SplitJoin(tags, '|');
    TagsKeep(tags);
  }

  lemma TagsSurviveOnlyClean(tags: seq<string>)
    requires tags != [] && TagList(Some(Trim(Join(tags, "|")))) == tags
    ensures forall i :: 0 <= i < |tags| ==> CleanTag(tags[i])
  {
    hide Trim, Trimmed, Join, Split;
    var joined := Join(tags, "|");
    var parts := Split(Trim(joined), "|");
    JoinSplitAny(Trim(joined), "|");
    JoinLength(parts, '|');
    JoinLength(tags, '|');
    TrimShrinks(joined);
    TagsShrink(parts);
    forall i | 0 <= i < |parts| ensures CleanTag(parts[i]) { SplitParts(Trim(joined), '|', i); }
  }

  /** The tags of an exported contact come back exactly when each is a clean tag. */
  lemma TagsSurvive(tags: seq<string>)
    ensures TagList(Some(Trim(Join(tags, "|")))) == tags <==> forall i :: 0 <= i < |tags| ==> CleanTag(tags[i])
  {
    hide CleanTag;
    if tags != [] {
      if forall i :: 0 <= i < |tags| ==> CleanTag(tags[i]) { TagsSurviveClean(tags); }
      if TagList(Some(Trim(Join(tags, "|")))) == tags { TagsSurviveOnlyClean(tags); }
    }
  }

  lemma FlagReads(c: Contact)
    ensures Truthy(Lower(Trim(Flag(c)))) == !c.optedOut
  {
    assert Trimmed("true") && Trimmed("false") && IsLower("true") && IsLower("false");
    TrimSpec(Flag(c));
    LowerFixes(Flag(c));
  }

  /** The row as it is read, column by column. */
  lemma ActualRowIs(c: Contact)
    ensures var r := ActualRow(c); var tags := TagList(Some(Trim(Join(c.tags, "|"))));
      && r.phone == c.phone
      && r.firstName == NonEmpty(Some(Trim(OrEmpty(c.firstName)))) && r.lastName == NonEmpty(Some(Trim(OrEmpty(c.lastName))))
      && r.country == NonEmpty(Some(Trim(OrEmpty(c.country)))) && r.timezone == NonEmpty(Some(Trim(OrEmpty(c.timezone))))
      && r.tags == (if tags != [] then Some(tags) else None) && r.consent == Some(!c.optedOut)
  {
    hide Trim, TagList, Join, Truthy, NonEmpty, Lower, OrEmpty, Flag;
    FlagReads(c);
    assert AllFields(c)[5] == Join(c.tags, "|") && AllFields(c)[6] == Flag(c);
  }

  lemma RowSurvives(c: Contact)
    requires IsE164(c.phone) && NoBreaks(c)
    ensures ActualRow(c) == ExpectedRow(c) <==> Clean(c)
  {
    hide IsE164, Trim, TagList, Join, ActualRow, CleanTag;
    ActualRowIs(c);
    OptionSurvives(c.firstName);
    OptionSurvives(c.lastName);
    OptionSurvives(c.country);
    OptionSurvives(c.timezone);
    TagsSurvive(c.tags);
    assert forall i :: 0 <= i < |c.tags| ==> c.tags[i] in c.tags;
  }

  function Expected(contacts: seq<Contact>): (rows: seq<Row>)
    ensures |rows| == |contacts|
  {
    seq(|contacts|, i requires 0 <= i < |contacts| => ExpectedRow(contacts[i]))
  }

  lemma CleanHasNoBreaks(c: Contact)
    requires Clean(c)
    ensures IsE164(c.phone) && NoBreaks(c)
  {
    PhoneTrimmed(c.phone);
  }

  lemma ExpectedHasNoBreaks(c: Contact)
    requires Imported(ExpectedRow(c))
    ensures IsE164(c.phone) && NoBreaks(c)
  {
    PhoneTrimmed(c.phone);
  }

  /**
   * Exporting contacts and importing the file gives back every contact, with no error, exactly when there are at most
   * 50 000 of them and each is clean.
   */
  lemma FileRoundTrip(contacts: seq<Contact>)
    ensures ParseText(Serialize(contacts)) == Import(Expected(contacts), [])
      <==> |contacts| <= MAX_CSV_ROWS && forall i :: 0 <= i < |contacts| ==> Clean(contacts[i])
  {
    hide ParseText, Serialize, Clean, ActualRow, ExpectedRow, IsE164, NoBreaks, Imported;
    var good := |contacts| <= MAX_CSV_ROWS && forall c :: c in contacts ==> IsE164(c.phone) && NoBreaks(c);
    if ParseText(Serialize(contacts)) == Import(Expected(contacts), []) {
      ImportSpec(Serialize(contacts));
      forall c | c in contacts ensures IsE164(c.phone) && NoBreaks(c) {
        var i :| 0 <= i < |contacts| && contacts[i] == c;
        assert Expected(contacts)[i] == ExpectedRow(c);
        ExpectedHasNoBreaks(c);
      }
    }
    if |contacts| <= MAX_CSV_ROWS && forall i :: 0 <= i < |contacts| ==> Clean(contacts[i]) {
      forall c | c in contacts ensures IsE164(c.phone) && NoBreaks(c) { CleanHasNoBreaks(c); }
    }
    if good {
      FileReads(contacts);
      forall i | 0 <= i < |contacts| ensures Rows(contacts)[i] == Expected(contacts)[i] <==> Clean(contacts[i]) {
        assert contacts[i] in contacts;
        RowSurvives(contacts[i]);
      }
      if forall i :: 0 <= i < |contacts| ==> Clean(contacts[i]) { assert Rows(contacts) == Expected(contacts); }
    }
  }

  /** A first name with a line feed is quoted on export, yet the importer splits the line inside the quotes. */
  lemma LineFeedIsLost()
    ensures var c := Contact("+15551230001", Some("A\nB"), None, None, None, [], false);
      ParseText(Serialize([c])) != Import(Expected([c]), [])
  {
    hide ParseText, Serialize, IsE164;
    var c := Contact("+15551230001", Some("A\nB"), None, None, None, [], false);
    assert "A\nB"[1] == '\n';
    FileRoundTrip([c]);
    assert !Clean([c][0]);
  }

  // ---------- what each line of any file yields ----------

  /** Text quoted in the middle of a cell, and text quoted without an end, count as written. */
  lemma QuotedAnywhere(s: string, rest: string, cur: string)
    ensures rest == [] || rest[0] != '"' ==>
      ParseFrom(['"'] + DoubleQuotes(s) + ['"'] + rest, cur, false) == ParseFrom(rest, cur + s, false)
    ensures ParseFrom(['"'] + DoubleQuotes(s), cur, false) == [cur + s]
  {
    var inner := DoubleQuotes(s) + ['"'] + rest;
    assert ['"'] + DoubleQuotes(s) + ['"'] + rest == ['"'] + inner && (['"'] + inner)[1..] == inner;
    assert (['"'] + DoubleQuotes(s))[1..] == DoubleQuotes(s);
    if rest == [] || rest[0] != '"' { ParseQuoted(s, rest, cur); }
    OpenEnded(s, cur);
  }

  lemma {:induction false} OpenEnded(s: string, cur: string)
    ensures ParseFrom(DoubleQuotes(s), cur, true) == [cur + s]
  {
    if s == [] {
      assert cur + s == cur;
    } else {
      var text := DoubleQuotes(s);
      OpenEnded(s[1..], cur + [s[0]]);
      assert cur + [s[0]] + s[1..] == cur + s;
      if s[0] == '"' {
        assert text == ['"', '"'] + DoubleQuotes(s[1..]) && text[2..] == DoubleQuotes(s[1..]);
      } else {
        assert text == [s[0]] + DoubleQuotes(s[1..]) && text[1..] == DoubleQuotes(s[1..]);
      }
    }
  }

  /** A phone is accepted exactly when it is a plus sign and the digits of a number of eight to fifteen digits. */
  lemma PhoneExactly(phone: string)
    ensures IsE164(phone) <==> exists n: nat :: Digits(n, 8, 15) && phone == "+" + ToBase(n, 10)
  {
    hide IsE164, ToBase, FromBase;
    if IsE164(phone) {
      var n := PhoneNumber(phone);
    }
    if n: nat :| Digits(n, 8, 15) && phone == "+" + ToBase(n, 10) { NumberPhone(n); }
  }

  lemma PhoneNumber(phone: string) returns (n: nat)
    requires IsE164(phone)
    ensures Digits(n, 8, 15) && phone == "+" + ToBase(n, 10)
  {
    hide ToBase, FromBase;
    var s := phone[1..];
    forall i | 0 <= i < |s| ensures 0 <= DigitValue(s[i]) < 10 { assert s[i] == phone[i + 1]; }
    FromBaseCanonical(s, 10);
    assert phone == "+" + s;
    n := FromBase(s, 10);
  }

  lemma NumberPhone(n: nat)
    requires Digits(n, 8, 15)
    ensures IsE164("+" + ToBase(n, 10))
  {
    hide ToBase, FromBase;
    ToBaseSpec(n, 10);
    var s := ToBase(n, 10);
    if n == 0 { SmallIsShort(); }
    assert s[0] != '0' && 0 <= DigitValue(s[0]) < 10;
    forall i | 0 <= i < |s| ensures IsDecimalDigit(s[i]) && ("+" + s)[i + 1] == s[i] {
      assert 0 <= DigitValue(s[i]) < 10;
    }
  }

  lemma SmallIsShort()
    ensures !Digits(0, 8, 15)
  {
  }

  predicate Digits(n: nat, lo: nat, hi: nat) { lo <= |ToBase(n, 10)| <= hi }

  /** A value is on the line when its column exists and the line reaches it. */
  predicate OnLine(fields: seq<string>, i: int) { 0 <= i < |fields| }

  /** What one cell gives: its trimmed text, or nothing when it is missing or blank. */
  predicate Read(o: Option<string>, fields: seq<string>, i: int) {
    && (o.Some? <==> OnLine(fields, i) && Trim(fields[i]) != [])
    && (o.Some? ==> o.value == Trim(fields[i]))
  }

  /**
   * Every value of a row comes from its own column. Consent is absent exactly when the column or the cell is; otherwise it
   * says whether the cell is one of the five affirmative words.
   */
  lemma RowExactly(fields: seq<string>, c: Columns, phone: string)
    ensures var r := ReadRow(fields, c, phone);
      && r.phone == phone
      && Read(r.firstName, fields, c.first) && Read(r.lastName, fields, c.last)
      && Read(r.country, fields, c.country) && Read(r.timezone, fields, c.timezone)
    ensures var consent := ReadRow(fields, c, phone).consent;
      && (consent.Some? <==> OnLine(fields, c.consent))
      && (consent.Some? ==>
            (consent.value <==> Lower(Trim(fields[c.consent])) in ["1", "true", "yes", "y", "on"]))
    ensures var tags := ReadRow(fields, c, phone).tags;
      && (tags.Some? <==> OnLine(fields, c.tags) && exists p :: p in Split(Trim(fields[c.tags]), "|") && Trim(p) != [])
      && (tags.Some? ==> tags.value == Tags(Split(Trim(fields[c.tags]), "|")))
  {
    if OnLine(fields, c.tags) {
      var parts := Split(Trim(fields[c.tags]), "|");
      TagsPresent(parts);
      if Trim(fields[c.tags]) == [] {
        assert parts == [[]];
        TrimSpec([]);
      }
    }
  }

  lemma {:induction false} TagsPresent(parts: seq<string>)
    ensures Tags(parts) != [] <==> exists p :: p in parts && Trim(p) != []
  {
    if parts != [] {
      TagsPresent(parts[1..]);
      assert parts == [parts[0]] + parts[1..];
    }
  }

  /** Each part that is not blank gives one tag, its first MAX_TAG_LENGTH characters once trimmed, in the parts' order. */
  lemma {:induction false} TagsExactly(parts: seq<string>, p: string)
    ensures Tags(parts + [p]) == Tags(parts) + if Trim(p) == [] then [] else [Cut(Trim(p))]
    ensures Cut(Trim(p)) <= Trim(p) && |Cut(Trim(p))| == if |Trim(p)| < 100 then |Trim(p)| else 100
  {
    hide Trim, Tags, Cut;
    CutLength(Trim(p));
    var all := parts + [p];
    TagsStep(all);
    if parts == [] {
      assert all[1..] == [];
      NoTags();
    } else {
      TagsExactly(parts[1..], p);
      TagsStep(parts);
      assert all[0] == parts[0] && all[1..] == parts[1..] + [p];
    }
  }

  lemma CutLength(tag: string)
    ensures Cut(tag) <= tag && |Cut(tag)| == if |tag| < 100 then |tag| else 100
    ensures Cut(tag) == [] <==> tag == []
  {
  }

  /** The phone cell of data line k, trimmed; empty when it is missing. */
  function PhoneOn(lines: seq<string>, k: nat, c: Columns): string
    requires k < |lines|
  {
    OrEmpty(Cell(ParseLine(lines[k]), c.phone))
  }

  /** How many of the lines 1..n hold a valid phone. */
  function Valids(lines: seq<string>, n: nat, c: Columns): nat
    requires n < |lines|
  {
    if n == 0 then 0 else Valids(lines, n - 1, c) + if IsE164(PhoneOn(lines, n, c)) then 1 else 0
  }

  /** The row line k gives. */
  function RowOn(lines: seq<string>, k: nat, c: Columns): Row
    requires k < |lines|
  {
    ReadRow(ParseLine(lines[k]), c, PhoneOn(lines, k, c))
  }

  /** One row for each valid phone of the lines 1..i - 1, in order. */
  ghost predicate RowsUpTo(lines: seq<string>, i: nat, c: Columns, rows: seq<Row>)
    requires 1 <= i <= |lines|
  {
    && |rows| == Valids(lines, i - 1, c)
    && forall k :: 1 <= k < i && IsE164(PhoneOn(lines, k, c)) ==>
         Valids(lines, k - 1, c) < |rows| && rows[Valids(lines, k - 1, c)] == RowOn(lines, k, c)
  }

  /** One error naming each other of those lines. */
  ghost predicate ErrorsUpTo(lines: seq<string>, i: nat, c: Columns, errors: seq<CsvError>)
    requires 1 <= i <= |lines|
  {
    && |errors| == i - 1 - Valids(lines, i - 1, c)
    && (forall k: nat :: PhoneEmpty(k) in errors <==> 2 <= k <= i && PhoneOn(lines, k - 1, c) == [])
    && (forall k: nat, p :: PhoneInvalid(k, p) in errors <==>
          2 <= k <= i && PhoneOn(lines, k - 1, c) == p != [] && !IsE164(p))
    && Empty !in errors && NoPhoneColumn !in errors && Truncated !in errors
  }

  /** The lines before line i have been read, but for the header. */
  ghost predicate ReadUpTo(lines: seq<string>, i: nat, c: Columns, im: Import)
    requires 1 <= i <= |lines|
  {
    RowsUpTo(lines, i, c, im.rows) && ErrorsUpTo(lines, i, c, im.errors)
  }

  lemma LineReads(lines: seq<string>, i: nat, c: Columns, im: Import)
    requires 1 <= i < |lines| && ReadUpTo(lines, i, c, im)
    ensures ReadUpTo(lines, i + 1, c, ImportLine(lines[i], i + 1, c, im))
  {
    hide PhoneOn, RowOn, IsE164, ImportLine, RowsUpTo, ErrorsUpTo;
    LineGives(lines, i, c, im);
    RowReads(lines, i, c, im.rows);
    ErrorReads(lines, i, c, im.errors);
  }

  lemma RowReads(lines: seq<string>, i: nat, c: Columns, rows: seq<Row>)
    requires 1 <= i < |lines| && RowsUpTo(lines, i, c, rows)
    ensures RowsUpTo(lines, i + 1, c, if IsE164(PhoneOn(lines, i, c)) then rows + [RowOn(lines, i, c)] else rows)
  {
    hide PhoneOn, RowOn, IsE164;
    ValidsGrow(lines, i, c);
  }

  /** The error line i gives when its phone is not valid. */
  function PhoneError(lines: seq<string>, i: nat, c: Columns): CsvError
    requires i < |lines|
  {
    if PhoneOn(lines, i, c) == [] then PhoneEmpty(i + 1) else PhoneInvalid(i + 1, PhoneOn(lines, i, c))
  }

  lemma ErrorReads(lines: seq<string>, i: nat, c: Columns, errors: seq<CsvError>)
    requires 1 <= i < |lines| && ErrorsUpTo(lines, i, c, errors)
    ensures ErrorsUpTo(lines, i + 1, c, if IsE164(PhoneOn(lines, i, c)) then errors else errors + [PhoneError(lines, i, c)])
  {
    hide PhoneOn, IsE164;
    E164NotBlank();
    var e := PhoneError(lines, i, c);
    forall x ensures x in errors + [e] <==> x in errors || x == e {
    }
  }

  /** What one line adds. */
  lemma LineGives(lines: seq<string>, i: nat, c: Columns, im: Import)
    requires i < |lines|
    ensures var phone := PhoneOn(lines, i, c);
      ImportLine(lines[i], i + 1, c, im) ==
      if IsE164(phone) then Import(im.rows + [RowOn(lines, i, c)], im.errors)
      else Import(im.rows, im.errors + [PhoneError(lines, i, c)])
  {
    hide ParseLine, IsE164, ReadRow, Trim;
    E164NotBlank();
  }

  lemma E164NotBlank()
    ensures !IsE164([])
  {
  }

  lemma {:induction false} ValidsGrow(lines: seq<string>, i: nat, c: Columns)
    requires i < |lines|
    ensures forall k :: 1 <= k < i && IsE164(PhoneOn(lines, k, c)) ==> Valids(lines, k - 1, c) < Valids(lines, i - 1, c)
  {
    hide PhoneOn, IsE164;
    if i > 1 { ValidsGrow(lines, i - 1, c); }
  }

  /** Line n - 1 gave the row that filled the import, and more lines follow. */
  ghost predicate FullAt(lines: seq<string>, n: nat, c: Columns, rows: seq<Row>)
    requires 1 <= n <= |lines|
  {
    n < |lines| && |rows| == MAX_CSV_ROWS && IsE164(PhoneOn(lines, n - 1, c))
  }

  /** The lines before n were read, and either there are no more or the import was full and said so. */
  ghost predicate ReadTo(lines: seq<string>, n: nat, c: Columns, im: Import) {
    && 1 <= n <= |lines|
    && (|| (n == |lines| && ReadUpTo(lines, n, c, im))
        || (FullAt(lines, n, c, im.rows)
            && exists es :: im.errors == es + [Truncated] && ReadUpTo(lines, n, c, Import(im.rows, es))))
  }

  lemma {:induction false} LinesRead(lines: seq<string>, i: nat, c: Columns, before: Import)
    requires 1 <= i <= |lines| && ReadUpTo(lines, i, c, before)
    requires |before.rows| < MAX_CSV_ROWS || (|before.rows| == MAX_CSV_ROWS && IsE164(PhoneOn(lines, i - 1, c)))
    ensures exists n :: ReadTo(lines, n, c, ImportFrom(lines, i, c, before))
    decreases |lines| - i
  {
    hide IsE164, ReadUpTo, PhoneOn, ReadTo, ImportLine, ImportFrom;
    ImportStep(lines, i, c, before);
    if i == |lines| || |before.rows| >= MAX_CSV_ROWS {
      ReadingEnds(lines, i, c, before);
    } else {
      LineReads(lines, i, c, before);
      LineFills(lines, i, c, before);
      LinesRead(lines, i + 1, c, ImportLine(lines[i], i + 1, c, before));
    }
  }

  lemma ImportStep(lines: seq<string>, i: nat, c: Columns, before: Import)
    requires i <= |lines|
    ensures i < |lines| && |before.rows| < MAX_CSV_ROWS ==>
      ImportFrom(lines, i, c, before) == ImportFrom(lines, i + 1, c, ImportLine(lines[i], i + 1, c, before))
  {
    hide ImportLine;
  }

  lemma ReadingEnds(lines: seq<string>, i: nat, c: Columns, before: Import)
    requires 1 <= i <= |lines| && ReadUpTo(lines, i, c, before)
    requires i == |lines| || (|before.rows| == MAX_CSV_ROWS && IsE164(PhoneOn(lines, i - 1, c)))
    ensures ReadTo(lines, i, c, ImportFrom(lines, i, c, before))
  {
    hide IsE164, ReadUpTo, PhoneOn;
    assert Import(before.rows, before.errors) == before;
  }

  lemma LineFills(lines: seq<string>, i: nat, c: Columns, before: Import)
    requires i < |lines| && |before.rows| < MAX_CSV_ROWS
    ensures var after := ImportLine(lines[i], i + 1, c, before);
      |after.rows| < MAX_CSV_ROWS || (|after.rows| == MAX_CSV_ROWS && IsE164(PhoneOn(lines, i, c)))
  {
    hide ParseLine, IsE164, ReadRow, Trim;
  }

  /**
   * Any file with a phone column: its lines are read in order, one row for each valid phone and one error naming each other
   * line, to the end or until the import is full with lines still to come; those are reported once and left unread.
   */
  lemma FileExactly(text: string)
    requires var lines := NonBlank(SplitLines(text));
      lines != [] && FindColumns(HeaderNames(ParseLine(lines[0]))).phone != -1
    ensures var lines := NonBlank(SplitLines(text));
      exists n :: ReadTo(lines, n, FindColumns(HeaderNames(ParseLine(lines[0]))), ParseText(text))
  {
    hide NonBlank, SplitLines, FindColumns, HeaderNames, ParseLine, IsE164, ImportFrom, ReadTo, PhoneOn;
    var lines := NonBlank(SplitLines(text));
    var c := FindColumns(HeaderNames(ParseLine(lines[0])));
    LinesRead(lines, 1, c, Import([], []));
    assert ParseText(text) == ImportFrom(lines, 1, c, Import([], []));
  }

  /** A file is refused whole exactly when all its lines are blank, or when its first names no phone column. */
  lemma RefusedExactly(text: string)
    ensures Empty in ParseText(text).errors <==> forall l :: l in SplitLines(text) ==> Trim(l) == []
    ensures Empty in ParseText(text).errors ==> ParseText(text) == Import([], [Empty])
    ensures NoPhoneColumn in ParseText(text).errors ==> ParseText(text) == Import([], [NoPhoneColumn])
    ensures var lines := NonBlank(SplitLines(text));
      NoPhoneColumn in ParseText(text).errors <==>
        lines != [] && var names := HeaderNames(ParseLine(lines[0])); "phone_e164" !in names && "phone" !in names
  {
    hide SplitLines, HeaderNames, ParseLine, ImportFrom, Trim, NonBlank, ReadTo, IndexOf;
    var lines := NonBlank(SplitLines(text));
    NonBlankExactly(SplitLines(text));
    if lines != [] && FindColumns(HeaderNames(ParseLine(lines[0]))).phone != -1 {
      FileExactly(text);
      var n :| ReadTo(lines, n, FindColumns(HeaderNames(ParseLine(lines[0]))), ParseText(text));
      ReadSaysNeither(lines, n, FindColumns(HeaderNames(ParseLine(lines[0]))), ParseText(text));
    }
  }

  lemma ReadSaysNeither(lines: seq<string>, n: nat, c: Columns, im: Import)
    requires ReadTo(lines, n, c, im)
    ensures Empty !in im.errors && NoPhoneColumn !in im.errors
  {
    hide IsE164, PhoneOn, RowsUpTo;
  }

  lemma {:induction false} NonBlankExactly(lines: seq<string>)
    ensures NonBlank(lines) == [] <==> forall l :: l in lines ==> Trim(l) == []
  {
    hide Trim;
    if lines != [] {
      NonBlankExactly(lines[1..]);
      assert lines == [lines[0]] + lines[1..];
    }
  }

  // ---------- other spellings of a file ----------

  /** Blank lines do not count. */
  lemma {:induction false} BlankLinesDropOut(before: seq<string>, blank: string, after: seq<string>)
    requires Trim(blank) == []
    ensures NonBlank(before + [blank] + after) == NonBlank(before + after)
  {
    hide NonBlank, Trim;
    var all := before + [blank] + after;
    NonBlankStep(all);
    if before == [] {
      assert all[0] == blank && all[1..] == after && before + after == after;
    } else {
      BlankLinesDropOut(before[1..], blank, after);
      assert all[1..] == before[1..] + [blank] + after && (before + after)[1..] == before[1..] + after;
      NonBlankStep(before + after);
    }
  }

  lemma NonBlankStep(lines: seq<string>)
    requires lines != []
    ensures NonBlank(lines) == (if Trim(lines[0]) != [] then [lines[0]] else []) + NonBlank(lines[1..])
  {
  }

  /** Each line but the last ended by a carriage return. */
  function Returned(lines: seq<string>): (r: seq<string>)
    ensures |r| == |lines|
  {
    seq(|lines|, i requires 0 <= i < |lines| => if i < |lines| - 1 then lines[i] + "\r" else lines[i])
  }

  lemma {:induction false} JoinReturned(lines: seq<string>)
    ensures Join(lines, "\r\n") == Join(Returned(lines), "\n")
  {
    if |lines| > 1 {
      JoinReturned(lines[1..]);
      assert Returned(lines)[1..] == Returned(lines[1..]);
      assert "\r\n" == "\r" + "\n";
    }
  }

  /** A file whose lines end in carriage return and line feed reads as the one whose lines end in a line feed. */
  lemma ReturnsDropOut(lines: seq<string>)
    requires lines != [] && forall i :: 0 <= i < |lines| ==> GoodLine(lines[i])
    ensures ParseText(Join(lines, "\r\n")) == ParseText(Join(lines, "\n"))
  {
    hide SplitLines, GoodLine, Join, NonBlank, Trim, ParseLine, FindColumns, HeaderNames, ImportFrom;
    assert forall i :: 0 <= i < |lines| ==> Trim(lines[i]) != [] by { GoodNotBlank(lines); }
    ReturnedLines(lines);
    NonBlankAll(lines);
    LinesRoundTrip(lines);
    assert NonBlank(SplitLines(Join(lines, "\r\n"))) == NonBlank(SplitLines(Join(lines, "\n")));
  }

  lemma GoodNotBlank(lines: seq<string>)
    requires forall i :: 0 <= i < |lines| ==> GoodLine(lines[i])
    ensures forall i :: 0 <= i < |lines| ==> Trim(lines[i]) != []
  {
  }

  lemma ReturnedLines(lines: seq<string>)
    requires lines != [] && forall i :: 0 <= i < |lines| ==> GoodLine(lines[i])
    ensures SplitLines(Join(lines, "\r\n")) == lines
  {
    hide Split, Join, GoodLine, DropReturn;
    var returned := Returned(lines);
    JoinReturned(lines);
    forall i | 0 <= i < |lines|
      ensures '\n' !in returned[i] && (i < |lines| - 1 ==> DropReturn(returned[i]) == lines[i])
    {
      ReturnDrops(lines[i]);
    }
    SplitJoin(returned, '\n');
    assert SplitLines(Join(lines, "\r\n")) == lines;
  }

  lemma ReturnDrops(l: string)
    requires GoodLine(l)
    ensures '\n' !in l && '\n' !in l + "\r" && DropReturn(l + "\r") == l
  {
  }

  predicate Word(w: string) { w != [] && forall i :: 0 <= i < |w| ==> !IsSpace(w[i]) }

  predicate Gap(g: string) { g != [] && AllSpace(g) }

  function LowerAll(words: seq<string>): (r: seq<string>)
    ensures |r| == |words|
  {
    seq(|words|, i requires 0 <= i < |words| => Lower(words[i]))
  }

  lemma {:induction false} JoinLower(words: seq<string>, gap: string)
    requires Gap(gap)
    ensures Lower(Join(words, gap)) == Join(LowerAll(words), gap)
  {
    assert Lower(gap) == gap;
    if |words| > 1 {
      JoinLower(words[1..], gap);
      assert LowerAll(words)[1..] == LowerAll(words[1..]);
    }
  }

  lemma {:induction false} UnderscoresWord(w: string, rest: string, inSpace: bool)
    requires Word(w)
    ensures Underscores(w + rest, inSpace) == w + Underscores(rest, false)
  {
    assert (w + rest)[1..] == w[1..] + rest;
    if |w| > 1 {
      UnderscoresWord(w[1..], rest, false);
    } else {
      assert w[1..] + rest == rest;
    }
  }

  lemma {:induction false} UnderscoresGap(g: string, rest: string, inSpace: bool)
    requires Gap(g)
    ensures Underscores(g + rest, inSpace) == (if inSpace then [] else "_") + Underscores(rest, true)
  {
    assert (g + rest)[1..] == g[1..] + rest;
    if |g| > 1 {
      UnderscoresGap(g[1..], rest, true);
    } else {
      assert g[1..] + rest == rest;
    }
  }

  lemma {:induction false} UnderscoresJoin(words: seq<string>, gap: string, inSpace: bool)
    requires words != [] && Gap(gap) && forall i :: 0 <= i < |words| ==> Word(words[i])
    ensures Underscores(Join(words, gap), inSpace) == Join(words, "_")
  {
    hide Word, Gap, Underscores;
    UnderscoresEmpty();
    if |words| == 1 {
      UnderscoresWord(words[0], [], inSpace);
      assert words[0] + [] == words[0];
    } else {
      var rest := Join(words[1..], gap);
      UnderscoresWord(words[0], gap + rest, inSpace);
      assert words[0] + gap + rest == words[0] + (gap + rest);
      UnderscoresGap(gap, rest, false);
      UnderscoresJoin(words[1..], gap, true);
    }
  }

  lemma UnderscoresEmpty()
    ensures Underscores([], false) == []
  {
  }

  /** A column may be named in any letter case, its words any white space apart: " First  Name" is first_name. */
  lemma HeaderSpelling(before: string, words: seq<string>, gap: string, after: string)
    requires AllSpace(before) && AllSpace(after) && Gap(gap)
    requires words != [] && forall i :: 0 <= i < |words| ==> Word(words[i])
    ensures HeaderName(before + Join(words, gap) + after) == Join(LowerAll(words), "_")
  {
    hide IsSpace, Underscores, Trim, AllSpace;
    var h := Join(words, gap);
    JoinEnd(words, gap);
    assert h[0] == words[0][0];
    TrimExactly(before, h, after);
    JoinLower(words, gap);
    forall i | 0 <= i < |words| ensures Word(LowerAll(words)[i]) { LowerWord(words[i]); }
    UnderscoresJoin(LowerAll(words), gap, false);
  }

  lemma LowerWord(w: string)
    requires Word(w)
    ensures Word(Lower(w))
  {
    forall i | 0 <= i < |w| ensures !IsSpace(Lower(w)[i]) { assert !IsSpace(w[i]); }
  }

  /** The importer's short names for three of its columns. */
  function LongName(name: string): string {
    if name == "phone" then "phone_e164" else if name == "firstname" then "first_name"
    else if name == "lastname" then "last_name" else name
  }

  function LongNames(names: seq<string>): (r: seq<string>)
    ensures |r| == |names|
  {
    seq(|names|, i requires 0 <= i < |names| => LongName(names[i]))
  }

  lemma IndexFirst(names: seq<string>, i: nat)
    requires i < |names| && names[i] !in names[..i]
    ensures IndexOf(names, names[i]) == i
  {
    var k := IndexOf(names, names[i]);
    assert names[i] in names;
    assert forall j :: 0 <= j < i ==> names[..i][j] == names[j];
    assert forall j :: 0 <= j < k ==> names[..k][j] == names[j];
  }

  /** A name written in one spelling only is at the same place once it is written in the other. */
  lemma SameIndex(names: seq<string>, short: string, name: string)
    requires forall n :: LongName(n) == name <==> n in [short, name]
    requires short == name || !(short in names && name in names)
    ensures IndexOf(LongNames(names), name) == if name in names then IndexOf(names, name) else IndexOf(names, short)
  {
    hide LongName;
    var i := if name in names then IndexOf(names, name) else IndexOf(names, short);
    if i != -1 {
      assert LongNames(names)[i] == name;
      assert name !in LongNames(names)[..i];
      IndexFirst(LongNames(names), i);
    } else {
      assert name !in LongNames(names);
    }
  }

  lemma SpellingsDiffer()
    ensures forall n :: LongName(n) == "phone_e164" <==> n in ["phone", "phone_e164"]
    ensures forall n :: LongName(n) == "first_name" <==> n in ["firstname", "first_name"]
    ensures forall n :: LongName(n) == "last_name" <==> n in ["lastname", "last_name"]
    ensures forall n :: LongName(n) !in ["phone", "firstname", "lastname"]
    ensures forall n :: LongName(n) == "country" <==> n in ["country", "country"]
    ensures forall n :: LongName(n) == "timezone" <==> n in ["timezone", "timezone"]
    ensures forall n :: LongName(n) == "tags" <==> n in ["tags", "tags"]
    ensures forall n :: LongName(n) == "consent" <==> n in ["consent", "consent"]
  {
    assert |"phone"| == 5 && |"firstname"| == 9 && |"lastname"| == 8 && |"tags"| == 4 && |"timezone"| == 8;
    assert |"phone_e164"| == 10 && |"first_name"| == 10 && |"last_name"| == 9 && |"country"| == |"consent"| == 7;
    assert "phone_e164"[0] == 'p' && "first_name"[0] == 'f' && "lastname"[0] == 'l' && "timezone"[0] == 't';
    assert "firstname"[0] == 'f' && "last_name"[0] == 'l' && "country"[2] == 'u' && "consent"[2] == 'n';
  }

  /** A file may use the short names: it has the same columns as with the long ones, unless it mixes both. */
  lemma ShortNamesRead(names: seq<string>)
    requires !("phone" in names && "phone_e164" in names)
    requires !("firstname" in names && "first_name" in names) && !("lastname" in names && "last_name" in names)
    ensures FindColumns(names) == FindColumns(LongNames(names))
  {
    hide LongName, IndexOf;
    SpellingsDiffer();
    SameIndex(names, "phone", "phone_e164");
    SameIndex(names, "firstname", "first_name");
    SameIndex(names, "lastname", "last_name");
    SameIndex(names, "country", "country");
    SameIndex(names, "timezone", "timezone");
    SameIndex(names, "tags", "tags");
    SameIndex(names, "consent", "consent");
  }
}
