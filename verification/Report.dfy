/** The monthly report: which stored backups fall in a month, and the CSV export. */
module Report {
  import opened Wrappers
  import opened Sequences
  import opened Clock
  import opened Storage

  // ----- Months -----

  /** The years chrono supports. */
  const MIN_YEAR: int := -262143
  const MAX_YEAR: int := 262142

  /** The first instant of a month, if the calendar reaches that far. */
  function MonthStart(year: int, month: int): Option<int> {
    if MIN_YEAR <= year <= MAX_YEAR && 1 <= month <= 12 then Some(DayNumber(year, month, 1) * DAY) else None
  }

  function Or(x: Option<int>, now: int): int {
    if x.Some? then x.value else now
  }

  function NextMonth(year: int, month: int): (int, int) {
    if month == 12 then (year + 1, 1) else (year, month + 1)
  }

  /** The half-open interval of a month; a bound out of range is the current time. */
  function MonthBounds(year: int, month: int, now: int): (int, int) {
    var (ny, nm) := NextMonth(year, month);
    (Or(MonthStart(year, month), now), Or(MonthStart(ny, nm), now))
  }

  /** The byte order of strings, which is that of their code points. */
  predicate StringLe(a: string, b: string) {
    a == "" || (b != "" && (a[0] < b[0] || (a[0] == b[0] && StringLe(a[1..], b[1..]))))
  }

  predicate ReportOrder(a: Entry, b: Entry) {
    a.Time() < b.Time() || (a.Time() == b.Time() && StringLe(a.device, b.device))
  }

  function Filtered(es: seq<Entry>, start: int, end: int): seq<Entry> {
    if es == [] then []
    else
      var rest := Filtered(es[1..], start, end);
      if start <= es[0].Time() < end then [es[0]] + rest else rest
  }

  function InsertForReport(e: Entry, es: seq<Entry>): (r: seq<Entry>)
    ensures multiset(r) == multiset(es) + multiset{e}
  {
    if es == [] || ReportOrder(e, es[0]) then [e] + es
    else
      assert es == [es[0]] + es[1..];
      [es[0]] + InsertForReport(e, es[1..])
  }

  function SortForReport(es: seq<Entry>): (r: seq<Entry>)
    ensures multiset(r) == multiset(es)
  {
    if es == [] then []
    else
      assert es == [es[0]] + es[1..];
      InsertForReport(es[0], SortForReport(es[1..]))
  }

  function EntriesInMonth(all: seq<Entry>, start: int, end: int): seq<Entry> {
    SortForReport(Filtered(all, start, end))
  }

  // ----- CSV -----

  predicate NeedsQuotes(s: string) {
    ',' in s || '"' in s || '\n' in s || '\r' in s
  }

  function DoubleQuotes(s: string): string {
    if s == "" then "" else (if s[0] == '"' then "\"\"" else [s[0]]) + DoubleQuotes(s[1..])
  }

  /** Quotes a field as section 2 of RFC 4180 asks. */
  function CsvField(s: string): string {
    if NeedsQuotes(s) then "\"" + DoubleQuotes(s) + "\"" else s
  }

  function Decimal(n: nat): string {
    if n < 10 then [Digit(n)] else Decimal(n / 10) + [Digit(n % 10)]
  }

  const HEADER: string := "fecha_utc,hora_utc,equipo,tamano_bytes,sha256,archivo\n"

  function Row(e: Entry): string
    requires e.createdAt.Valid()
  {
    FormatDate(e.createdAt) + "," + FormatTime(e.createdAt) + "," + CsvField(e.device) + ","
    + Decimal(e.size) + "," + e.sha256 + "," + CsvField(e.path) + "\n"
  }

  function Rows(es: seq<Entry>): string
    requires forall e <- es :: e.createdAt.Valid()
  {
    if es == [] then "" else Row(es[0]) + Rows(es[1..])
  }

  method ReportCsv(entries: seq<Entry>) returns (csv: string)
    requires forall e <- entries :: e.createdAt.Valid()
    ensures csv == HEADER + Rows(entries)
  {
    hide Row;
    csv := HEADER;
    assert entries[0..] == entries;
    for k := 0 to |entries|
      invariant csv + Rows(entries[k..]) == HEADER + Rows(entries)
    {
      assert entries[k..][0] == entries[k] && entries[k..][1..] == entries[k + 1..];
      ConcatAssoc(csv, Row(entries[k]), Rows(entries[k + 1..]));
      csv := csv + Row(entries[k]);
    }
    assert entries[|entries|..] == [] && csv + "" == csv;
  }

  /** A reader of RFC 4180 records that takes LF or CRLF as record end. */
  datatype Mode = Start | Bare | Quoted | AfterQuote

  function Read(s: string, mode: Mode, field: string, record: seq<string>, records: seq<seq<string>>)
    : Option<seq<seq<string>>>
  {
    if s == "" then
      if mode == Quoted then None
      else if mode == Start && record == [] then Some(records)
      else Some(records + [record + [field]])
    else
      var c, rest := s[0], s[1..];
      if mode == Quoted then
        if c == '"' then Read(rest, AfterQuote, field, record, records)
        else Read(rest, Quoted, field + [c], record, records)
      else if c == ',' then Read(rest, Start, "", record + [field], records)
      else if c == '\n' then Read(rest, Start, "", [], records + [record + [field]])
      else if c == '\r' then
        if rest != "" && rest[0] == '\n' then Read(rest[1..], Start, "", [], records + [record + [field]]) else None
      else if c == '"' then
        if mode == Start then Read(rest, Quoted, "", record, records)
        else if mode == AfterQuote then Read(rest, Quoted, field + ['"'], record, records)
        else None
      else if mode == AfterQuote then None
      else Read(rest, Bare, field + [c], record, records)
  }

  function ReadCsv(s: string): Option<seq<seq<string>>> {
    Read(s, Start, "", [], [])
  }
}
