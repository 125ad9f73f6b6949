/** The CSV export can be read back, and months divide the stored backups. */
module ReportLaws {
  import opened Wrappers
  import opened Sequences
  import opened Utf8
  import opened Clock
  import opened Storage
  import opened Report

  // ----- CSV -----

  function Fields(e: Entry): seq<string>
    requires e.createdAt.Valid()
  {
    [FormatDate(e.createdAt), FormatTime(e.createdAt), e.device, Decimal(e.size), e.sha256, e.path]
  }

  lemma {:induction false} ReadBare(f: string, rest: string, mode: Mode, acc: string, record: seq<string>,
                                    records: seq<seq<string>>)
    requires !NeedsQuotes(f) && (mode == Bare || (mode == Start && (f != "" || acc == "")))
    ensures Read(f + rest, mode, acc, record, records) ==
            Read(rest, if f == "" then mode else Bare, acc + f, record, records)
    decreases |f|
  {
    if f == "" {
      assert f + rest == rest && acc + f == acc;
    } else {
      assert (f + rest)[0] == f[0] && (f + rest)[1..] == f[1..] + rest;
      assert f[0] in f;
      ReadBare(f[1..], rest, Bare, acc + [f[0]], record, records);
      assert acc + [f[0]] + f[1..] == acc + f;
    }
  }

  lemma {:induction false} ReadQuoted(f: string, rest: string, acc: string, record: seq<string>,
                                      records: seq<seq<string>>)
    ensures Read(DoubleQuotes(f) + ("\"" + rest), Quoted, acc, record, records) ==
            Read(rest, AfterQuote, acc + f, record, records)
    decreases |f|
  {
    hide Read;
    if f == "" {
      assert acc + f == acc && DoubleQuotes(f) + ("\"" + rest) == "\"" + rest;
      ReadClosing(rest, acc, record, records);
    } else {
      var tail := DoubleQuotes(f[1..]) + ("\"" + rest);
      ReadQuoted(f[1..], rest, acc + [f[0]], record, records);
      assert acc + [f[0]] + f[1..] == acc + f;
      ConcatAssoc(if f[0] == '"' then "\"\"" else [f[0]], DoubleQuotes(f[1..]), "\"" + rest);
      ReadInQuotes(f[0], tail, acc, record, records);
    }
  }

  lemma ReadClosing(rest: string, acc: string, record: seq<string>, records: seq<seq<string>>)
    ensures Read("\"" + rest, Quoted, acc, record, records) == Read(rest, AfterQuote, acc, record, records)
  {
    assert ("\"" + rest)[0] == '"' && ("\"" + rest)[1..] == rest;
  }

  lemma ReadInQuotes(c: char, tail: string, acc: string, record: seq<string>, records: seq<seq<string>>)
    ensures Read((if c == '"' then "\"\"" else [c]) + tail, Quoted, acc, record, records) ==
            Read(tail, Quoted, acc + [c], record, records)
  {
    if c == '"' {
      var s := "\"\"" + tail;
      assert s[0] == '"' && s[1..] == "\"" + tail && s[1..][0] == '"' && s[1..][1..] == tail;
    } else {
      assert ([c] + tail)[0] == c && ([c] + tail)[1..] == tail;
    }
  }

  lemma ReadSeparator(f: string, mode: Mode, sep: char, rest: string, record: seq<string>, records: seq<seq<string>>)
    requires (sep == ',' || sep == '\n') && mode != Quoted
    ensures Read([sep] + rest, mode, f, record, records) ==
      if sep == ',' then Read(rest, Start, "", record + [f], records)
      else Read(rest, Start, "", [], records + [record + [f]])
  {
    assert ([sep] + rest)[0] == sep && ([sep] + rest)[1..] == rest;
  }

  lemma ReadOpening(rest: string, record: seq<string>, records: seq<seq<string>>)
    ensures Read("\"" + rest, Start, "", record, records) == Read(rest, Quoted, "", record, records)
  {
    assert ("\"" + rest)[0] == '"' && ("\"" + rest)[1..] == rest;
  }

  /** One field and the separator after it are read back as that field. */
  lemma ReadField(f: string, sep: char, rest: string, record: seq<string>, records: seq<seq<string>>)
    requires sep == ',' || sep == '\n'
    ensures Read(CsvField(f) + ([sep] + rest), Start, "", record, records) ==
      if sep == ',' then Read(rest, Start, "", record + [f], records)
      else Read(rest, Start, "", [], records + [record + [f]])
  {
    hide Read, DoubleQuotes, NeedsQuotes;
    var tail := [sep] + rest;
    assert "" + f == f;
    if NeedsQuotes(f) {
      var d := DoubleQuotes(f);
      ConcatAssoc("\"" + d, "\"", tail);
      ConcatAssoc("\"", d, "\"" + tail);
      ReadOpening(d + ("\"" + tail), record, records);
      ReadQuoted(f, tail, "", record, records);
      ReadSeparator(f, AfterQuote, sep, rest, record, records);
    } else {
      ReadBare(f, tail, Start, "", record, records);
      ReadSeparator(f, if f == "" then Start else Bare, sep, rest, record, records);
    }
  }

  lemma {:induction false} DecimalIsBare(n: nat)
    ensures !NeedsQuotes(Decimal(n))
  {
    if n >= 10 { DecimalIsBare(n / 10); }
  }

  lemma DatesAreBare(t: DateTime)
    requires t.Valid()
    ensures !NeedsQuotes(FormatDate(t)) && !NeedsQuotes(FormatTime(t))
  {
  }

  /** The same row with every field passed through the quoting. */
  function JoinedRow(fields: seq<string>): string
    requires fields != []
  {
    if |fields| == 1 then CsvField(fields[0]) + "\n" else CsvField(fields[0]) + ("," + JoinedRow(fields[1..]))
  }

  lemma RowIsJoined(e: Entry)
    requires e.createdAt.Valid() && !NeedsQuotes(e.sha256)
    ensures Row(e) == JoinedRow(Fields(e))
  {
    DatesAreBare(e.createdAt);
    DecimalIsBare(e.size);
    JoinSix(FormatDate(e.createdAt), FormatTime(e.createdAt), e.device, Decimal(e.size), e.sha256, e.path);
    hide FormatDate, FormatTime, NeedsQuotes, DoubleQuotes;
  }

  lemma JoinSix(a: string, b: string, c: string, d: string, e: string, f: string)
    ensures JoinedRow([a, b, c, d, e, f]) ==
      CsvField(a) + "," + CsvField(b) + "," + CsvField(c) + "," + CsvField(d) + "," + CsvField(e) + ","
      + CsvField(f) + "\n"
  {
    hide CsvField, JoinedRow;
    var p1 := CsvField(a) + ",";
    var p2 := p1 + CsvField(b) + ",";
    var p3 := p2 + CsvField(c) + ",";
    var p4 := p3 + CsvField(d) + ",";
    var p5 := p4 + CsvField(e) + ",";
    assert [a] + [b, c, d, e, f] == [a, b, c, d, e, f] && [b] + [c, d, e, f] == [b, c, d, e, f];
    assert [c] + [d, e, f] == [c, d, e, f] && [d] + [e, f] == [d, e, f] && [e] + [f] == [e, f];
    JoinFirst("", a, [b, c, d, e, f]);
    assert "" + CsvField(a) == CsvField(a) && "" + JoinedRow([a, b, c, d, e, f]) == JoinedRow([a, b, c, d, e, f]);
    JoinFirst(p1, b, [c, d, e, f]);
    JoinFirst(p2, c, [d, e, f]);
    JoinFirst(p3, d, [e, f]);
    JoinFirst(p4, e, [f]);
    JoinLast(p5, f);
  }

  lemma JoinFirst(p: string, x: string, rest: seq<string>)
    requires rest != []
    ensures p + JoinedRow([x] + rest) == p + CsvField(x) + "," + JoinedRow(rest)
  {
    hide CsvField;
    var row := [x] + rest;
    assert row[1..] == rest && row[0] == x;
    ConcatAssoc(p, CsvField(x), "," + JoinedRow(rest));
    ConcatAssoc(p + CsvField(x), ",", JoinedRow(rest));
  }

  lemma JoinLast(p: string, x: string)
    ensures p + JoinedRow([x]) == p + CsvField(x) + "\n"
  {
    ConcatAssoc(p, CsvField(x), "\n");
  }

  lemma {:induction false} ReadRow(fields: seq<string>, rest: string, record: seq<string>, records: seq<seq<string>>)
    requires fields != []
    ensures Read(JoinedRow(fields) + rest, Start, "", record, records) ==
            Read(rest, Start, "", [], records + [record + fields])
    decreases |fields|
  {
    hide CsvField, Read;
    var f := fields[0];
    if |fields| == 1 {
      ConcatAssoc(CsvField(f), "\n", rest);
      ReadField(f, '\n', rest, record, records);
      assert fields == [f];
    } else {
      var tail := JoinedRow(fields[1..]);
      ConcatAssoc(CsvField(f), "," + tail, rest);
      ConcatAssoc(",", tail, rest);
      ReadField(f, ',', tail + rest, record, records);
      ReadRow(fields[1..], rest, record + [f], records);
      ConcatAssoc(record, [f], fields[1..]);
      assert fields == [f] + fields[1..];
    }
  }

  const HEADER_FIELDS: seq<string> := ["fecha_utc", "hora_utc", "equipo", "tamano_bytes", "sha256", "archivo"]

  function AllFields(es: seq<Entry>): seq<seq<string>>
    requires forall e <- es :: e.createdAt.Valid()
  {
    seq(|es|, i requires 0 <= i < |es| => Fields(es[i]))
  }

  lemma {:induction false} ReadRows(es: seq<Entry>, records: seq<seq<string>>)
    requires forall e <- es :: e.createdAt.Valid() && !NeedsQuotes(e.sha256)
    ensures Read(Rows(es), Start, "", [], records) == Some(records + AllFields(es))
    decreases |es|
  {
    hide Row, JoinedRow, NeedsQuotes, FormatDate, FormatTime, Decimal;
    if es == [] {
      assert records + AllFields(es) == records;
    } else {
      RowIsJoined(es[0]);
      ReadRow(Fields(es[0]), Rows(es[1..]), [], records);
      assert [] + Fields(es[0]) == Fields(es[0]);
      ReadRows(es[1..], records + [Fields(es[0])]);
      assert AllFields(es) == [Fields(es[0])] + AllFields(es[1..]);
      ConcatAssoc(records, [Fields(es[0])], AllFields(es[1..]));
    }
  }

  lemma HeaderFieldsAreBare()
    ensures forall f <- HEADER_FIELDS :: !NeedsQuotes(f)
  {
    forall f <- HEADER_FIELDS ensures !NeedsQuotes(f) {
      assert forall c <- f :: c == '_' || '0' <= c <= '9' || 'a' <= c <= 'z';
    }
  }

  lemma HeaderIsJoined()
    ensures HEADER == JoinedRow(HEADER_FIELDS)
  {
    HeaderFieldsAreBare();
    JoinSix("fecha_utc", "hora_utc", "equipo", "tamano_bytes", "sha256", "archivo");
    hide NeedsQuotes, DoubleQuotes, JoinedRow;
    forall f <- HEADER_FIELDS ensures CsvField(f) == f {
    }
    HeaderText();
  }

  lemma HeaderText()
    ensures HEADER == "fecha_utc" + "," + "hora_utc" + "," + "equipo" + "," + "tamano_bytes" + "," + "sha256" + ","
                    + "archivo" + "\n"
  {
    assert "fecha_utc" + "," + "hora_utc" == "fecha_utc,hora_utc";
    assert "fecha_utc,hora_utc" + "," + "equipo" == "fecha_utc,hora_utc,equipo";
    assert "fecha_utc,hora_utc,equipo" + "," + "tamano_bytes" == "fecha_utc,hora_utc,equipo,tamano_bytes";
    assert "fecha_utc,hora_utc,equipo,tamano_bytes" + "," + "sha256" == "fecha_utc,hora_utc,equipo,tamano_bytes,sha256";
    assert "fecha_utc,hora_utc,equipo,tamano_bytes,sha256" + "," + "archivo" + "\n" == HEADER;
  }

  /** Reading the export gives back the header and every field of every row, whatever the
      device and file names contain, as long as the hashes need no quotes. */
  lemma CsvRoundTrip(es: seq<Entry>)
    requires forall e <- es :: e.createdAt.Valid() && !NeedsQuotes(e.sha256)
    ensures var r := ReadCsv(HEADER + Rows(es));
            && r.Some? && |r.value| == 1 + |es| && r.value[0] == HEADER_FIELDS
            && forall i :: 0 <= i < |es| ==> Tells(r.value[1 + i], es[i])
  {
    hide *;
    RowsRead(es);
    AllTell(es);
    RecordsTell([HEADER_FIELDS] + AllFields(es), HEADER_FIELDS, AllFields(es), es);
  }

  lemma RecordsTell(r: seq<seq<string>>, header: seq<string>, fields: seq<seq<string>>, es: seq<Entry>)
    requires r == [header] + fields && |fields| == |es|
    requires forall i :: 0 <= i < |es| ==> Tells(fields[i], es[i])
    ensures |r| == 1 + |es| && r[0] == header && forall i :: 0 <= i < |es| ==> Tells(r[1 + i], es[i])
  {
    hide Tells;
    assert forall i :: 0 <= i < |es| ==> r[1 + i] == fields[i];
  }

  lemma AllTell(es: seq<Entry>)
    requires forall e <- es :: e.createdAt.Valid()
    ensures |AllFields(es)| == |es| && forall i :: 0 <= i < |es| ==> Tells(AllFields(es)[i], es[i])
  {
    hide Tells, Fields, DateTime.Valid;
    forall i | 0 <= i < |es| ensures Tells(AllFields(es)[i], es[i]) {
      FieldsTell(es[i]);
    }
  }

  function ReadNumber(s: string): int {
    if s == "" then 0 else 10 * ReadNumber(s[..|s| - 1]) + DigitValue(s[|s| - 1])
  }

  lemma {:induction false} DecimalReads(n: nat)
    ensures Decimal(n) != "" && ReadNumber(Decimal(n)) == n
    ensures n > 0 ==> Decimal(n)[0] != '0'
  {
    if n < 10 {
      assert Decimal(n)[..0] == "";
    } else {
      DecimalReads(n / 10);
      var s := Decimal(n / 10);
      assert (s + [Digit(n % 10)])[..|s|] == s;
    }
  }

  /** A record with the day and time of the backup, its device, size, hash and file, in this
      order. */
  predicate Tells(r: seq<string>, e: Entry) {
    && |r| == 6 && |r[0]| == 10 && |r[1]| == 8
    && r[0][4] == '-' && r[0][7] == '-' && r[1][2] == ':' && r[1][5] == ':'
    && TwoValue(r[0], 0) * 100 + TwoValue(r[0], 2) == e.createdAt.year
    && TwoValue(r[0], 5) == e.createdAt.month && TwoValue(r[0], 8) == e.createdAt.day
    && TwoValue(r[1], 0) == e.createdAt.hour && TwoValue(r[1], 3) == e.createdAt.minute
    && TwoValue(r[1], 6) == e.createdAt.second
    && r[2] == e.device && ReadNumber(r[3]) == e.size && r[4] == e.sha256 && r[5] == e.path
  }

  lemma FieldsTell(e: Entry)
    requires e.createdAt.Valid()
    ensures Tells(Fields(e), e)
  {
    TextsRead(e.createdAt);
    DecimalReads(e.size);
    hide FormatDate, FormatTime, TwoValue, ReadNumber, Decimal;
  }

  lemma RowsRead(es: seq<Entry>)
    requires forall e <- es :: e.createdAt.Valid() && !NeedsQuotes(e.sha256)
    ensures ReadCsv(HEADER + Rows(es)) == Some([HEADER_FIELDS] + AllFields(es))
  {
    hide Rows, Read, AllFields, JoinedRow, NeedsQuotes;
    HeaderIsJoined();
    ReadRow(HEADER_FIELDS, Rows(es), [], []);
    assert [] + HEADER_FIELDS == HEADER_FIELDS && [] + [HEADER_FIELDS] == [HEADER_FIELDS];
    ReadRows(es, [HEADER_FIELDS]);
  }

  predicate IsHexHash(s: string) {
    forall c <- s :: '0' <= c <= '9' || 'a' <= c <= 'f'
  }

  /** In particular for hexadecimal hashes, which are all the program computes. */
  lemma HexCsvRoundTrip(es: seq<Entry>)
    requires forall e <- es :: e.createdAt.Valid() && IsHexHash(e.sha256)
    ensures var r := ReadCsv(HEADER + Rows(es));
            && r.Some? && |r.value| == 1 + |es| && r.value[0] == HEADER_FIELDS
            && forall i :: 0 <= i < |es| ==> Tells(r.value[1 + i], es[i])
  {
    forall e <- es ensures !NeedsQuotes(e.sha256) {
      assert IsHexHash(e.sha256);
    }
    CsvRoundTrip(es);
  }

  // ----- Months -----

  /** Months counted from January of year 0. */
  function MonthNumber(year: int, month: int): int {
    12 * year + month - 1
  }

  function StartOf(k: int): int {
    DayNumber(k / 12, k % 12 + 1, 1) * DAY
  }

  lemma NumberedMonth(year: int, month: int)
    requires 1 <= month <= 12
    ensures var k := MonthNumber(year, month); k / 12 == year && k % 12 + 1 == month
    ensures var (ny, nm) := NextMonth(year, month); MonthNumber(ny, nm) == MonthNumber(year, month) + 1 && 1 <= nm <= 12
  {
  }

  /** A month ends where the next begins, between 28 and 31 days later. */
  lemma MonthLength(k: int)
    ensures StartOf(k + 1) == StartOf(k) + DaysInMonth(k / 12, k % 12 + 1) * DAY
  {
    var y, m := k / 12, k % 12 + 1;
    assert k == 12 * y + (m - 1);
    if m == 12 {
      assert (k + 1) / 12 == y + 1 && (k + 1) % 12 == 0;
      MonthsFillYear(y);
      assert DaysBeforeMonth(y, 13) == DaysBeforeMonth(y, 12) + DaysInMonth(y, 12);
    } else {
      assert (k + 1) / 12 == y && (k + 1) % 12 + 1 == m + 1;
      assert DaysBeforeMonth(y, m + 1) == DaysBeforeMonth(y, m) + DaysInMonth(y, m);
    }
  }

  lemma {:induction false} StartsIncrease(j: int, k: int)
    requires j < k
    ensures StartOf(j) < StartOf(k)
    decreases k - j
  {
    hide StartOf, DaysInMonth;
    MonthLength(k - 1);
    if j < k - 1 { StartsIncrease(j, k - 1); }
  }

  /** As long as the next month is still in the supported years, a month's bounds do not
      depend on the clock, its end is the next month's start, and it is not empty. */
  lemma MonthsTile(year: int, month: int, now: int, now': int)
    requires 1 <= month <= 12 && MIN_YEAR <= year && NextMonth(year, month).0 <= MAX_YEAR
    ensures var (ny, nm) := NextMonth(year, month);
            && MonthBounds(year, month, now).1 == MonthBounds(ny, nm, now').0
            && MonthBounds(year, month, now).0 < MonthBounds(year, month, now).1
            && MonthBounds(year, month, now) ==
              (StartOf(MonthNumber(year, month)), StartOf(MonthNumber(year, month) + 1))
  {
    hide DayNumber;
    NumberedMonth(year, month);
    var (ny, nm) := NextMonth(year, month);
    NumberedMonth(ny, nm);
    StartsIncrease(MonthNumber(year, month), MonthNumber(year, month) + 1);
  }

  lemma InItsMonth(t: DateTime)
    requires t.Valid()
    ensures var k := MonthNumber(t.year, t.month); StartOf(k) <= t.Instant() < StartOf(k + 1)
  {
    hide StartOf, MonthNumber, DayNumber, TimeOfDay, DaysInMonth, DateTime.Instant;
    MonthInDays(t.year, t.month);
    TimeOfDayInjective(t, t);
    InstantSplits(t);
    DayOfMonth(t.year, t.month, t.day);
    DaysFit(DayNumber(t.year, t.month, 1), t.day, DaysInMonth(t.year, t.month), TimeOfDay(t));
  }

  lemma MonthInDays(year: int, month: int)
    requires 1 <= month <= 12
    ensures var k, first := MonthNumber(year, month), DayNumber(year, month, 1);
            StartOf(k) == first * DAY && StartOf(k + 1) == first * DAY + DaysInMonth(year, month) * DAY
  {
    NumberedMonth(year, month);
    MonthLength(MonthNumber(year, month));
    hide DayNumber, DaysInMonth;
  }

  lemma DayOfMonth(year: int, month: int, day: int)
    ensures DayNumber(year, month, day) == DayNumber(year, month, 1) + (day - 1)
  {
  }

  lemma DaysFit(first: int, day: int, length: int, time: int)
    requires 1 <= day <= length && 0 <= time < DAY
    ensures first * DAY <= (first + (day - 1)) * DAY + time < first * DAY + length * DAY
  {
  }

  /** Every backup time lies in the report of its own month and of no other. */
  lemma ExactlyOneMonth(t: DateTime, k: int)
    requires t.Valid()
    ensures StartOf(k) <= t.Instant() < StartOf(k + 1) <==> k == MonthNumber(t.year, t.month)
  {
    InItsMonth(t);
    hide StartOf, DateTime.Instant;
    var m := MonthNumber(t.year, t.month);
    if k < m {
      if k + 1 < m { StartsIncrease(k + 1, m); }
    } else if m < k {
      if m + 1 < k { StartsIncrease(m + 1, k); }
    }
  }

  function MonthlyTotal(es: seq<Entry>, lo: int, hi: int): nat
    requires lo <= hi
    decreases hi - lo
  {
    if lo == hi then 0 else MonthlyTotal(es, lo, hi - 1) + |EntriesInMonth(es, StartOf(hi - 1), StartOf(hi))|
  }

  lemma {:induction false} FilterSplits(es: seq<Entry>, a: int, b: int, c: int)
    requires a <= b <= c
    ensures |Filtered(es, a, b)| + |Filtered(es, b, c)| == |Filtered(es, a, c)|
  {
    hide Entry.Time;
    if es != [] { FilterSplits(es[1..], a, b, c); }
  }

  lemma {:induction false} EmptyRange(es: seq<Entry>, a: int)
    ensures Filtered(es, a, a) == []
  {
    hide Entry.Time;
    if es != [] { EmptyRange(es[1..], a); }
  }

  lemma {:induction false} MonthsAdd(es: seq<Entry>, lo: int, hi: int)
    requires lo <= hi
    ensures MonthlyTotal(es, lo, hi) == |Filtered(es, StartOf(lo), StartOf(hi))|
    decreases hi - lo
  {
    hide StartOf, Entry.Time;
    if lo == hi {
      EmptyRange(es, StartOf(lo));
    } else {
      MonthsAdd(es, lo, hi - 1);
      StartsIncrease(hi - 1, hi);
      if lo < hi - 1 { StartsIncrease(lo, hi - 1); }
      FilterSplits(es, StartOf(lo), StartOf(hi - 1), StartOf(hi));
      SameCount(Filtered(es, StartOf(hi - 1), StartOf(hi)));
    }
  }

  lemma SameCount(es: seq<Entry>)
    ensures |SortForReport(es)| == |es|
  {
    assert |multiset(SortForReport(es))| == |multiset(es)|;
  }

  lemma {:induction false} AllInRange(es: seq<Entry>, a: int, b: int)
    requires forall e <- es :: a <= e.Time() < b
    ensures Filtered(es, a, b) == es
  {
    hide Entry.Time;
    if es != [] {
      AllInRange(es[1..], a, b);
      assert es[0] in es && es == [es[0]] + es[1..];
    }
  }

  /** The monthly reports of any span of months that takes in all four-digit years count
      every stored backup once. */
  lemma MonthlyReportsCountEverything(es: seq<Entry>, lo: int, hi: int)
    requires forall e <- es :: e.createdAt.Valid()
    requires lo <= MonthNumber(0, 1) && MonthNumber(9999, 12) < hi
    ensures MonthlyTotal(es, lo, hi) == |es|
  {
    hide StartOf, MonthlyTotal, DateTime.Instant;
    MonthsAdd(es, lo, hi);
    forall e <- es ensures StartOf(lo) <= e.Time() < StartOf(hi) {
      var k := MonthNumber(e.createdAt.year, e.createdAt.month);
      InItsMonth(e.createdAt);
      if lo < k { StartsIncrease(lo, k); }
      if k + 1 < hi { StartsIncrease(k + 1, hi); }
    }
    AllInRange(es, StartOf(lo), StartOf(hi));
  }

  // ----- The order of a report -----

  ghost predicate InReportOrder(es: seq<Entry>) {
    forall i, j :: 0 <= i < j < |es| ==> ReportOrder(es[i], es[j])
  }

  /** The order of byte strings: a prefix comes first, or the smaller byte at the first
      difference. */
  ghost predicate BytesLe(x: Bytes, y: Bytes) {
    x <= y || exists i: nat :: FirstDiffers(x, y, i)
  }

  ghost predicate FirstDiffers(x: Bytes, y: Bytes, i: nat) {
    i < |x| && i < |y| && x[i] < y[i] && forall j :: 0 <= j < i ==> x[j] == y[j]
  }

  /** Numbers in order have their digits to base 64 in order. */
  lemma Digits(m: int, n: int)
    requires 0 <= m < n
    ensures m / 0x40 <= n / 0x40
    ensures m / 0x40 == n / 0x40 ==> m % 0x40 < n % 0x40
  {
  }

  lemma TwoInOrder(a: char, b: char) returns (i: nat)
    requires 0x80 <= a as int < b as int < 0x800
    ensures FirstDiffers(EncodeChar(a), EncodeChar(b), i)
  {
    Digits(a as int, b as int);
    i := if a as int / 0x40 != b as int / 0x40 then 0 else 1;
  }

  lemma ThreeInOrder(a: char, b: char) returns (i: nat)
    requires 0x800 <= a as int < b as int < 0x1_0000
    ensures FirstDiffers(EncodeChar(a), EncodeChar(b), i)
  {
    var m, n := a as int / 0x40, b as int / 0x40;
    assert m / 0x40 == a as int / 0x1000 && n / 0x40 == b as int / 0x1000;
    Digits(a as int, b as int);
    if m < n { Digits(m, n); }
    i := if m / 0x40 != n / 0x40 then 0 else if m != n then 1 else 2;
  }

  lemma FourInOrder(a: char, b: char) returns (i: nat)
    requires 0x1_0000 <= a as int < b as int
    ensures FirstDiffers(EncodeChar(a), EncodeChar(b), i)
  {
    var m, n := a as int / 0x40, b as int / 0x40;
    var p, q := m / 0x40, n / 0x40;
    assert p == a as int / 0x1000 && q == b as int / 0x1000;
    assert p / 0x40 == a as int / 0x4_0000 && q / 0x40 == b as int / 0x4_0000;
    Digits(a as int, b as int);
    if m < n { Digits(m, n); }
    if p < q { Digits(p, q); }
    i := if p / 0x40 != q / 0x40 then 0 else if p != q then 1 else if m != n then 2 else 3;
  }

  lemma CharsInByteOrder(a: char, b: char) returns (i: nat)
    requires a < b
    ensures FirstDiffers(EncodeChar(a), EncodeChar(b), i)
  {
    i := 0;
    if 0x80 <= a as int < b as int < 0x800 {
      i := TwoInOrder(a, b);
    } else if 0x800 <= a as int < b as int < 0x1_0000 {
      i := ThreeInOrder(a, b);
    } else if 0x1_0000 <= a as int {
      i := FourInOrder(a, b);
    }
  }

  lemma SameStart(p: Bytes, x: Bytes, y: Bytes)
    ensures BytesLe(p + x, p + y) <==> BytesLe(x, y)
  {
    var px, py := p + x, p + y;
    assert px[|p|..] == x && py[|p|..] == y;
    if i: nat :| FirstDiffers(x, y, i) {
      assert FirstDiffers(px, py, |p| + i);
    }
    if i: nat :| FirstDiffers(px, py, i) {
      assert forall j :: 0 <= j < |p| ==> px[j] == py[j];
      assert i >= |p| && FirstDiffers(x, y, i - |p|) by {
        assert forall j :: 0 <= j < i - |p| ==> x[j] == px[|p| + j] && y[j] == py[|p| + j];
      }
    }
  }

  lemma DifferentStart(p: Bytes, q: Bytes, x: Bytes, y: Bytes, i: nat)
    requires FirstDiffers(p, q, i)
    ensures BytesLe(p + x, q + y) && !BytesLe(q + y, p + x)
  {
    var px, qy := p + x, q + y;
    assert FirstDiffers(px, qy, i);
    assert px[i] == p[i] && qy[i] == q[i] && forall j :: 0 <= j < i ==> px[j] == qy[j];
  }

  /** Comparing names by code points is comparing their UTF-8 bytes. */
  lemma {:induction false} StringLeIsByteOrder(a: string, b: string)
    ensures StringLe(a, b) <==> BytesLe(Encode(a), Encode(b))
  {
    hide BytesLe, FirstDiffers, EncodeChar;
    if a == "" || b == "" {
      EmptyFirst(Encode(a), Encode(b));
    } else if a[0] == b[0] {
      StringLeIsByteOrder(a[1..], b[1..]);
      SameStart(EncodeChar(a[0]), Encode(a[1..]), Encode(b[1..]));
    } else if a[0] < b[0] {
      var i := CharsInByteOrder(a[0], b[0]);
      DifferentStart(EncodeChar(a[0]), EncodeChar(b[0]), Encode(a[1..]), Encode(b[1..]), i);
    } else {
      var i := CharsInByteOrder(b[0], a[0]);
      DifferentStart(EncodeChar(b[0]), EncodeChar(a[0]), Encode(b[1..]), Encode(a[1..]), i);
    }
  }

  lemma EmptyFirst(x: Bytes, y: Bytes)
    requires x == [] || y == []
    ensures BytesLe(x, y) <==> x == []
  {
  }

  lemma {:induction false} StringLeTotal(a: string, b: string)
    ensures StringLe(a, b) || StringLe(b, a)
  {
    if a != "" && b != "" && a[0] == b[0] { StringLeTotal(a[1..], b[1..]); }
  }

  lemma {:induction false} StringLeTransitive(a: string, b: string, c: string)
    requires StringLe(a, b) && StringLe(b, c)
    ensures StringLe(a, c)
  {
    if a != "" && a[0] == b[0] == c[0] { StringLeTransitive(a[1..], b[1..], c[1..]); }
  }

  lemma {:induction false} InsertKeepsOrder(e: Entry, es: seq<Entry>)
    requires InReportOrder(es)
    ensures InReportOrder(InsertForReport(e, es))
  {
    hide Entry.Time, StringLe;
    if es != [] {
      StringLeTotal(e.device, es[0].device);
      if ReportOrder(e, es[0]) {
        forall j | 0 < j < |es| ensures ReportOrder(e, es[j]) {
          assert ReportOrder(es[0], es[j]);
          if e.Time() == es[0].Time() == es[j].Time() {
            StringLeTransitive(e.device, es[0].device, es[j].device);
          }
        }
      } else {
        var r := InsertForReport(e, es[1..]);
        InsertKeepsOrder(e, es[1..]);
        forall x <- r ensures ReportOrder(es[0], x) {
          assert x in multiset(r);
          assert x == e || x in es[1..];
        }
      }
    }
  }

  /** A report lists exactly the backups of its month, by time and then device. */
  lemma {:induction false} ReportIsOrdered(es: seq<Entry>)
    ensures InReportOrder(SortForReport(es))
  {
    if es != [] {
      ReportIsOrdered(es[1..]);
      InsertKeepsOrder(es[0], SortForReport(es[1..]));
    }
  }

  lemma {:induction false} FilteredExactly(es: seq<Entry>, a: int, b: int, e: Entry)
    ensures multiset(Filtered(es, a, b))[e] == if a <= e.Time() < b then multiset(es)[e] else 0
  {
    hide Entry.Time;
    if es != [] {
      FilteredExactly(es[1..], a, b, e);
      assert es == [es[0]] + es[1..];
    }
  }

  lemma ReportIsExact(all: seq<Entry>, start: int, end: int)
    ensures var es := EntriesInMonth(all, start, end);
            forall i, j :: 0 <= i < j < |es| ==>
              es[i].Time() < es[j].Time() || (es[i].Time() == es[j].Time() && StringLe(es[i].device, es[j].device))
    ensures forall e: Entry ::
      multiset(EntriesInMonth(all, start, end))[e] == if start <= e.Time() < end then multiset(all)[e] else 0
  {
    ReportIsOrdered(Filtered(all, start, end));
    forall e: Entry
      ensures multiset(EntriesInMonth(all, start, end))[e] == if start <= e.Time() < end then multiset(all)[e] else 0
    {
      FilteredExactly(all, start, end, e);
    }
  }
}
