/** The CSV writer, and a reader for section 2 of RFC 4180 that ends records only on CRLF. */
module Csv {
  import opened Text

  // ---- writing ----

  predicate NeedsQuotes(s: string) {
    '"' in s || ',' in s || '\n' in s
  }

  function Escape(s: string): string {
    if s == "" then "" else Escape(s[..|s| - 1]) + if s[|s| - 1] == '"' then "\"\"" else [s[|s| - 1]]
  }

  function Cell(s: string): string {
    if NeedsQuotes(s) then "\"" + Escape(s) + "\"" else s
  }

  function Cells(row: seq<string>): seq<string> {
    seq(|row|, i requires 0 <= i < |row| => Cell(row[i]))
  }

  function Lines(rows: seq<seq<string>>): seq<string> {
    seq(|rows|, i requires 0 <= i < |rows| => Join(Cells(rows[i]), ","))
  }

  function Print(rows: seq<seq<string>>): string {
    Join(Lines(rows), "\r\n")
  }

  // ---- reading ----

  datatype Mode = Fresh | Plain | Quoted | Closed | ClosedCR

  datatype Reader = Bad | Reader(records: seq<seq<string>>, fields: seq<string>, cur: string, mode: Mode)

  function EndField(r: Reader, value: string): Reader
    requires r.Reader?
  {
    Reader(r.records, r.fields + [value], "", Fresh)
  }

  function EndRecord(r: Reader, value: string): Reader
    requires r.Reader?
  {
    Reader(r.records + [r.fields + [value]], [], "", Fresh)
  }

  function Feed(r: Reader, c: char): Reader {
    match r
    case Bad => Bad
    case Reader(_, _, cur, Fresh) =>
      if c == '"' then r.(mode := Quoted) else if c == ',' then EndField(r, "") else r.(cur := [c], mode := Plain)
    case Reader(_, _, cur, Plain) =>
      if c == ',' then EndField(r, cur)
      else if c == '"' then Bad
      else if c == '\n' && cur != "" && cur[|cur| - 1] == '\r' then EndRecord(r, cur[..|cur| - 1])
      else r.(cur := cur + [c])
    case Reader(_, _, cur, Quoted) =>
      if c == '"' then r.(mode := Closed) else r.(cur := cur + [c])
    case Reader(_, _, cur, Closed) =>
      if c == '"' then r.(cur := cur + [c], mode := Quoted)
      else if c == ',' then EndField(r, cur)
      else if c == '\r' then r.(mode := ClosedCR)
      else Bad
    case Reader(_, _, cur, ClosedCR) => if c == '\n' then EndRecord(r, cur) else Bad
  }

  function FeedAll(r: Reader, s: string): Reader {
    if s == "" then r else Feed(FeedAll(r, s[..|s| - 1]), s[|s| - 1])
  }

  datatype Parsed = Malformed | Rows(rows: seq<seq<string>>)

  /** The last record may or may not be followed by a line break. */
  function Finish(r: Reader): Parsed {
    match r
    case Bad => Malformed
    case Reader(records, fields, cur, mode) =>
      if mode == Quoted || mode == ClosedCR then Malformed
      else if mode == Fresh && fields == [] && records != [] then Rows(records)
      else Rows(records + [fields + [cur]])
  }

  function Parse(s: string): Parsed {
    Finish(FeedAll(Reader([], [], "", Fresh), s))
  }

  // ---- one cell ----

  lemma {:induction false} FeedConcat(r: Reader, s: string, t: string)
    ensures FeedAll(r, s + t) == FeedAll(FeedAll(r, s), t)
  {
    if t == "" {
      assert s + t == s;
    } else {
      assert (s + t)[..|s + t| - 1] == s + t[..|t| - 1];
      FeedConcat(r, s, t[..|t| - 1]);
    }
  }

  lemma FeedOne(r: Reader, c: char)
    ensures FeedAll(r, [c]) == Feed(r, c)
  {
    assert [c][..0] == "";
  }

  lemma {:induction false} FeedPlain(r: Reader, s: string)
    requires r.Reader? && r.mode == Fresh && r.cur == "" && s != "" && !NeedsQuotes(s)
    ensures FeedAll(r, s) == r.(cur := s, mode := Plain)
  {
    var init, c := s[..|s| - 1], s[|s| - 1];
    assert s == init + [c] && c in s;
    assert c != '"' && c != ',' && c != '\n';
    if init != "" {
      assert forall d | d in init :: d in s;
      FeedPlain(r, init);
      assert FeedAll(r, s) == Feed(r.(cur := init, mode := Plain), c);
      hide FeedAll;
    } else {
      assert FeedAll(r, init) == r;
      hide FeedAll;
    }
  }

  lemma {:induction false} FeedEscaped(r: Reader, s: string)
    requires r.Reader? && r.mode == Quoted
    ensures FeedAll(r, Escape(s)) == r.(cur := r.cur + s)
  {
    if s == "" {
      assert r.cur + s == r.cur;
    } else {
      var init, c := s[..|s| - 1], s[|s| - 1];
      FeedEscaped(r, init);
      assert r.cur + init + [c] == r.cur + s;
      if c == '"' {
        assert Escape(s) == Escape(init) + ['"'] + ['"'];
        FeedConcat(r, Escape(init) + ['"'], ['"']);
        FeedConcat(r, Escape(init), ['"']);
        FeedOne(r.(cur := r.cur + init), '"');
        FeedOne(r.(cur := r.cur + init, mode := Closed), '"');
      } else {
        FeedConcat(r, Escape(init), [c]);
        FeedOne(r.(cur := r.cur + init), c);
      }
    }
  }

  /** The reader has just read a whole cell of value `v`. */
  predicate ReadCell(r: Reader, records: seq<seq<string>>, fields: seq<string>, v: string) {
    && r.Reader? && r.records == records && r.fields == fields && r.cur == v
    && (r.mode == Closed || (r.mode == Fresh && v == "") || (r.mode == Plain && v != ""))
  }

  lemma FeedCell(records: seq<seq<string>>, fields: seq<string>, v: string)
    ensures ReadCell(FeedAll(Reader(records, fields, "", Fresh), Cell(v)), records, fields, v)
  {
    var r := Reader(records, fields, "", Fresh);
    if NeedsQuotes(v) {
      FeedConcat(r, ['"'] + Escape(v), ['"']);
      FeedConcat(r, ['"'], Escape(v));
      FeedOne(r, '"');
      FeedEscaped(r.(mode := Quoted), v);
      assert "" + v == v;
      FeedOne(r.(mode := Quoted, cur := v), '"');
      assert Cell(v) == ['"'] + Escape(v) + ['"'];
    } else if v != "" {
      FeedPlain(r, v);
    }
  }

  lemma AfterCell(r: Reader, records: seq<seq<string>>, fields: seq<string>, v: string)
    requires ReadCell(r, records, fields, v)
    ensures FeedAll(r, ",") == Reader(records, fields + [v], "", Fresh)
    ensures FeedAll(r, "\r\n") == Reader(records + [fields + [v]], [], "", Fresh)
  {
    FeedOne(r, ',');
    assert "\r\n" == ['\r'] + ['\n'];
    FeedConcat(r, ['\r'], ['\n']);
    FeedOne(r, '\r');
    FeedOne(Feed(r, '\r'), '\n');
    assert (v + ['\r'])[..|v|] == v;
  }

  // ---- a row, then all rows ----

  ghost predicate NoEmptyRow(rows: seq<seq<string>>) {
    forall i | 0 <= i < |rows| :: rows[i] != []
  }

  lemma RowSplit(row: seq<string>)
    requires |row| > 1
    ensures Join(Cells(row), ",") == Cell(row[0]) + "," + Join(Cells(row[1..]), ",")
  {
    hide Cell;
    assert Cells(row)[1..] == Cells(row[1..]);
  }

  lemma RowAlone(v: string)
    ensures Join(Cells([v]), ",") == Cell(v)
  {
  }

  lemma PrintSplit(rows: seq<seq<string>>)
    requires |rows| > 1
    ensures Print(rows) == Join(Cells(rows[0]), ",") + "\r\n" + Print(rows[1..])
  {
    hide Cells;
    assert Lines(rows)[1..] == Lines(rows[1..]);
  }

  lemma PrintAlone(row: seq<string>)
    ensures Print([row]) == Join(Cells(row), ",")
  {
  }

  lemma {:induction false} FeedRow(records: seq<seq<string>>, fields: seq<string>, row: seq<string>)
    requires row != []
    ensures ReadCell(FeedAll(Reader(records, fields, "", Fresh), Join(Cells(row), ",")),
                     records, fields + row[..|row| - 1], row[|row| - 1])
    decreases |row|
  {
    hide ReadCell, FeedAll, Feed, Join, Cells, Cell;
    var r, rest := Reader(records, fields, "", Fresh), row[1..];
    FeedCell(records, fields, row[0]);
    if rest == [] {
      assert fields + row[..0] == fields && row == [row[0]];
      RowAlone(row[0]);
    } else {
      RowSplit(row);
      FeedConcat(r, Cell(row[0]) + ",", Join(Cells(rest), ","));
      FeedConcat(r, Cell(row[0]), ",");
      AfterCell(FeedAll(r, Cell(row[0])), records, fields, row[0]);
      FeedRow(records, fields + [row[0]], rest);
      assert fields + [row[0]] + rest[..|rest| - 1] == fields + row[..|row| - 1];
    }
  }

  /** A row and the line break after it. */
  lemma FeedLine(records: seq<seq<string>>, row: seq<string>, tail: string)
    requires row != []
    ensures FeedAll(Reader(records, [], "", Fresh), Join(Cells(row), ",") + "\r\n" + tail)
         == FeedAll(Reader(records + [row], [], "", Fresh), tail)
  {
    hide ReadCell, FeedAll, Feed, Join, Cells;
    var r, line, n := Reader(records, [], "", Fresh), Join(Cells(row), ","), |row| - 1;
    FeedRow(records, [], row);
    assert [] + row[..n] == row[..n] && row[..n] + [row[n]] == row;
    FeedConcat(r, line + "\r\n", tail);
    FeedConcat(r, line, "\r\n");
    AfterCell(FeedAll(r, line), records, row[..n], row[n]);
  }

  lemma {:induction false} FeedRows(records: seq<seq<string>>, rows: seq<seq<string>>)
    requires rows != [] && NoEmptyRow(rows)
    ensures var n := |rows| - 1;
            FeedAll(Reader(records, [], "", Fresh), Print(rows)) ==
            FeedAll(Reader(records + rows[..n], [], "", Fresh), Join(Cells(rows[n]), ","))
    decreases |rows|
  {
    hide FeedAll, Print, Join, Cells;
    var rest := rows[1..];
    if rest == [] {
      assert records + rows[..0] == records && rows == [rows[0]];
      PrintAlone(rows[0]);
    } else {
      PrintSplit(rows);
      FeedLine(records, rows[0], Print(rest));
      FeedRows(records + [rows[0]], rest);
      assert records + [rows[0]] + rest[..|rest| - 1] == records + rows[..|rows| - 1];
    }
  }

  /** Main: whatever quotes, commas, newlines or bare carriage returns the fields hold, reading back
      what was printed gives the same rows; only a last row of one empty field, which prints as
      nothing after the line break before it, is taken for the end of the file. */
  lemma ReadBack(rows: seq<seq<string>>)
    requires rows != [] && NoEmptyRow(rows)
    ensures Parse(Print(rows)) == Rows(rows) <==> |rows| == 1 || rows[|rows| - 1] != [""]
    ensures |rows| > 1 && rows[|rows| - 1] == [""] ==> Parse(Print(rows)) == Rows(rows[..|rows| - 1])
  {
    hide FeedAll, Print, Join, Cells;
    var n := |rows| - 1;
    var init, last := rows[..n], rows[n];
    FeedRows([], rows);
    assert [] + init == init && init + [last] == rows;
    if last == [""] {
      RowAlone("");
      NothingFed(Reader(init, [], "", Fresh));
      var none: seq<string> := [];
      assert none + [""] == [""] && init + [none + [""]] == rows && init != rows;
    } else {
      FeedRow(init, [], last);
      assert [] + last[..|last| - 1] + [last[|last| - 1]] == last;
    }
  }

  lemma NothingFed(r: Reader)
    ensures FeedAll(r, Cell("")) == r
  {
  }

  // ---- the priority report ----

  datatype ReportHost = ReportHost(
    ip: string, hostname: string, cidr: string, level: string, reasons: seq<string>, mac: string, vendor: string)

  const HEADER := ["IP", "Hostname", "Subnet", "Risk Level", "Findings", "MAC", "Vendor"]

  function ReportRow(h: ReportHost): seq<string> {
    [h.ip, h.hostname, h.cidr, h.level, Join(h.reasons, "; "), h.mac, h.vendor]
  }

  function ReportRows(hosts: seq<ReportHost>): seq<seq<string>> {
    [HEADER] + seq(|hosts|, i requires 0 <= i < |hosts| => ReportRow(hosts[i]))
  }

  function BuildPriorityReportCsv(hosts: seq<ReportHost>): string {
    Print(ReportRows(hosts))
  }

  /** Main: the report reads back as its header and one row per host, for every host. */
  lemma ReportReadsBack(hosts: seq<ReportHost>)
    ensures Parse(BuildPriorityReportCsv(hosts)) == Rows(ReportRows(hosts))
    ensures |ReportRows(hosts)| == |hosts| + 1
    ensures ReportRows(hosts)[0] == ["IP", "Hostname", "Subnet", "Risk Level", "Findings", "MAC", "Vendor"]
    ensures forall i | 0 <= i < |hosts| ::
              ReportRows(hosts)[i + 1] ==
                [hosts[i].ip, hosts[i].hostname, hosts[i].cidr, hosts[i].level, Join(hosts[i].reasons, "; "),
                 hosts[i].mac, hosts[i].vendor]
  {
    var rows := ReportRows(hosts);
    forall i | 0 <= i < |rows| ensures |rows[i]| == 7 {}
    ReadBack(rows);
  }
}
