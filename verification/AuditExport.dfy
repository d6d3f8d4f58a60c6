/**
  CSV export, and a reader for it (section 2 of RFC 4180) that accepts a line feed as well as a carriage return
  and a line feed at the end of a record.
 */
module AuditExport {
  import opened Common
  import opened Strings
  import opened AuditLog

  // ---------------------------------------------------------------------------------------------
  // Export
  // ---------------------------------------------------------------------------------------------

  /** The header row `id,timestamp,actor,kind,data_summary,destination,pii_flag`. */
  const CSV_HEADER := "id" + "," + HEADER_2
  const HEADER_2 := "timestamp" + "," + HEADER_3
  const HEADER_3 := "actor" + "," + HEADER_4
  const HEADER_4 := "kind" + "," + HEADER_5
  const HEADER_5 := "data_summary" + "," + HEADER_6
  const HEADER_6 := "destination" + "," + HEADER_7
  const HEADER_7 := "pii_flag"

  predicate IsSpecial(c: char) {
    c == ',' || c == '"' || c == '\n' || c == '\r'
  }

  function DoubleQuotes(s: string): string {
    if s == [] then [] else (if s[0] == '"' then "\"\"" else [s[0]]) + DoubleQuotes(s[1..])
  }

  predicate NeedsQuotes(s: string) {
    exists k :: 0 <= k < |s| && IsSpecial(s[k])
  }

  function CsvEscape(s: string): string {
    if NeedsQuotes(s) then "\"" + DoubleQuotes(s) + "\"" else s
  }

  function BoolText(b: bool): string {
    if b then "true" else "false"
  }

  function RowText(e: AuditEvent): string {
    CsvEscape(e.id) + "," + CsvEscape(e.timestamp) + "," + CsvEscape(e.actor) + "," + CsvEscape(e.kind.AsStr()) + ","
    + CsvEscape(e.dataSummary) + "," + CsvEscape(e.destination) + "," + BoolText(e.piiFlag)
  }

  function Rows(events: seq<AuditEvent>): seq<string> {
    if events == [] then [] else [RowText(events[0])] + Rows(events[1..])
  }

  function Csv(events: seq<AuditEvent>): string {
    Join([CSV_HEADER] + Rows(events), '\n')
  }

  lemma {:induction false} RowsSnoc(es: seq<AuditEvent>, e: AuditEvent)
    ensures Rows(es + [e]) == Rows(es) + [RowText(e)]
  {
    hide RowText;
    if es == [] {
      assert [e][1..] == [] && es + [e] == [e];
    } else {
      assert (es + [e])[1..] == es[1..] + [e];
      RowsSnoc(es[1..], e);
    }
  }

  method ExportCsv(events: seq<AuditEvent>) returns (r: string)
    ensures r == Csv(events)
  {
    hide RowText;
    var rows: seq<string> := [CSV_HEADER];
    for k := 0 to |events|
      invariant rows == [CSV_HEADER] + Rows(events[..k])
    {
      assert events[..k + 1] == events[..k] + [events[k]];
      RowsSnoc(events[..k], events[k]);
      rows := rows + [RowText(events[k])];
    }
    assert events[..|events|] == events;
    r := Join(rows, '\n');
  }

  // ---------------------------------------------------------------------------------------------
  // The reader
  // ---------------------------------------------------------------------------------------------

  datatype Mode = FieldStart | Unquoted | Quoted | QuoteSeen | CrSeen | Bad

  datatype Reader = Reader(records: seq<seq<string>>, fields: seq<string>, field: string, mode: Mode)

  const START: Reader := Reader([], [], "", FieldStart)

  function EndField(r: Reader): Reader {
    Reader(r.records, r.fields + [r.field], "", FieldStart)
  }

  function EndRecord(r: Reader): Reader {
    Reader(r.records + [r.fields + [r.field]], [], "", FieldStart)
  }

  function Step(r: Reader, c: char): Reader {
    match r.mode
    case Quoted => if c == '"' then r.(mode := QuoteSeen) else r.(field := r.field + [c])
    case CrSeen => if c == '\n' then EndRecord(r) else r.(mode := Bad)
    case Bad => r
    case _ =>
      if c == ',' then EndField(r)
      else if c == '\n' then EndRecord(r)
      else if c == '\r' then r.(mode := CrSeen)
      else if c == '"' then
        if r.mode.FieldStart? then r.(mode := Quoted)
        else if r.mode.QuoteSeen? then r.(field := r.field + ['"'], mode := Quoted)
        else r.(mode := Bad)
      else if r.mode.QuoteSeen? then r.(mode := Bad)
      else r.(field := r.field + [c], mode := Unquoted)
  }

  function Read(r: Reader, s: string): Reader
    decreases |s|
  {
    if s == [] then r else Read(Step(r, s[0]), s[1..])
  }

  /** The records of a text; a final line end does not start another record. */
  function ParseCsv(s: string): Option<seq<seq<string>>> {
    var r := Read(START, s);
    if r.mode in {Quoted, CrSeen, Bad} then None
    else if r.mode.FieldStart? && r.fields == [] && r.records != [] then Some(r.records)
    else Some(EndRecord(r).records)
  }

  // ---------------------------------------------------------------------------------------------
  // Reading what was exported
  // ---------------------------------------------------------------------------------------------

  lemma {:induction false} ReadConcat(r: Reader, a: string, b: string)
    ensures Read(r, a + b) == Read(Read(r, a), b)
    decreases |a|
  {
    hide Step;
    if a == [] {
      assert a + b == b;
    } else {
      assert (a + b)[1..] == a[1..] + b;
      ReadConcat(Step(r, a[0]), a[1..], b);
    }
  }

  lemma {:induction false} ReadPlain(r: Reader, s: string)
    requires (r.mode.FieldStart? || r.mode.Unquoted?) && forall k :: 0 <= k < |s| ==> !IsSpecial(s[k])
    ensures Read(r, s) == r.(field := r.field + s, mode := if s == [] then r.mode else Unquoted)
    decreases |s|
  {
    if s == [] {
      assert r.field + s == r.field;
    } else {
      ReadPlain(r.(field := r.field + [s[0]], mode := Unquoted), s[1..]);
      assert r.field + [s[0]] + s[1..] == r.field + s;
    }
  }

  lemma ReadDoubled(r: Reader)
    requires r.mode.Quoted?
    ensures Read(r, "\"\"") == r.(field := r.field + ['"'])
  {
    var t := r.(mode := QuoteSeen);
    assert "\"\""[1..] == "\"" && "\""[1..] == [];
    assert Read(t, "\"") == Read(Step(t, '"'), []);
    assert Read(r, "\"\"") == Read(t, "\"");
  }

  lemma {:induction false} ReadInQuotes(r: Reader, s: string)
    requires r.mode.Quoted?
    ensures Read(r, DoubleQuotes(s)) == r.(field := r.field + s)
    decreases |s|
  {
    if s == [] {
      assert r.field + s == r.field;
    } else {
      var first := if s[0] == '"' then "\"\"" else [s[0]];
      var next := r.(field := r.field + [s[0]]);
      assert Read(r, first) == next by {
        if s[0] == '"' {
          ReadDoubled(r);
        } else {
          assert Read(Step(r, s[0]), []) == next;
        }
      }
      ReadConcat(r, first, DoubleQuotes(s[1..]));
      ReadInQuotes(next, s[1..]);
      assert r.field + [s[0]] + s[1..] == r.field + s;
    }
  }

  /** An escaped field, read from the start of a field, is the field. */
  lemma ReadField(r: Reader, s: string)
    requires r.mode.FieldStart? && r.field == []
    ensures var u := Read(r, CsvEscape(s));
            u.records == r.records && u.fields == r.fields && u.field == s
            && (u.mode.FieldStart? || u.mode.Unquoted? || u.mode.QuoteSeen?)
            && (u.mode.FieldStart? ==> s == [])
  {
    hide Step;
    assert [] + s == s;
    if NeedsQuotes(s) {
      var q := r.(mode := Quoted);
      ReadConcat(r, "\"" + DoubleQuotes(s), "\"");
      ReadConcat(r, "\"", DoubleQuotes(s));
      QuoteOpens(r);
      ReadInQuotes(q, s);
      QuoteCloses(q.(field := s));
    } else {
      ReadPlain(r, s);
    }
  }

  lemma QuoteOpens(r: Reader)
    requires r.mode.FieldStart?
    ensures Read(r, "\"") == r.(mode := Quoted)
  {
    assert Read(Step(r, '"'), []) == r.(mode := Quoted);
  }

  lemma QuoteCloses(r: Reader)
    requires r.mode.Quoted?
    ensures Read(r, "\"") == r.(mode := QuoteSeen)
  {
    assert Read(Step(r, '"'), []) == r.(mode := QuoteSeen);
  }

  /** A field and a comma. */
  lemma ReadFieldAndComma(r: Reader, s: string, rest: string)
    requires r.mode.FieldStart? && r.field == []
    ensures Read(r, CsvEscape(s) + ("," + rest)) == Read(Reader(r.records, r.fields + [s], "", FieldStart), rest)
  {
    hide CsvEscape;
    ReadField(r, s);
    var u := Read(r, CsvEscape(s));
    ReadConcat(r, CsvEscape(s), "," + rest);
    assert ("," + rest)[1..] == rest;
    assert Read(u, "," + rest) == Read(Step(u, ','), rest);
  }

  /** The names of the kinds. */
  function KindName(kind: EventKind): string {
    if kind.ModelCall? then "model-call"
    else if kind.MemoryWrite? then "memory-write"
    else if kind.MemoryRead? then "memory-read"
    else if kind.ToolExec? then "tool-exec"
    else "channel-send"
  }

  function Fields(e: AuditEvent): seq<string> {
    [e.id, e.timestamp, e.actor, KindName(e.kind), e.dataSummary, e.destination, if e.piiFlag then "true" else "false"]
  }

  /** Fields without a comma, a quote or a line end are written as they are, and only they. */
  lemma PlainIffUnquoted(s: string)
    ensures CsvEscape(s) == s <==> forall c :: c in s ==> c != ',' && c != '"' && c != '\n' && c != '\r'
  {
    if NeedsQuotes(s) {
      var k :| 0 <= k < |s| && IsSpecial(s[k]);
      assert s[k] in s;
      DoublingGrows(s);
    }
  }

  lemma {:induction false} DoublingGrows(s: string)
    ensures |DoubleQuotes(s)| >= |s|
  {
    if s != [] {
      DoublingGrows(s[1..]);
    }
  }

  lemma BoolNeedsNoQuotes(b: bool)
    ensures CsvEscape(BoolText(b)) == BoolText(b) != []
  {
  }

  lemma FieldsAsWritten(e: AuditEvent)
    ensures Fields(e)
         == [e.id, e.timestamp, e.actor, e.kind.AsStr(), e.dataSummary, e.destination, BoolText(e.piiFlag)]
  {
  }

  /** A row, read from the start of a record, leaves its seven fields, the last one still open. */
  lemma ReadRow(r: Reader, e: AuditEvent)
    requires r.mode.FieldStart? && r.field == [] && r.fields == []
    ensures var u := Read(r, RowText(e));
            u.records == r.records && u.fields + [u.field] == Fields(e) && (u.mode.Unquoted? || u.mode.QuoteSeen?)
  {
    hide CsvEscape, Read, EventKind.AsStr, BoolText, Fields;
    FieldsAsWritten(e);
    var last := BoolText(e.piiFlag);
    var t6 := CsvEscape(e.destination) + ("," + last);
    var t5 := CsvEscape(e.dataSummary) + ("," + t6);
    var t4 := CsvEscape(e.kind.AsStr()) + ("," + t5);
    var t3 := CsvEscape(e.actor) + ("," + t4);
    var t2 := CsvEscape(e.timestamp) + ("," + t3);
    assert RowText(e) == CsvEscape(e.id) + ("," + t2);
    ReadFieldAndComma(r, e.id, t2);
    var r1 := Reader(r.records, [] + [e.id], "", FieldStart);
    ReadFieldAndComma(r1, e.timestamp, t3);
    var r2 := Reader(r.records, r1.fields + [e.timestamp], "", FieldStart);
    ReadFieldAndComma(r2, e.actor, t4);
    var r3 := Reader(r.records, r2.fields + [e.actor], "", FieldStart);
    ReadFieldAndComma(r3, e.kind.AsStr(), t5);
    var r4 := Reader(r.records, r3.fields + [e.kind.AsStr()], "", FieldStart);
    ReadFieldAndComma(r4, e.dataSummary, t6);
    var r5 := Reader(r.records, r4.fields + [e.dataSummary], "", FieldStart);
    ReadFieldAndComma(r5, e.destination, last);
    var r6 := Reader(r.records, r5.fields + [e.destination], "", FieldStart);
    BoolNeedsNoQuotes(e.piiFlag);
    ReadField(r6, last);
  }

  const HEADER_FIELDS := ["id", "timestamp", "actor", "kind", "data_summary", "destination", "pii_flag"]

  function AllFields(es: seq<AuditEvent>): (r: seq<seq<string>>)
    ensures |r| == |es| && forall i :: 0 <= i < |es| ==> r[i] == Fields(es[i])
  {
    if es == [] then [] else [Fields(es[0])] + AllFields(es[1..])
  }

  /** The rows after one whose last field is still open. */
  lemma {:induction false} ReadRows(u: Reader, es: seq<AuditEvent>)
    requires u.mode.Unquoted? || u.mode.QuoteSeen?
    ensures var v := Read(u, if es == [] then [] else "\n" + Join(Rows(es), '\n'));
            EndRecord(v).records == u.records + [u.fields + [u.field]] + AllFields(es)
            && (v.mode.Unquoted? || v.mode.QuoteSeen?)
    decreases |es|
  {
    hide Fields, RowText, Step, Join, Rows;
    if es == [] {
      assert u.records + [u.fields + [u.field]] + [] == u.records + [u.fields + [u.field]];
    } else {
      var row := RowText(es[0]);
      var tail := if |es| == 1 then [] else "\n" + Join(Rows(es[1..]), '\n');
      RowsStep(es);
      assert "\n" + Join(Rows(es), '\n') == "\n" + (row + tail);
      assert ("\n" + (row + tail))[1..] == row + tail;
      var r := EndRecord(u);
      NewlineEnds(u);
      ReadConcat(r, row, tail);
      ReadRow(r, es[0]);
      var w := Read(r, row);
      ReadRows(w, es[1..]);
      AssocRecords(r.records, [Fields(es[0])], AllFields(es[1..]));
    }
  }

  lemma AssocRecords(a: seq<seq<string>>, b: seq<seq<string>>, c: seq<seq<string>>)
    ensures a + b + c == a + (b + c)
  {
  }

  lemma NewlineEnds(u: Reader)
    requires u.mode.Unquoted? || u.mode.QuoteSeen?
    ensures Step(u, '\n') == EndRecord(u)
  {
  }

  lemma RowsStep(es: seq<AuditEvent>)
    requires es != []
    ensures Join(Rows(es), '\n') == RowText(es[0]) + (if |es| == 1 then [] else "\n" + Join(Rows(es[1..]), '\n'))
    ensures |Rows(es)| >= 1
  {
    hide RowText;
    assert Rows(es)[1..] == Rows(es[1..]);
    if |es| > 1 {
      assert |Rows(es[1..])| >= 1;
    }
  }

  lemma ReadHeader()
    ensures Read(START, CSV_HEADER)
         == Reader([], ["id", "timestamp", "actor", "kind", "data_summary", "destination"], "pii_flag", Unquoted)
  {
    hide CsvEscape, Read;
    PlainFieldAndComma(START, "id", HEADER_2);
    var r1 := Reader([], [] + ["id"], "", FieldStart);
    PlainFieldAndComma(r1, "timestamp", HEADER_3);
    var r2 := Reader([], r1.fields + ["timestamp"], "", FieldStart);
    PlainFieldAndComma(r2, "actor", HEADER_4);
    var r3 := Reader([], r2.fields + ["actor"], "", FieldStart);
    PlainFieldAndComma(r3, "kind", HEADER_5);
    var r4 := Reader([], r3.fields + ["kind"], "", FieldStart);
    PlainFieldAndComma(r4, "data_summary", HEADER_6);
    var r5 := Reader([], r4.fields + ["data_summary"], "", FieldStart);
    PlainFieldAndComma(r5, "destination", HEADER_7);
    var r6 := Reader([], r5.fields + ["destination"], "", FieldStart);
    ReadPlain(r6, HEADER_7);
    assert "" + HEADER_7 == HEADER_7;
    assert r6.fields == ["id", "timestamp", "actor", "kind", "data_summary", "destination"];
  }

  lemma PlainFieldAndComma(r: Reader, s: string, rest: string)
    requires r.mode.FieldStart? && r.field == [] && forall k :: 0 <= k < |s| ==> !IsSpecial(s[k])
    ensures Read(r, s + "," + rest) == Read(Reader(r.records, r.fields + [s], "", FieldStart), rest)
  {
    assert CsvEscape(s) == s;
    assert s + "," + rest == s + ("," + rest);
    ReadFieldAndComma(r, s, rest);
  }

  /** The exported text reads as the header and, for each event, its seven field values, whatever they contain. */
  lemma ExportReadsBack(es: seq<AuditEvent>)
    ensures ParseCsv(Csv(es)) == Some([HEADER_FIELDS] + AllFields(es))
  {
    hide Read, Rows, Step;
    ReadHeader();
    var u := Read(START, CSV_HEADER);
    var tail := if es == [] then [] else "\n" + Join(Rows(es), '\n');
    CsvIsHeaderAndTail(es);
    ReadConcat(START, CSV_HEADER, tail);
    ReadRows(u, es);
    assert u.fields + [u.field] == HEADER_FIELDS;
    assert [] + [HEADER_FIELDS] == [HEADER_FIELDS];
  }

  lemma CsvIsHeaderAndTail(es: seq<AuditEvent>)
    ensures Csv(es) == CSV_HEADER + (if es == [] then [] else "\n" + Join(Rows(es), '\n'))
  {
    hide RowText;
    var rows := [CSV_HEADER] + Rows(es);
    assert rows[1..] == Rows(es);
    if es != [] {
      RowsStep(es);
    }
  }
}
