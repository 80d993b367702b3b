/** The semicolon CSV reader of the price list (`parseCSV`): a single-pass
    character scanner with a quote flag and doubled-quote escaping, then the
    header row zipped onto every non-blank data record. */
module Csv {
  import opened Strings

  /** Scanner state: inside quotes or not, the field being built, the fields
      of the current record, and the records emitted so far. */
  datatype Scan = Scan(quoted: bool, cell: string, row: seq<string>, rows: seq<seq<string>>)

  const Start: Scan := Scan(false, "", [], [])

  /** End of input: a partly built field or record is still emitted. */
  function Flush(st: Scan): seq<seq<string>>
  {
    if |st.cell| > 0 || |st.row| > 0 then st.rows + [st.row + [st.cell]] else st.rows
  }

  /** The records the scanner emits when it reads `s` from state `st`.
      The one-character look-ahead of `parseCSV` is `s[1]`. */
  function ScanFrom(s: string, delim: char, st: Scan): seq<seq<string>>
    decreases |s|
  {
    if s == [] then Flush(st)
    else
      var ch := s[0];
      if st.quoted then
        if ch == '"' then
          if |s| > 1 && s[1] == '"' then ScanFrom(s[2..], delim, st.(cell := st.cell + ['"']))
          else ScanFrom(s[1..], delim, st.(quoted := false))
        else ScanFrom(s[1..], delim, st.(cell := st.cell + [ch]))
      else if ch == '"' then ScanFrom(s[1..], delim, st.(quoted := true))
      else if ch == delim then ScanFrom(s[1..], delim, st.(cell := "", row := st.row + [st.cell]))
      else if ch == '\n' then ScanFrom(s[1..], delim, Scan(false, "", [], st.rows + [st.row + [st.cell]]))
      else if ch != '\r' then ScanFrom(s[1..], delim, st.(cell := st.cell + [ch]))
      else ScanFrom(s[1..], delim, st)
  }

  /** Records once emitted are never taken back, and every emitted record
      has at least one field. */
  lemma {:induction false} ScanKeepsRecords(s: string, delim: char, st: Scan)
    ensures var recs := ScanFrom(s, delim, st);
            |recs| >= |st.rows| && recs[..|st.rows|] == st.rows
    ensures (forall r :: r in st.rows ==> |r| >= 1) ==>
              forall r :: r in ScanFrom(s, delim, st) ==> |r| >= 1
    decreases |s|
  {
    if s != [] {
      var ch := s[0];
      if st.quoted {
        if ch == '"' {
          if |s| > 1 && s[1] == '"' {
            ScanKeepsRecords(s[2..], delim, st.(cell := st.cell + ['"']));
          } else {
            ScanKeepsRecords(s[1..], delim, st.(quoted := false));
          }
        } else {
          ScanKeepsRecords(s[1..], delim, st.(cell := st.cell + [ch]));
        }
      } else if ch == '"' {
        ScanKeepsRecords(s[1..], delim, st.(quoted := true));
      } else if ch == delim {
        ScanKeepsRecords(s[1..], delim, st.(cell := "", row := st.row + [st.cell]));
      } else if ch == '\n' {
        var next := Scan(false, "", [], st.rows + [st.row + [st.cell]]);
        ScanKeepsRecords(s[1..], delim, next);
        var recs := ScanFrom(s[1..], delim, next);
        assert recs[..|st.rows|] == recs[..|next.rows|][..|st.rows|];
      } else if ch != '\r' {
        ScanKeepsRecords(s[1..], delim, st.(cell := st.cell + [ch]));
      } else {
        ScanKeepsRecords(s[1..], delim, st);
      }
    }
  }

  /** The records of a whole text: each has at least one field, and empty
      text has none. */
  function Records(text: string, delim: char): (recs: seq<seq<string>>)
    ensures forall r :: r in recs ==> |r| >= 1
    ensures text == [] ==> recs == []
  {
    ScanKeepsRecords(text, delim, Start);
    ScanFrom(text, delim, Start)
  }

  /** The scanner loop of `parseCSV`, producing the raw records. */
  method Tokenize(text: string, delim: char) returns (rows: seq<seq<string>>)
    ensures rows == Records(text, delim)
    ensures forall r :: r in rows ==> |r| >= 1
  {
    rows := [];
    var cell: string, row: seq<string>, q := "", [], false;
    var i := 0;
    while i < |text|
      invariant 0 <= i <= |text|
      invariant ScanFrom(text[i..], delim, Scan(q, cell, row, rows)) == Records(text, delim)
      invariant forall r :: r in rows ==> |r| >= 1
    {
      var ch := text[i];
      assert text[i..][1..] == text[i + 1..];
      if q {
        if ch == '"' {
          if i + 1 < |text| && text[i + 1] == '"' {
            assert text[i..][2..] == text[i + 2..];
            cell := cell + ['"'];
            i := i + 1;
          } else {
            q := false;
          }
        } else {
          cell := cell + [ch];
        }
      } else {
        if ch == '"' {
          q := true;
        } else if ch == delim {
          row := row + [cell];
          cell := "";
        } else if ch == '\n' {
          row := row + [cell];
          rows := rows + [row];
          row := [];
          cell := "";
        } else if ch != '\r' {
          cell := cell + [ch];
        }
      }
      i := i + 1;
    }
    if |cell| > 0 || |row| > 0 {
      row := row + [cell];
      rows := rows + [row];
    }
  }

  // ---------------------------------------------------------------------
  // Writing a table back as text, and reading it again
  // ---------------------------------------------------------------------

  /** Doubles every quote character. */
  function Escape(f: string): string
  {
    if f == [] then [] else (if f[0] == '"' then "\"\"" else [f[0]]) + Escape(f[1..])
  }

  /** A field must be quoted when it holds a quote, the delimiter or a line break. */
  predicate NeedsQuotes(f: string, delim: char)
  {
    '"' in f || delim in f || '\n' in f || '\r' in f
  }

  function EncodeField(f: string, delim: char): string
  {
    if NeedsQuotes(f, delim) then "\"" + Escape(f) + "\"" else f
  }

  function EncodeRecord(r: seq<string>, delim: char): string
    requires |r| >= 1
  {
    if |r| == 1 then EncodeField(r[0], delim)
    else EncodeField(r[0], delim) + [delim] + EncodeRecord(r[1..], delim)
  }

  /** Every record followed by the line ending `eol`, "\n" or "\r\n". */
  function EncodeTable(t: seq<seq<string>>, delim: char, eol: string): string
    requires forall r :: r in t ==> |r| >= 1
  {
    if t == [] then [] else EncodeRecord(t[0], delim) + eol + EncodeTable(t[1..], delim, eol)
  }

  predicate GoodDelimiter(delim: char)
  {
    delim != '"' && delim != '\n' && delim != '\r'
  }

  /** Inside quotes, the escaped text of `f` and the closing quote append `f`
      to the field and leave quote mode; `""` stands for one quote. */
  lemma {:induction false} QuotedFieldScan(f: string, rest: string, delim: char, st: Scan)
    requires st.quoted
    requires rest == [] || rest[0] != '"'
    ensures ScanFrom(Escape(f) + "\"" + rest, delim, st)
         == ScanFrom(rest, delim, st.(quoted := false, cell := st.cell + f))
  {
    var s := Escape(f) + "\"" + rest;
    if f == [] {
      assert s == "\"" + rest;
      assert s[1..] == rest;
      assert st.cell + f == st.cell;
    } else {
      var p := if f[0] == '"' then "\"\"" else [f[0]];
      var e := Escape(f[1..]);
      var tail := e + "\"" + rest;
      assert Escape(f) == p + e;
      ConcatAssoc(p, e, "\"");
      ConcatAssoc(p, e + "\"", rest);
      assert s == p + tail;
      assert s[|p|..] == tail;
      QuotedFieldScan(f[1..], rest, delim, st.(cell := st.cell + [f[0]]));
      ConcatAssoc(st.cell, [f[0]], f[1..]);
      assert [f[0]] + f[1..] == f;
    }
  }

  /** Outside quotes, ordinary characters are appended to the field. */
  lemma {:induction false} PlainFieldScan(f: string, rest: string, delim: char, st: Scan)
    requires !st.quoted && !NeedsQuotes(f, delim)
    ensures ScanFrom(f + rest, delim, st) == ScanFrom(rest, delim, st.(cell := st.cell + f))
  {
    if f == [] {
      assert f + rest == rest;
      assert st.cell + f == st.cell;
    } else {
      assert (f + rest)[1..] == f[1..] + rest;
      assert !NeedsQuotes(f[1..], delim) by {
        assert forall c :: c in f[1..] ==> c in f;
      }
      PlainFieldScan(f[1..], rest, delim, st.(cell := st.cell + [f[0]]));
      assert st.cell + [f[0]] + f[1..] == st.cell + f;
    }
  }

  /** An encoded field, at the start of a field, reads back as that field. */
  lemma FieldScan(f: string, rest: string, delim: char, row: seq<string>, rows: seq<seq<string>>)
    requires rest == [] || rest[0] != '"'
    ensures ScanFrom(EncodeField(f, delim) + rest, delim, Scan(false, "", row, rows))
         == ScanFrom(rest, delim, Scan(false, f, row, rows))
  {
    if NeedsQuotes(f, delim) {
      var s := "\"" + Escape(f) + "\"" + rest;
      assert EncodeField(f, delim) + rest == s;
      assert s[1..] == Escape(f) + "\"" + rest;
      QuotedFieldScan(f, rest, delim, Scan(true, "", row, rows));
      assert "" + f == f;
    } else {
      PlainFieldScan(f, rest, delim, Scan(false, "", row, rows));
      assert "" + f == f;
    }
  }

  lemma DelimiterStep(rest: string, delim: char, st: Scan)
    requires !st.quoted && delim != '"'
    ensures ScanFrom([delim] + rest, delim, st) == ScanFrom(rest, delim, st.(cell := "", row := st.row + [st.cell]))
  {
    assert ([delim] + rest)[1..] == rest;
  }

  lemma LineEndStep(eol: string, rest: string, delim: char, st: Scan)
    requires !st.quoted && GoodDelimiter(delim) && (eol == "\n" || eol == "\r\n")
    ensures ScanFrom(eol + rest, delim, st) == ScanFrom(rest, delim, Scan(false, "", [], st.rows + [st.row + [st.cell]]))
  {
    if eol == "\n" {
      assert (eol + rest)[1..] == rest;
    } else {
      assert (eol + rest)[1..] == "\n" + rest;
      assert ("\n" + rest)[1..] == rest;
    }
  }

  /** An encoded field and the delimiter after it append the field to the row. */
  lemma FieldDelimiterScan(f: string, rest: string, delim: char, row: seq<string>, rows: seq<seq<string>>)
    requires GoodDelimiter(delim)
    ensures ScanFrom(EncodeField(f, delim) + ([delim] + rest), delim, Scan(false, "", row, rows))
         == ScanFrom(rest, delim, Scan(false, "", row + [f], rows))
  {
    FieldScan(f, [delim] + rest, delim, row, rows);
    DelimiterStep(rest, delim, Scan(false, f, row, rows));
  }

  /** An encoded record leaves its last field in the cell and the others in the row. */
  lemma {:induction false} RecordScan(r: seq<string>, rest: string, delim: char, row: seq<string>, rows: seq<seq<string>>)
    requires |r| >= 1 && GoodDelimiter(delim)
    requires rest == [] || rest[0] != '"'
    ensures ScanFrom(EncodeRecord(r, delim) + rest, delim, Scan(false, "", row, rows))
         == ScanFrom(rest, delim, Scan(false, r[|r| - 1], row + r[..|r| - 1], rows))
  {
    if |r| == 1 {
      FieldScan(r[0], rest, delim, row, rows);
      assert row + r[..0] == row;
    } else {
      var rest1 := EncodeRecord(r[1..], delim) + rest;
      EncodeRecordCons(r, rest, delim);
      FieldDelimiterScan(r[0], rest1, delim, row, rows);
      RecordScan(r[1..], rest, delim, row + [r[0]], rows);
      ConcatAssoc(row, [r[0]], r[1..][..|r| - 2]);
      InitOfTail(r);
    }
  }

  /** All but the last of `r`, as its head and all but the last of its tail. */
  lemma InitOfTail(r: seq<string>)
    requires |r| > 1
    ensures [r[0]] + r[1..][..|r| - 2] == r[..|r| - 1]
  {
  }

  lemma EncodeRecordCons(r: seq<string>, rest: string, delim: char)
    requires |r| > 1
    ensures EncodeRecord(r, delim) + rest
         == EncodeField(r[0], delim) + ([delim] + (EncodeRecord(r[1..], delim) + rest))
  {
    var f, tail := EncodeField(r[0], delim), EncodeRecord(r[1..], delim);
    assert EncodeRecord(r, delim) == f + [delim] + tail;
    ConcatAssoc(f + [delim], tail, rest);
    ConcatAssoc(f, [delim], tail + rest);
  }

  /** An encoded table appends its records to those already read. */
  lemma {:induction false} TableScan(t: seq<seq<string>>, delim: char, eol: string, rest: string, rows: seq<seq<string>>)
    requires forall r :: r in t ==> |r| >= 1
    requires GoodDelimiter(delim) && (eol == "\n" || eol == "\r\n")
    ensures ScanFrom(EncodeTable(t, delim, eol) + rest, delim, Scan(false, "", [], rows))
         == ScanFrom(rest, delim, Scan(false, "", [], rows + t))
  {
    if t == [] {
      assert EncodeTable(t, delim, eol) + rest == rest;
      assert rows + t == rows;
    } else {
      var r := t[0];
      var after := EncodeTable(t[1..], delim, eol) + rest;
      EncodeTableCons(t, delim, eol, rest);
      RecordLineScan(r, eol, after, delim, rows);
      assert t == [r] + t[1..];
      TableScan(t[1..], delim, eol, rest, rows + [r]);
      ConcatAssoc(rows, [r], t[1..]);
    }
  }

  /** An encoded record and its line end append the record to the records. */
  lemma RecordLineScan(r: seq<string>, eol: string, after: string, delim: char, rows: seq<seq<string>>)
    requires |r| >= 1 && GoodDelimiter(delim) && (eol == "\n" || eol == "\r\n")
    ensures ScanFrom(EncodeRecord(r, delim) + (eol + after), delim, Scan(false, "", [], rows))
         == ScanFrom(after, delim, Scan(false, "", [], rows + [r]))
  {
    var st := Scan(false, r[|r| - 1], [] + r[..|r| - 1], rows);
    RecordScan(r, eol + after, delim, [], rows);
    LineEndStep(eol, after, delim, st);
    LastSplit(r);
  }

  /** A record is its fields but the last, followed by the last. */
  lemma LastSplit(r: seq<string>)
    requires |r| >= 1
    ensures [] + r[..|r| - 1] + [r[|r| - 1]] == r
  {
    var init: seq<string> := r[..|r| - 1];
    assert [] + init == init;
    assert init + [r[|r| - 1]] == r;
  }

  lemma EncodeTableCons(t: seq<seq<string>>, delim: char, eol: string, rest: string)
    requires forall r :: r in t ==> |r| >= 1
    requires t != []
    ensures EncodeTable(t, delim, eol) + rest
         == EncodeRecord(t[0], delim) + (eol + (EncodeTable(t[1..], delim, eol) + rest))
  {
    var r, tail := EncodeRecord(t[0], delim), EncodeTable(t[1..], delim, eol);
    assert EncodeTable(t, delim, eol) == r + eol + tail;
    ConcatAssoc(r + eol, tail, rest);
    ConcatAssoc(r, eol, tail + rest);
  }

  /** Reading back a written table gives the table: quoting, escaping and
      both line endings are undone. */
  lemma RoundTrip(t: seq<seq<string>>, delim: char, eol: string)
    requires forall r :: r in t ==> |r| >= 1
    requires GoodDelimiter(delim) && (eol == "\n" || eol == "\r\n")
    ensures Records(EncodeTable(t, delim, eol), delim) == t
  {
    TableScan(t, delim, eol, [], []);
    assert EncodeTable(t, delim, eol) + [] == EncodeTable(t, delim, eol);
    assert [] + t == t;
  }

  /** Without a line ending after the last record, the last record is still
      read, unless it is the single empty field, which writes as nothing. */
  lemma NoFinalNewline(t: seq<seq<string>>, last: seq<string>, delim: char, eol: string)
    requires forall r :: r in t ==> |r| >= 1
    requires |last| >= 1 && last != [""]
    requires GoodDelimiter(delim) && (eol == "\n" || eol == "\r\n")
    ensures Records(EncodeTable(t, delim, eol) + EncodeRecord(last, delim), delim) == t + [last]
  {
    var n := |last|;
    calc {
      Records(EncodeTable(t, delim, eol) + EncodeRecord(last, delim), delim);
      { TableScan(t, delim, eol, EncodeRecord(last, delim), []); assert [] + t == t; }
      ScanFrom(EncodeRecord(last, delim), delim, Scan(false, "", [], t));
      { assert EncodeRecord(last, delim) + [] == EncodeRecord(last, delim);
        RecordScan(last, [], delim, [], t); }
      ScanFrom([], delim, Scan(false, last[n - 1], [] + last[..n - 1], t));
      { LastSplit(last);
        assert n > 1 || |last[n - 1]| > 0; }
      t + [last];
    }
  }

  /** An unterminated quote is not an error: the rest of the input, quote
      characters aside, becomes part of the last field. */
  lemma {:induction false} UnterminatedQuote(s: string, delim: char, st: Scan)
    requires st.quoted && '"' !in s
    ensures ScanFrom(s, delim, st) == Flush(st.(cell := st.cell + s))
  {
    if s == [] {
      assert st.cell + s == st.cell;
    } else {
      assert '"' !in s[1..] by {
        assert forall c :: c in s[1..] ==> c in s;
      }
      UnterminatedQuote(s[1..], delim, st.(cell := st.cell + [s[0]]));
      assert st.cell + [s[0]] + s[1..] == st.cell + s;
    }
  }

  // ---------------------------------------------------------------------
  // Header row and data rows
  // ---------------------------------------------------------------------

  /** A parsed row: header name to trimmed value, as the object `parseCSV`
      builds for each data record. */
  type Row = map<string, string>

  /** A record whose every field trims to empty; such records are dropped. */
  predicate Blank(rec: seq<string>)
  {
    forall i :: 0 <= i < |rec| ==> Trim(rec[i]) == ""
  }

  /** The trimmed value of field `i`, or "" past the end of the record. */
  function FieldAt(rec: seq<string>, i: nat): string
  {
    Trim(if i < |rec| then rec[i] else "")
  }

  function TrimAll(fields: seq<string>): (r: seq<string>)
    ensures |r| == |fields|
    ensures forall i :: 0 <= i < |fields| ==> r[i] == Trim(fields[i])
  {
    seq(|fields|, i requires 0 <= i < |fields| => Trim(fields[i]))
  }

  /** The header names carry no surrounding white space, and trimming them
      again changes nothing. */
  lemma TrimAllTrimmed(fields: seq<string>)
    ensures forall i :: 0 <= i < |fields| ==>
              var h := TrimAll(fields)[i]; h == [] || (!IsSpace(h[0]) && !IsSpace(h[|h| - 1]))
    ensures TrimAll(TrimAll(fields)) == TrimAll(fields)
  {
    forall i | 0 <= i < |fields| ensures Trim(Trim(fields[i])) == Trim(fields[i]) {
      TrimIdempotent(fields[i]);
    }
  }

  /** Whether `headers[i]` does not occur again later in `headers`. */
  predicate LastOccurrence(headers: seq<string>, i: nat)
    requires i < |headers|
  {
    forall j :: i < j < |headers| ==> headers[j] != headers[i]
  }

  /** The header names, as a set. */
  function Names(headers: seq<string>): set<string>
  {
    set h | h in headers
  }

  /** The object of one data record: every header is a key, with the value
      that the last assignment under that name leaves (see `ZipValue`). */
  function Zip(headers: seq<string>, rec: seq<string>): (o: Row)
    ensures o.Keys == Names(headers)
  {
    if headers == [] then map[]
    else
      var n := |headers| - 1;
      assert Names(headers) == Names(headers[..n]) + {headers[n]} by {
        assert headers == headers[..n] + [headers[n]];
      }
      Zip(headers[..n], rec)[headers[n] := FieldAt(rec, n)]
  }

  /** Under each header name stands the trimmed field of its last occurrence,
      or "" when the record is shorter than the header row. */
  lemma {:induction false} ZipValue(headers: seq<string>, rec: seq<string>, i: nat)
    requires i < |headers| && LastOccurrence(headers, i)
    ensures Zip(headers, rec)[headers[i]] == FieldAt(rec, i)
  {
    var n := |headers| - 1;
    var front := headers[..n];
    assert Zip(headers, rec) == Zip(front, rec)[headers[n] := FieldAt(rec, n)];
    if i < n {
      assert headers[n] != headers[i] && front[i] == headers[i];
      assert LastOccurrence(front, i);
      ZipValue(front, rec, i);
    }
  }

  /** The data records that are not blank, each zipped onto the headers. */
  function DataRows(headers: seq<string>, recs: seq<seq<string>>): (rows: seq<Row>)
    ensures |rows| <= |recs|
  {
    if recs == [] then []
    else (if Blank(recs[0]) then [] else [Zip(headers, recs[0])]) + DataRows(headers, recs[1..])
  }

  /** Every row has exactly the header names as keys. */
  lemma {:induction false} DataRowsKeys(headers: seq<string>, recs: seq<seq<string>>)
    ensures forall k :: 0 <= k < |DataRows(headers, recs)| ==> DataRows(headers, recs)[k].Keys == Names(headers)
  {
    if recs != [] {
      DataRowsKeys(headers, recs[1..]);
    }
  }

  /** With no blank record, there is one row per record, in order. */
  lemma {:induction false} DataRowsNoBlank(headers: seq<string>, recs: seq<seq<string>>)
    requires forall k :: 0 <= k < |recs| ==> !Blank(recs[k])
    ensures |DataRows(headers, recs)| == |recs|
    ensures forall k :: 0 <= k < |recs| ==> DataRows(headers, recs)[k] == Zip(headers, recs[k])
  {
    if recs != [] {
      var rest := recs[1..];
      assert forall k :: 0 <= k < |rest| ==> rest[k] == recs[k + 1];
      DataRowsNoBlank(headers, rest);
      assert DataRows(headers, recs) == [Zip(headers, recs[0])] + DataRows(headers, rest);
    }
  }

  /** The rows of a text's records: the first record names the columns. */
  function TableRows(recs: seq<seq<string>>): seq<Row>
  {
    if recs == [] then [] else DataRows(TrimAll(recs[0]), recs[1..])
  }

  /** `parseCSV(text, delimiter)`. */
  method ParseCsv(text: string, delim: char) returns (rows: seq<Row>)
    ensures rows == TableRows(Records(text, delim))
    ensures |rows| < |Records(text, delim)| || rows == []
  {
    var recs := Tokenize(text, delim);
    if |recs| == 0 {
      return [];
    }
    rows := DataRows(TrimAll(recs[0]), recs[1..]);
  }

  lemma {:induction false} DataRowsAppend(headers: seq<string>, a: seq<seq<string>>, b: seq<seq<string>>)
    ensures DataRows(headers, a + b) == DataRows(headers, a) + DataRows(headers, b)
  {
    if a == [] {
      assert a + b == b;
    } else {
      var head := if Blank(a[0]) then [] else [Zip(headers, a[0])];
      assert (a + b)[0] == a[0] && (a + b)[1..] == a[1..] + b;
      DataRowsAppend(headers, a[1..], b);
      Strings.ConcatAssoc(head, DataRows(headers, a[1..]), DataRows(headers, b));
    }
  }

  /** A blank record contributes no row, wherever it stands. */
  lemma BlankRecordDropped(headers: seq<string>, a: seq<seq<string>>, blank: seq<string>, b: seq<seq<string>>)
    requires Blank(blank)
    ensures DataRows(headers, a + [blank] + b) == DataRows(headers, a + b)
  {
    DataRowsAppend(headers, a + [blank], b);
    DataRowsAppend(headers, a, [blank]);
    DataRowsAppend(headers, a, b);
  }

  /** A written table with a header record and N non-blank data records reads
      back as N rows, each keyed by the trimmed header names. */
  lemma ParseWrittenTable(header: seq<string>, data: seq<seq<string>>, delim: char, eol: string)
    requires |header| >= 1 && forall r :: r in data ==> |r| >= 1 && !Blank(r)
    requires GoodDelimiter(delim) && (eol == "\n" || eol == "\r\n")
    ensures var rows := TableRows(Records(EncodeTable([header] + data, delim, eol), delim));
            && |rows| == |data|
            && forall k :: 0 <= k < |data| ==> rows[k] == Zip(TrimAll(header), data[k])
  {
    RoundTrip([header] + data, delim, eol);
    assert ([header] + data)[1..] == data;
    assert forall k :: 0 <= k < |data| ==> !Blank(data[k]) by {
      forall k | 0 <= k < |data| ensures !Blank(data[k]) {
        assert data[k] in data;
      }
    }
    DataRowsNoBlank(TrimAll(header), data);
  }
}
