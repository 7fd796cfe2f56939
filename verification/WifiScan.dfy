/** The two scan commands: collecting access points into an in-place table over several scans, averaging, and
    packing the lines into one buffer. */
module WifiScan {
  import opened ScanText
  import opened ScanTable

  const MAX_ENTRY_LENGTH: nat := 64

  // --- The table ---------------------------------------------------------------------------------------------------

  /** The probe of the table for an address. */
  method Probe(table: array<ApRecord>, nthEntry: nat, bssid: Bssid) returns (k: nat)
    requires nthEntry <= table.Length
    ensures k <= nthEntry
    ensures k < nthEntry ==> table[k].bssid == bssid
    ensures k == nthEntry ==> forall i :: 0 <= i < nthEntry ==> table[i].bssid != bssid
  {
    k := 0;
    while k < nthEntry
      invariant k <= nthEntry
      invariant forall i :: 0 <= i < k ==> table[i].bssid != bssid
    {
      if table[k].bssid == bssid {
        return;
      }
      k := k + 1;
    }
  }

  /** One record enters the table: it is accumulated into its row or makes a new one. */
  method Enter(table: array<ApRecord>, nthEntry: nat, record: Record, ghost seen: seq<Record>) returns (next: nat)
    requires table.Length == TABLE_SIZE && nthEntry < TABLE_SIZE && ValidRecord(record)
    requires table[..nthEntry] == Summary(seen)
    modifies table
    ensures nthEntry <= next <= TABLE_SIZE
    ensures table[..next] == Summary(seen + [record])
  {
    next := nthEntry;
    var k := Probe(table, nthEntry, record.bssid);
    RowKeys(seen, table[..nthEntry]);
    hide Summary, Distinct, Int16;
    if k < nthEntry {
      assert table[..nthEntry][k] == table[k];
      SummaryKnown(seen, record, k);
      table[k] := ApRecord((table[k].nOcc + 1) % 256, table[k].bssid, Int16(table[k].rssi + record.rssi));
    } else {
      assert forall i :: 0 <= i < nthEntry ==> table[..nthEntry][i] == table[i];
      SummaryNew(seen, record);
      table[nthEntry] := ApRecord(1, record.bssid, record.rssi);
      next := nthEntry + 1;
      assert table[..next] == Summary(seen) + [table[nthEntry]];
    }
  }

  /** The rows of the table hold the distinct addresses. */
  lemma RowKeys(seen: seq<Record>, rows: seq<ApRecord>)
    requires rows == Summary(seen)
    ensures |rows| == |Distinct(seen)| && forall i :: 0 <= i < |rows| ==> rows[i].bssid == Distinct(seen)[i]
  {
  }

  /** One scan's records; stops when the table is full. */
  method EnterScan(table: array<ApRecord>, nthEntry: nat, records: seq<Record>, ghost seen: seq<Record>)
    returns (next: nat)
    requires table.Length == TABLE_SIZE && nthEntry < TABLE_SIZE && ValidRecords(records)
    requires table[..nthEntry] == Summary(seen)
    modifies table
    ensures next <= TABLE_SIZE
    ensures next == TABLE_SIZE ==> |Distinct(seen + records)| >= TABLE_SIZE
    ensures next < TABLE_SIZE ==> table[..next] == Summary(seen + records)
  {
    next := nthEntry;
    assert seen + records[..0] == seen;
    hide Summary, Distinct;
    for j := 0 to |records|
      invariant next < TABLE_SIZE && table[..next] == Summary(seen + records[..j])
    {
      assert seen + records[..j + 1] == seen + records[..j] + [records[j]];
      next := Enter(table, next, records[j], seen + records[..j]);
      if next == TABLE_SIZE {
        FullStays(seen, records, j + 1, table[..next]);
        return;
      }
    }
    assert records[..|records|] == records;
  }

  lemma FullStays(seen: seq<Record>, records: seq<Record>, j: nat, rows: seq<ApRecord>)
    requires j <= |records| && rows == Summary(seen + records[..j]) && |rows| >= TABLE_SIZE
    ensures |Distinct(seen + records)| >= TABLE_SIZE
  {
    hide Summary, Distinct;
    assert seen + records == seen + records[..j] + records[j..];
    FullGrows(seen + records[..j], records[j..], rows);
  }

  /** A full table stays too full. */
  lemma FullGrows(seen: seq<Record>, more: seq<Record>, rows: seq<ApRecord>)
    requires rows == Summary(seen) && |rows| >= TABLE_SIZE
    ensures |Distinct(seen + more)| >= TABLE_SIZE
  {
    DistinctGrows(seen, more);
  }

  lemma {:induction false} FlattenPrefix(scans: seq<seq<Record>>, i: nat)
    requires i <= |scans|
    ensures exists rest :: Flatten(scans) == Flatten(scans[..i]) + rest
    decreases |scans| - i
  {
    if i == |scans| {
      assert scans[..i] == scans && Flatten(scans) == Flatten(scans[..i]) + [];
    } else {
      FlattenPrefix(scans, i + 1);
      var rest :| Flatten(scans) == Flatten(scans[..i + 1]) + rest;
      assert scans[..i + 1][..i] == scans[..i];
      assert Flatten(scans) == Flatten(scans[..i]) + (scans[i] + rest);
    }
  }

  /** All scans: the table ends as the summary of all records, unless 50 distinct addresses occur. */
  method Collect(table: array<ApRecord>, scans: seq<seq<Record>>) returns (nthEntry: nat)
    requires table.Length == TABLE_SIZE && forall i :: 0 <= i < |scans| ==> ValidRecords(scans[i])
    modifies table
    ensures nthEntry <= TABLE_SIZE
    ensures nthEntry == TABLE_SIZE <==> |Distinct(Flatten(scans))| >= TABLE_SIZE
    ensures nthEntry < TABLE_SIZE ==> table[..nthEntry] == Summary(Flatten(scans))
  {
    nthEntry := 0;
    assert scans[..0] == [];
    hide Summary;
    for i := 0 to |scans|
      invariant nthEntry < TABLE_SIZE && table[..nthEntry] == Summary(Flatten(scans[..i]))
    {
      ghost var before := scans[..i + 1];
      assert before[|before| - 1] == scans[i] && before[..|before| - 1] == scans[..i];
      nthEntry := EnterScan(table, nthEntry, scans[i], Flatten(scans[..i]));
      if nthEntry == TABLE_SIZE {
        FlattenPrefix(scans, i + 1);
        ghost var rest :| Flatten(scans) == Flatten(before) + rest;
        DistinctGrows(Flatten(before), rest);
        return;
      }
    }
    assert scans[..|scans|] == scans;
    RowKeys(Flatten(scans), table[..nthEntry]);
  }

  // --- The buffer ----------------------------------------------------------------------------------------------------

  /** What snprintf stores, before the NUL; its result is the length of the whole text. */
  function Snprintf(size: nat, text: string): string
    requires size > 0
  {
    if |text| < size then text else text[..size - 1]
  }

  lemma Copied(was: seq<char>, now: seq<char>, at: nat, s: string)
    requires |now| == |was| && at + |s| < |now| && now[at + |s|] == '\0'
    requires forall i :: 0 <= i < at ==> now[i] == was[i]
    requires forall i :: 0 <= i < |s| ==> now[at + i] == s[i]
    ensures now[..at + |s| + 1] == was[..at] + s + ['\0']
  {
    var want := was[..at] + s + ['\0'];
    forall k | 0 <= k < |want|
      ensures now[k] == want[k]
    {
      if at <= k < at + |s| {
        assert now[at + (k - at)] == s[k - at];
      }
    }
  }

  method StrCpy(buf: array<char>, at: nat, s: string)
    requires at + |s| < buf.Length
    modifies buf
    ensures buf[..at + |s| + 1] == old(buf[..at]) + s + ['\0']
  {
    ghost var was := buf[..];
    forall i | 0 <= i < |s| {
      buf[at + i] := s[i];
    }
    buf[at + |s|] := '\0';
    Copied(was, buf[..], at, s);
    assert was[..at] == old(buf[..at]);
    assert buf[..][..at + |s| + 1] == buf[..at + |s| + 1];
  }

  /** The last character of a text replaced. */
  method SetLast(buf: array<char>, n: nat, ghost text: string, c: char)
    requires n < buf.Length && buf[..n + 1] == text + ['\0']
    modifies buf
    ensures buf[..n + 1] == text + [c]
  {
    assert buf[..n] == buf[..n + 1][..n] == text;
    buf[n] := c;
    assert buf[..n + 1] == buf[..n] + [buf[n]];
  }

  /** One line: printed into a scratch buffer, copied behind the text so far, its NUL turned into a newline unless
      it is the last. It takes at most 26 bytes. */
  method PackLine(buf: array<char>, at: nat, line: Line, last: bool) returns (next: nat)
    requires ValidBssid(line.bssid) && -32768 <= line.rssi < 32768 && line.nOcc < 256
    requires at + 26 <= buf.Length && at + 26 < 65536
    modifies buf
    ensures next == at + |LineText(line)| + 1 <= at + 26
    ensures buf[..next] == old(buf[..at]) + LineText(line) + [if last then '\0' else '\n']
  {
    ghost var before := buf[..at];
    var text := LineText(line);
    LineLength(line);
    hide LineText, ValidBssid;
    var buffer := Snprintf(MAX_ENTRY_LENGTH, text);
    var bytesWritten := (|text| + 1) % 65536;
    StrCpy(buf, at, buffer);
    next := (at + bytesWritten) % 65536;
    if !last {
      SetLast(buf, next - 1, before + text, '\n');
    }
  }

  /** The text of the first `n` lines, each with its terminator. */
  ghost function Packed(lines: seq<Line>, n: nat): string
    requires ValidLines(lines) && n <= |lines|
  {
    if n == 0 then "" else Packed(lines, n - 1) + LineText(lines[n - 1]) + [if n == |lines| then '\0' else '\n']
  }

  lemma {:induction false} PackedPrefix(lines: seq<Line>, n: nat)
    requires ValidLines(lines) && n < |lines|
    ensures Packed(lines, n) + Joined(lines[n..]) == Joined(lines)
  {
    hide LineText, ValidBssid;
    if n == 0 {
      assert lines[0..] == lines;
    } else {
      PackedPrefix(lines, n - 1);
      var tail := lines[n - 1..];
      assert tail[0] == lines[n - 1] && tail[1..] == lines[n..];
      assert Joined(tail) == LineText(lines[n - 1]) + "\n" + Joined(lines[n..]);
    }
  }

  lemma PackedLast(lines: seq<Line>)
    requires ValidLines(lines) && lines != []
    ensures var n := |lines|;
            && Packed(lines, n) == Packed(lines, n - 1) + LineText(lines[n - 1]) + ['\0']
            && Joined(lines[n - 1..]) == LineText(lines[n - 1])
  {
    assert |lines[|lines| - 1..]| == 1;
    hide LineText;
  }

  /** The terminators amount to newlines between the lines and one NUL at the end. */
  lemma PackedWhole(lines: seq<Line>)
    requires ValidLines(lines) && lines != []
    ensures Packed(lines, |lines|) == Joined(lines) + ['\0']
  {
    PackedLast(lines);
    PackedPrefix(lines, |lines| - 1);
    hide *;
  }

  /** What a scan command leaves its caller: the buffer holds the joined lines and a NUL, and the reported length is
      the text's; without any line the length is that of no text minus one, in 16 bits. */
  ghost predicate Holds(buf: seq<char>, nbuf: nat, lines: seq<Line>)
    requires ValidLines(lines)
  {
    && |buf| == MAX_ENTRY_LENGTH * |lines|
    && (lines == [] ==> nbuf == 65535)
    && (lines != [] ==> nbuf == |Joined(lines)| < |buf| && buf[..nbuf] == Joined(lines) && buf[nbuf] == '\0')
  }

  lemma HoldsPacked(buf: seq<char>, at: nat, lines: seq<Line>)
    requires ValidLines(lines) && |buf| == MAX_ENTRY_LENGTH * |lines| && at <= |buf| && at < 65536
    requires buf[..at] == Packed(lines, |lines|)
    ensures Holds(buf, (at + 65535) % 65536, lines)
  {
    hide Joined, LineText, ValidLines;
    if lines == [] {
      assert at == 0;
    } else {
      PackedWhole(lines);
      hide Packed;
      Terminated(buf, at, Joined(lines));
    }
  }

  lemma Terminated(buf: seq<char>, at: nat, text: string)
    requires at <= |buf| && buf[..at] == text + ['\0']
    ensures at == |text| + 1 && buf[..at - 1] == text && buf[at - 1] == '\0'
  {
    assert buf[at - 1] == buf[..at][at - 1];
    assert buf[..at - 1] == buf[..at][..at - 1];
  }

  /** Main result: the text reads back as the lines, in order. */
  lemma HeldTextReads(buf: seq<char>, nbuf: nat, lines: seq<Line>)
    requires ValidLines(lines) && lines != [] && Holds(buf, nbuf, lines)
    ensures nbuf < |buf| && Parse(buf[..nbuf]) == Some(lines)
  {
    TextReads(lines);
  }

  // --- wifi_scan2 ------------------------------------------------------------------------------------------

  datatype Status = TableFull | NoMemory | DividedByZero | Done

  /** The printed lines of a table; a row that is never reached by the averaging has no line of its own. */
  ghost function LinesOf(rows: seq<ApRecord>): (lines: seq<Line>)
    ensures |lines| == |rows|
    ensures forall i :: 0 <= i < |rows| ==>
              lines[i].bssid == rows[i].bssid && (rows[i].nOcc > 0 ==> lines[i] == LineOf(rows[i]))
  {
    seq(|rows|, i requires 0 <= i < |rows| => if rows[i].nOcc > 0 then LineOf(rows[i]) else Line(rows[i].bssid, 0, 0))
  }

  ghost predicate ValidRows(rows: seq<ApRecord>) {
    forall i :: 0 <= i < |rows| ==> ValidBssid(rows[i].bssid) && rows[i].nOcc < 256
  }

  /** One row: averaged in place and packed. */
  method PackRow(table: array<ApRecord>, n: nat, buf: array<char>, at: nat, i: nat, ghost lines: seq<Line>)
    returns (next: nat)
    requires i < n < TABLE_SIZE == table.Length && buf.Length == MAX_ENTRY_LENGTH * n && at <= 26 * i
    requires 0 < table[i].nOcc < 256 && |lines| == n && ValidLines(lines) && lines[i] == LineOf(table[i])
    requires buf[..at] == Packed(lines, i)
    modifies table, buf
    ensures next <= 26 * (i + 1)
    ensures forall k :: 0 <= k < n && k != i ==> table[k] == old(table[k])
    ensures buf[..next] == Packed(lines, i + 1)
  {
    PackedMore(lines, i, table[i]);
    hide Packed, LineText, Average, LineOf;
    var average := Average(table[i]);
    table[i] := table[i].(rssi := average);
    next := PackLine(buf, at, Line(table[i].bssid, table[i].rssi, table[i].nOcc), i == n - 1);
  }

  /** The averaging and packing pass over the first `n` rows; stops at a counter of zero. */
  method PackTable(table: array<ApRecord>, n: nat, buf: array<char>, ghost lines: seq<Line>) returns (ok: bool, at: nat)
    requires n < TABLE_SIZE == table.Length && buf.Length == MAX_ENTRY_LENGTH * n && ValidRows(table[..n])
    requires |lines| == n && ValidLines(lines)
    requires forall i :: 0 <= i < n && table[i].nOcc > 0 ==> lines[i] == LineOf(table[i])
    modifies table, buf
    ensures ok <==> forall i :: 0 <= i < n ==> old(table[i].nOcc) > 0
    ensures ok ==> at <= 26 * n && buf[..at] == Packed(lines, n)
  {
    hide LineOf, Packed;
    at := 0;
    ghost var rows := table[..n];
    PackedNone(lines);
    for i := 0 to n
      invariant at <= 26 * i
      invariant forall k :: 0 <= k < i ==> rows[k].nOcc > 0
      invariant forall k :: i <= k < n ==> table[k] == rows[k]
      invariant buf[..at] == Packed(lines, i)
    {
      assert table[i] == rows[i];
      if table[i].nOcc == 0 {
        return false, at;
      }
      at := PackRow(table, n, buf, at, i, lines);
    }
    ok := true;
  }

  lemma PackedNone(lines: seq<Line>)
    requires ValidLines(lines)
    ensures Packed(lines, 0) == ""
  {
  }

  lemma PackedNext(lines: seq<Line>, i: nat)
    requires ValidLines(lines) && i < |lines|
    ensures Packed(lines, i + 1) == Packed(lines, i) + LineText(lines[i]) + [if i == |lines| - 1 then '\0' else '\n']
  {
    hide LineText;
  }

  lemma PackedMore(lines: seq<Line>, i: nat, row: ApRecord)
    requires ValidLines(lines) && i < |lines| && row.nOcc > 0 && lines[i] == LineOf(row)
    ensures lines[i] == Line(row.bssid, Average(row), row.nOcc) && -32768 <= Average(row) < 32768
    ensures Packed(lines, i + 1) == Packed(lines, i) + LineText(lines[i]) + [if i == |lines| - 1 then '\0' else '\n']
  {
    PackedNext(lines, i);
    hide LineText, Packed;
  }

  /** Every row of the summary of valid records is printable. */
  lemma SummaryRows(records: seq<Record>)
    requires ValidRecords(records)
    ensures ValidRows(Summary(records))
  {
    DistinctKeys(records);
    hide Distinct, Count, Sum;
    forall i | 0 <= i < |Distinct(records)|
      ensures ValidBssid(Distinct(records)[i])
    {
      assert Distinct(records)[i] in Distinct(records);
    }
  }

  lemma {:induction false} FlattenValid(scans: seq<seq<Record>>)
    requires forall i :: 0 <= i < |scans| ==> ValidRecords(scans[i])
    ensures ValidRecords(Flatten(scans))
    decreases |scans|
  {
    if scans != [] {
      FlattenValid(scans[..|scans| - 1]);
    }
  }

  /** The pass over the table and the length it reports. */
  method HoldTable(table: array<ApRecord>, n: nat, buf: array<char>, ghost rows: seq<ApRecord>)
    returns (ok: bool, nbuf: nat)
    requires n < TABLE_SIZE == table.Length && buf.Length == MAX_ENTRY_LENGTH * n
    requires table[..n] == rows && ValidRows(rows)
    modifies table, buf
    ensures ok <==> forall i :: 0 <= i < n ==> rows[i].nOcc > 0
    ensures ok ==> ValidLines(LinesOf(rows)) && Holds(buf[..], nbuf, LinesOf(rows))
  {
    hide LineOf, Packed, Holds;
    assert forall i :: 0 <= i < n ==> table[i] == rows[i];
    var at;
    ok, at := PackTable(table, n, buf, LinesOf(rows));
    nbuf := (at + 65535) % 65536;
    if ok {
      HoldsPacked(buf[..], at, LinesOf(rows));
    }
  }

  /** wifi_scan2, with the records of its scans given and an allocation that may fail. */
  method Scan2(scans: seq<seq<Record>>, granted: bool) returns (status: Status, buf: array<char>, nbuf: nat)
    requires forall i :: 0 <= i < |scans| ==> ValidRecords(scans[i])
    ensures var rows := Summary(Flatten(scans));
            && (status == TableFull <==> |rows| >= TABLE_SIZE)
            && (status == NoMemory <==> |rows| < TABLE_SIZE && !granted)
            && (status == DividedByZero <==>
                  |rows| < TABLE_SIZE && granted && exists i :: 0 <= i < |rows| && rows[i].nOcc == 0)
            && (status == Done ==>
                  && (forall i :: 0 <= i < |rows| ==> rows[i].nOcc > 0)
                  && ValidLines(LinesOf(rows)) && Holds(buf[..], nbuf, LinesOf(rows)))
    ensures status == Done && Flatten(scans) != [] ==>
              && nbuf < buf.Length && Parse(buf[..nbuf]).Some? && Reports(Flatten(scans), Parse(buf[..nbuf]).value)
  {
    FlattenValid(scans);
    SummaryRows(Flatten(scans));
    ghost var rows := Summary(Flatten(scans));
    hide Summary, Flatten, LinesOf, Holds, ValidRows;
    var table := new ApRecord[TABLE_SIZE](_ => ApRecord(0, [0, 0, 0, 0, 0, 0], 0));
    var nthEntry := Collect(table, scans);
    buf, nbuf := new char[0], 0;
    if nthEntry == TABLE_SIZE {
      return TableFull, buf, nbuf;
    }
    if !granted {
      return NoMemory, buf, nbuf;
    }
    buf := new char[MAX_ENTRY_LENGTH * nthEntry];
    var ok;
    ok, nbuf := HoldTable(table, nthEntry, buf, rows);
    status := if ok then Done else DividedByZero;
    if ok && Flatten(scans) != [] {
      ScanReports(Flatten(scans), buf[..], nbuf);
      assert buf[..][..nbuf] == buf[..nbuf];
      hide Reports, Parse;
    }
  }

  /** What every line of a finished wifi_scan2 says, in terms of the records alone: the addresses in the order of their
      first sighting, each with its count and its average. */
  ghost predicate Reports(records: seq<Record>, lines: seq<Line>) {
    && |lines| == |Distinct(records)|
    && forall i :: 0 <= i < |lines| ==>
         var bssid := Distinct(records)[i];
         && lines[i].bssid == bssid
         && (Count(records, bssid) <= 255 ==>
               && lines[i].nOcc == Count(records, bssid)
               && Truncated(Sum(records, bssid), Count(records, bssid), lines[i].rssi))
  }

  lemma LineReports(records: seq<Record>, i: nat)
    requires ValidRecords(records) && i < |Distinct(records)| && Summary(records)[i].nOcc > 0
    requires Count(records, Distinct(records)[i]) <= 255
    ensures var bssid, line := Distinct(records)[i], LineOf(Summary(records)[i]);
            && line.bssid == bssid && line.nOcc == Count(records, bssid)
            && Truncated(Sum(records, bssid), Count(records, bssid), line.rssi)
  {
    DistinctKeys(records);
    hide Distinct, Count, Sum, Average, Truncated;
    AverageExact(records, Distinct(records)[i], -128, 127);
  }

  /** Main result: when wifi_scan2 is done, what a reader recovers from its buffer are the addresses in the order of
      their first sighting, each seen at most 255 times with its exact count and truncated average. */
  lemma ScanReports(records: seq<Record>, buf: seq<char>, nbuf: nat)
    requires ValidRecords(records) && records != []
    requires forall i :: 0 <= i < |Summary(records)| ==> Summary(records)[i].nOcc > 0
    requires ValidLines(LinesOf(Summary(records))) && Holds(buf, nbuf, LinesOf(Summary(records)))
    ensures nbuf < |buf| && Parse(buf[..nbuf]).Some? && Reports(records, Parse(buf[..nbuf]).value)
  {
    var lines := LinesOf(Summary(records));
    SomeKey(records);
    HeldTextReads(buf, nbuf, lines);
    hide *;
    AllReport(records);
  }

  lemma SomeKey(records: seq<Record>)
    requires records != []
    ensures LinesOf(Summary(records)) != []
  {
    DistinctKeys(records);
    assert records[0].bssid in Distinct(records);
    hide Distinct;
  }

  lemma AllReport(records: seq<Record>)
    requires ValidRecords(records)
    requires forall i :: 0 <= i < |Summary(records)| ==> Summary(records)[i].nOcc > 0
    ensures Reports(records, LinesOf(Summary(records)))
  {
    hide Distinct, Count, Sum, Truncated, LineOf, ValidRecords, RowOf, Int16;
    var lines := LinesOf(Summary(records));
    forall i | 0 <= i < |lines|
      ensures lines[i].bssid == Distinct(records)[i]
      ensures Count(records, Distinct(records)[i]) <= 255 ==>
                && lines[i].nOcc == Count(records, Distinct(records)[i])
                && Truncated(Sum(records, Distinct(records)[i]), Count(records, Distinct(records)[i]), lines[i].rssi)
    {
      RowHasKey(records, i);
      if Count(records, Distinct(records)[i]) <= 255 {
        LineReports(records, i);
      }
    }
  }

  lemma RowHasKey(records: seq<Record>, i: nat)
    requires i < |Distinct(records)|
    ensures Summary(records)[i].bssid == Distinct(records)[i]
  {
    hide Distinct, Count, Sum;
  }

  // --- wifi_scan -------------------------------------------------------------------------------------------

  ghost function SightingsOf(records: seq<Record>): (lines: seq<Line>)
    ensures |lines| == |records|
    ensures forall i :: 0 <= i < |records| ==> lines[i] == Line(records[i].bssid, records[i].rssi, 1)
  {
    seq(|records|, i requires 0 <= i < |records| => Line(records[i].bssid, records[i].rssi, 1))
  }

  /** One line for each record, in order, counted once. */
  predicate Lists(records: seq<Record>, lines: seq<Line>) {
    && |lines| == |records|
    && forall i :: 0 <= i < |lines| ==> lines[i] == Line(records[i].bssid, records[i].rssi, 1)
  }

  lemma SightingsRead(records: seq<Record>, buf: seq<char>, nbuf: nat)
    requires records != [] && ValidLines(SightingsOf(records)) && Holds(buf, nbuf, SightingsOf(records))
    ensures nbuf < |buf| && Parse(buf[..nbuf]).Some? && Lists(records, Parse(buf[..nbuf]).value)
  {
    HeldTextReads(buf, nbuf, SightingsOf(records));
    hide Parse, Holds;
  }

  method PackRecords(apInfo: seq<Record>, buf: array<char>) returns (at: nat)
    requires ValidRecords(apInfo) && |apInfo| <= TABLE_SIZE && buf.Length == MAX_ENTRY_LENGTH * |apInfo|
    modifies buf
    ensures at <= 26 * |apInfo| && ValidLines(SightingsOf(apInfo)) && buf[..at] == Packed(SightingsOf(apInfo), |apInfo|)
  {
    ghost var lines := SightingsOf(apInfo);
    PackedNone(lines);
    hide Packed, LineText, SightingsOf;
    at := 0;
    for i := 0 to |apInfo|
      invariant at <= 26 * i && buf[..at] == Packed(lines, i)
    {
      PackedNext(lines, i);
      at := PackLine(buf, at, Line(apInfo[i].bssid, apInfo[i].rssi, 1), i == |apInfo| - 1);
    }
  }

  /** wifi_scan, with its records given: one line each, counted once. */
  method Scan(apInfo: seq<Record>, granted: bool) returns (status: Status, buf: array<char>, nbuf: nat)
    requires ValidRecords(apInfo) && |apInfo| <= TABLE_SIZE
    ensures status == if granted then Done else NoMemory
    ensures granted ==> ValidLines(SightingsOf(apInfo)) && Holds(buf[..], nbuf, SightingsOf(apInfo))
    ensures granted && apInfo != [] ==>
              nbuf < buf.Length && Parse(buf[..nbuf]).Some? && Lists(apInfo, Parse(buf[..nbuf]).value)
  {
    ghost var lines := SightingsOf(apInfo);
    buf, nbuf := new char[0], 0;
    if !granted {
      return NoMemory, buf, nbuf;
    }
    buf := new char[MAX_ENTRY_LENGTH * |apInfo|];
    hide Packed, Holds, LineText, Parse, Lists, SightingsOf;
    var at := PackRecords(apInfo, buf);
    nbuf := (at + 65535) % 65536;
    HoldsPacked(buf[..], at, lines);
    if apInfo != [] {
      SightingsRead(apInfo, buf[..], nbuf);
      assert buf[..][..nbuf] == buf[..nbuf];
    }
    status := Done;
  }
}
