/** The text of the daemon's state file and of the dnsmasq lease file. */
module StateFile {
  import opened Prelude
  import opened Text

  /** One line of the state file. */
  datatype Row = Row(mac: string, iface: string, ip4: string)

  /** Fields as `handle_line` stores them: split on whitespace, the MAC lower-cased. */
  predicate CleanRow(r: Row) {
    Token(r.mac) && Token(r.iface) && Token(r.ip4) && Lower(r.mac) == r.mac
  }

  ghost predicate CleanRows(rows: seq<Row>) {
    forall i :: 0 <= i < |rows| ==> CleanRow(rows[i])
  }

  function RowText(r: Row): string {
    r.mac + " " + r.iface + " " + r.ip4 + "\n"
  }

  function RenderRows(rows: seq<Row>): string {
    if rows == [] then "" else RowText(rows[0]) + RenderRows(rows[1..])
  }

  /** A line is used only when it has exactly three fields. */
  function ParseRow(line: string): (r: Option<Row>)
    ensures r.Some? ==> CleanRow(r.value)
  {
    var p := Words(line);
    if |p| != 3 then None
    else
      LowerIsStable(p[0]);
      Some(Row(Lower(p[0]), p[1], p[2]))
  }

  function ParseLines(lines: seq<string>): seq<Row> {
    if lines == [] then []
    else
      var r := ParseRow(lines[0]);
      (if r.Some? then [r.value] else []) + ParseLines(lines[1..])
  }

  function ParseRows(text: string): seq<Row> {
    ParseLines(Lines(text))
  }

  lemma ParsedRowsAreClean(lines: seq<string>)
    ensures CleanRows(ParseLines(lines))
  {
  }

  /** Exactly the lines with three fields are rows: MAC in any case, interface, address. */
  lemma {:induction false} ParsedRowsIff(lines: seq<string>, r: Row)
    ensures r in ParseLines(lines) <==>
            exists i :: 0 <= i < |lines| && |Words(lines[i])| == 3 &&
                        r.mac == Lower(Words(lines[i])[0]) && r.iface == Words(lines[i])[1] &&
                        r.ip4 == Words(lines[i])[2]
  {
    if lines != [] {
      ParsedRowsIff(lines[1..], r);
      assert forall i :: 0 < i < |lines| ==> lines[i] == lines[1..][i - 1];
      assert forall i :: 0 <= i < |lines| - 1 ==> lines[1..][i] == lines[i + 1];
    }
  }

  lemma WordsOfRow(r: Row)
    requires CleanRow(r)
    ensures Words(r.mac + " " + r.iface + " " + r.ip4) == [r.mac, r.iface, r.ip4]
  {
    var tail := r.iface + " " + r.ip4;
    calc {
      Words(r.mac + " " + r.iface + " " + r.ip4);
      { assert r.mac + " " + r.iface + " " + r.ip4 == r.mac + " " + tail; }
      Words(r.mac + " " + tail);
      { WordsBeforeSpace(r.mac, tail); }
      [r.mac] + Words(tail);
      { WordsBeforeSpace(r.iface, r.ip4); }
      [r.mac] + ([r.iface] + Words(r.ip4));
      { WordsAfterToken(r.ip4, ""); assert r.ip4 + "" == r.ip4; }
      [r.mac, r.iface, r.ip4];
    }
  }

  lemma ParseOfRowText(r: Row)
    requires CleanRow(r)
    ensures ParseRow(r.mac + " " + r.iface + " " + r.ip4) == Some(r)
  {
    WordsOfRow(r);
  }

  /** A written line holds the MAC, the interface and the address, in this order. */
  lemma RowTextFields(r: Row)
    requires CleanRow(r)
    ensures Lines(RowText(r)) == [r.mac + " " + r.iface + " " + r.ip4]
    ensures Words(r.mac + " " + r.iface + " " + r.ip4) == [r.mac, r.iface, r.ip4]
  {
    var line := r.mac + " " + r.iface + " " + r.ip4;
    WordsOfRow(r);
    TokenHasNoBreak(r.mac);
    TokenHasNoBreak(r.iface);
    TokenHasNoBreak(r.ip4);
    LinesAfterLine(line, "");
    assert RowText(r) == line + "\n" + "";
  }

  lemma TokenHasNoBreak(t: string)
    requires Token(t)
    ensures forall i :: 0 <= i < |t| ==> !IsBreak(t[i])
  {
  }

  /** What `persist` writes, `restore` reads back row for row, in order. */
  lemma {:induction false} RowsRoundTrip(rows: seq<Row>)
    requires CleanRows(rows)
    ensures ParseRows(RenderRows(rows)) == rows
  {
    if rows != [] {
      var r := rows[0];
      assert CleanRow(r);
      var line := r.mac + " " + r.iface + " " + r.ip4;
      TokenHasNoBreak(r.mac);
      TokenHasNoBreak(r.iface);
      TokenHasNoBreak(r.ip4);
      LinesAfterLine(line, RenderRows(rows[1..]));
      assert RenderRows(rows) == line + "\n" + RenderRows(rows[1..]);
      ParseOfRowText(r);
      RowsRoundTrip(rows[1..]);
    }
  }

  ghost predicate Listed(rows: seq<Row>, ip4: string) {
    exists i :: 0 <= i < |rows| && rows[i].ip4 == ip4
  }

  ghost predicate DistinctMacs(rows: seq<Row>) {
    forall i, j :: 0 <= i < j < |rows| ==> rows[i].mac != rows[j].mac
  }

  // ---- the lease file -------------------------------------------------------

  function LiveRows(lines: seq<string>): set<(string, string)> {
    if lines == [] then {}
    else
      var c := Words(lines[0]);
      (if |c| >= 3 then {(Lower(c[1]), c[2])} else {}) + LiveRows(lines[1..])
  }

  /** The (MAC, IPv4) pairs dnsmasq currently leases, or None when its file cannot be read. */
  function LiveLeases(leaseFile: Option<string>): Option<set<(string, string)>> {
    if leaseFile.None? then None else Some(LiveRows(Lines(leaseFile.value)))
  }

  /** A dnsmasq lease: expiry time, MAC, address, and whatever follows on the line (host name, client id). */
  datatype LeaseEntry = LeaseEntry(expiry: string, mac: string, ip4: string, rest: string)

  ghost predicate CleanEntry(e: LeaseEntry) {
    && Token(e.expiry) && Token(e.mac) && Token(e.ip4)
    && (e.rest == "" || IsSpace(e.rest[0])) && forall i :: 0 <= i < |e.rest| ==> !IsBreak(e.rest[i])
  }

  function EntryLine(e: LeaseEntry): string {
    e.expiry + " " + (e.mac + " " + (e.ip4 + e.rest))
  }

  function LeaseFileText(entries: seq<LeaseEntry>): string {
    if entries == [] then "" else EntryLine(entries[0]) + "\n" + LeaseFileText(entries[1..])
  }

  /** The lease file says that this MAC, in whatever case, holds the address. */
  ghost predicate Leases(entries: seq<LeaseEntry>, mac: string, ip4: string) {
    exists i :: 0 <= i < |entries| && Lower(entries[i].mac) == mac && entries[i].ip4 == ip4
  }

  lemma EntryWords(e: LeaseEntry)
    requires CleanEntry(e)
    ensures |Words(EntryLine(e))| >= 3 && Words(EntryLine(e))[..3] == [e.expiry, e.mac, e.ip4]
  {
    WordsAfterToken(e.ip4, e.rest);
    WordsBeforeSpace(e.mac, e.ip4 + e.rest);
    WordsBeforeSpace(e.expiry, e.mac + " " + (e.ip4 + e.rest));
  }

  lemma EntryHasNoBreak(e: LeaseEntry)
    requires CleanEntry(e)
    ensures forall i :: 0 <= i < |EntryLine(e)| ==> !IsBreak(EntryLine(e)[i])
  {
    TokenHasNoBreak(e.expiry);
    TokenHasNoBreak(e.mac);
    TokenHasNoBreak(e.ip4);
  }

  lemma LeaseFileLines(entries: seq<LeaseEntry>)
    requires entries != [] && CleanEntry(entries[0])
    ensures Lines(LeaseFileText(entries)) == [EntryLine(entries[0])] + Lines(LeaseFileText(entries[1..]))
  {
    EntryHasNoBreak(entries[0]);
    LinesAfterLine(EntryLine(entries[0]), LeaseFileText(entries[1..]));
  }

  lemma LeasesStep(entries: seq<LeaseEntry>, mac: string, ip4: string)
    requires entries != []
    ensures Leases(entries, mac, ip4) <==>
            (Lower(entries[0].mac) == mac && entries[0].ip4 == ip4) || Leases(entries[1..], mac, ip4)
  {
    assert forall i :: 0 <= i < |entries| - 1 ==> entries[1..][i] == entries[i + 1];
  }

  lemma EntryIsLive(e: LeaseEntry, later: seq<string>)
    requires CleanEntry(e)
    ensures LiveRows([EntryLine(e)] + later) == {(Lower(e.mac), e.ip4)} + LiveRows(later)
  {
    EntryWords(e);
    var c := Words(EntryLine(e));
    assert c[1] == c[..3][1] && c[2] == c[..3][2];
    assert ([EntryLine(e)] + later)[1..] == later;
  }

  /** Reading a lease file gives exactly the pairs of lower-cased MAC and address that it lists. */
  lemma {:induction false} LeaseFileReadsBack(entries: seq<LeaseEntry>, mac: string, ip4: string)
    requires forall i :: 0 <= i < |entries| ==> CleanEntry(entries[i])
    ensures (mac, ip4) in LiveRows(Lines(LeaseFileText(entries))) <==> Leases(entries, mac, ip4)
  {
    if entries != [] {
      LeaseFileLines(entries);
      EntryIsLive(entries[0], Lines(LeaseFileText(entries[1..])));
      LeaseFileReadsBack(entries[1..], mac, ip4);
      LeasesStep(entries, mac, ip4);
    }
  }

  /** A line with fewer than three fields lists nothing. */
  lemma ShortLineLeasesNothing(line: string, later: seq<string>)
    requires |Words(line)| < 3
    ensures LiveRows([line] + later) == LiveRows(later)
  {
    assert ([line] + later)[1..] == later;
  }

  /** A restored row survives unless a readable lease file no longer lists it. */
  predicate Kept(r: Row, live: Option<set<(string, string)>>) {
    live.None? || (r.mac, r.ip4) in live.value
  }

  function KeptRows(rows: seq<Row>, live: Option<set<(string, string)>>): seq<Row> {
    if rows == [] then []
    else if Kept(rows[0], live) then [rows[0]] + KeptRows(rows[1..], live)
    else KeptRows(rows[1..], live)
  }

  lemma {:induction false} KeptRowsAre(rows: seq<Row>, live: Option<set<(string, string)>>)
    ensures forall r :: r in KeptRows(rows, live) <==> r in rows && Kept(r, live)
    ensures DistinctMacs(rows) ==> DistinctMacs(KeptRows(rows, live))
    ensures CleanRows(rows) ==> CleanRows(KeptRows(rows, live))
  {
    if rows != [] {
      var first, rest := rows[0], rows[1..];
      KeptRowsAre(rest, live);
      assert rows == [first] + rest;
      if DistinctMacs(rows) && Kept(first, live) {
        assert forall i :: 0 <= i < |rest| ==> rest[i].mac != first.mac;
        DistinctCons(first, KeptRows(rest, live));
      }
    }
  }

  lemma DistinctCons(r: Row, rows: seq<Row>)
    requires DistinctMacs(rows) && forall x :: x in rows ==> x.mac != r.mac
    ensures DistinctMacs([r] + rows)
  {
  }
}
