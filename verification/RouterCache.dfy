/**
 * The persistent map from the interface's own MAC to the router's MAC: one file per network on
 * macOS, one registry value per network on Windows.
 */
module RouterCache {
  import opened Prelude
  import opened Inet
  import opened Text

  type Mac = m: seq<Octet> | |m| == 6 witness [0, 0, 0, 0, 0, 0]

  // ---- MAC text -------------------------------------------------------------

  /** "%02x:..." on macOS, "%02X-..." in the Windows registry. */
  datatype Style = Style(sep: char, upper: bool)

  const COLON := Style(':', false)
  const HYPHEN := Style('-', true)

  function OctetText(b: Octet, upper: bool): string {
    HexText(b as nat, 2, upper)
  }

  function Printed(m: Mac, upper: bool): (fields: seq<string>)
    ensures |fields| == 6
    ensures forall i :: 0 <= i < 6 ==> fields[i] == OctetText(m[i], upper)
  {
    seq(6, i requires 0 <= i < 6 => OctetText(m[i], upper))
  }

  function MacText(m: Mac, style: Style): string {
    Join(Printed(m, style.upper), style.sep)
  }

  /** How many hexadecimal digits a text starts with. */
  function HexRun(s: string): (n: nat)
    ensures n <= |s|
    ensures forall i :: 0 <= i < n ==> IsHex(s[i])
    ensures n < |s| ==> !IsHex(s[n])
  {
    if s == "" || !IsHex(s[0]) then 0 else 1 + HexRun(s[1..])
  }

  /** The digit runs sscanf matches for `n` octets with a literal separator; what follows the last is ignored. */
  function ScanFields(s: string, n: nat, sep: char): (r: Option<seq<string>>)
    ensures r.Some? ==> |r.value| == n && forall i :: 0 <= i < n ==> HexField(r.value[i])
  {
    if n == 0 then Some([])
    else
      var k := HexRun(s);
      if k == 0 then None
      else if n == 1 then Some([s[..k]])
      else if k == |s| || s[k] != sep then None
      else
        var rest := ScanFields(s[k + 1..], n - 1, sep);
        if rest.None? then None else Some([s[..k]] + rest.value)
  }

  /** The value of a digit run, cut down to eight bits. */
  function OctetOf(field: string): Octet
    requires HexField(field)
  {
    if HexNumber(field) < 256 then HexNumber(field) as bv8 else (HexNumber(field) % 256) as bv8
  }

  function MacOf(fields: seq<string>): Mac
    requires |fields| == 6 && forall i :: 0 <= i < 6 ==> HexField(fields[i])
  {
    [OctetOf(fields[0]), OctetOf(fields[1]), OctetOf(fields[2]),
     OctetOf(fields[3]), OctetOf(fields[4]), OctetOf(fields[5])]
  }

  function ScanMac(s: string, sep: char): Option<Mac> {
    var f := ScanFields(s, 6, sep);
    if f.None? then None else Some(MacOf(f.value))
  }

  lemma HexRunOfField(t: string, rest: string)
    requires HexField(t) && (rest == "" || !IsHex(rest[0]))
    ensures HexRun(t + rest) == |t| && (t + rest)[..|t|] == t && (t + rest)[|t|..] == rest
  {
  }

  lemma ScanLast(t: string, tail: string, sep: char)
    requires HexField(t) && (tail == "" || !IsHex(tail[0]))
    ensures ScanFields(t + tail, 1, sep) == Some([t])
  {
    HexRunOfField(t, tail);
  }

  lemma ScanStep(t: string, later: string, n: nat, sep: char)
    requires n > 1 && HexField(t) && !IsHex(sep)
    requires ScanFields(later, n - 1, sep).Some?
    ensures ScanFields(t + [sep] + later, n, sep) == Some([t] + ScanFields(later, n - 1, sep).value)
  {
    var s := t + [sep] + later;
    HexRunOfField(t, [sep] + later);
    assert s == t + ([sep] + later);
    assert s[|t|] == sep && s[|t| + 1..] == later;
  }

  /** Scanning joined fields gives the fields back, whatever follows them. */
  lemma {:induction false} JoinThenScan(fields: seq<string>, sep: char, tail: string)
    requires fields != [] && !IsHex(sep) && (tail == "" || !IsHex(tail[0]))
    requires forall i :: 0 <= i < |fields| ==> HexField(fields[i])
    ensures ScanFields(Join(fields, sep) + tail, |fields|, sep) == Some(fields)
  {
    var t := fields[0];
    if |fields| == 1 {
      ScanLast(t, tail, sep);
      assert fields == [t];
    } else {
      var later := Join(fields[1..], sep) + tail;
      JoinTail(fields, sep, tail);
      JoinThenScan(fields[1..], sep, tail);
      ScanStep(t, later, |fields|, sep);
      assert fields == [t] + fields[1..];
    }
  }

  lemma JoinTail(fields: seq<string>, sep: char, tail: string)
    requires |fields| > 1
    ensures Join(fields, sep) + tail == fields[0] + [sep] + (Join(fields[1..], sep) + tail)
  {
    Regroup(fields[0] + [sep], Join(fields[1..], sep), tail);
  }

  lemma OctetReadsBack(b: Octet, upper: bool)
    ensures HexField(OctetText(b, upper)) && OctetOf(OctetText(b, upper)) == b
  {
    HexTextValue(b as nat, upper);
  }

  lemma FieldsRead(fields: seq<string>, m: Mac)
    requires |fields| == 6 && forall i :: 0 <= i < 6 ==> HexField(fields[i]) && OctetOf(fields[i]) == m[i]
    ensures MacOf(fields) == m
  {
  }

  lemma PrintedReadsBack(m: Mac, upper: bool)
    ensures forall i :: 0 <= i < 6 ==> HexField(Printed(m, upper)[i])
    ensures MacOf(Printed(m, upper)) == m
  {
    forall i | 0 <= i < 6
      ensures HexField(Printed(m, upper)[i]) && OctetOf(Printed(m, upper)[i]) == m[i]
    {
      OctetReadsBack(m[i], upper);
    }
    FieldsRead(Printed(m, upper), m);
  }

  /** Scanning a printed MAC gives it back, in either style and whatever follows it. */
  lemma PrintThenScan(m: Mac, style: Style, tail: string)
    requires !IsHex(style.sep) && (tail == "" || !IsHex(tail[0]))
    ensures ScanMac(MacText(m, style) + tail, style.sep) == Some(m)
  {
    PrintedReadsBack(m, style.upper);
    JoinThenScan(Printed(m, style.upper), style.sep, tail);
  }

  lemma {:induction false} JoinLength(fields: seq<string>, sep: char)
    requires fields != [] && forall i :: 0 <= i < |fields| ==> |fields[i]| == 2
    ensures |Join(fields, sep)| == 3 * |fields| - 1
  {
    if |fields| > 1 {
      JoinLength(fields[1..], sep);
    }
  }

  lemma {:induction false} JoinHasNoNewline(fields: seq<string>, sep: char)
    requires sep != '\n' && forall i :: 0 <= i < |fields| ==> '\n' !in fields[i]
    ensures '\n' !in Join(fields, sep)
  {
    if |fields| > 1 {
      JoinHasNoNewline(fields[1..], sep);
    }
  }

  /** Seventeen characters on one line. */
  lemma MacTextShape(m: Mac, style: Style)
    requires style.sep != '\n'
    ensures |MacText(m, style)| == 17 && '\n' !in MacText(m, style)
  {
    JoinLength(Printed(m, style.upper), style.sep);
    JoinHasNoNewline(Printed(m, style.upper), style.sep);
  }

  /** The i-th two-character field of a text, followed by the separator when there are more. */
  predicate FieldAt(t: string, i: nat, f: string, sep: char, more: bool) {
    && |f| == 2 && 3 * i + 1 < |t| && t[3 * i] == f[0] && t[3 * i + 1] == f[1]
    && (more ==> 3 * i + 2 < |t| && t[3 * i + 2] == sep)
  }

  lemma FieldAtNext(t: string, sep: char, later: string, i: nat, f: string, more: bool)
    requires |t| == 2 && FieldAt(later, i, f, sep, more)
    ensures FieldAt(t + ([sep] + later), i + 1, f, sep, more)
  {
  }

  lemma {:induction false} JoinAt(fields: seq<string>, sep: char, i: nat)
    requires i < |fields| && forall j :: 0 <= j < |fields| ==> |fields[j]| == 2
    ensures FieldAt(Join(fields, sep), i, fields[i], sep, i + 1 < |fields|)
  {
    if |fields| > 1 {
      JoinCons(fields, sep);
      if i > 0 {
        JoinAt(fields[1..], sep, i - 1);
        FieldAtNext(fields[0], sep, Join(fields[1..], sep), i - 1, fields[i], i + 1 < |fields|);
      }
    }
  }

  lemma OctetDigits(b: Octet)
    ensures OctetText(b, false) == ["0123456789abcdef"[b as nat / 16], "0123456789abcdef"[b as nat % 16]]
    ensures OctetText(b, true) == ["0123456789ABCDEF"[b as nat / 16], "0123456789ABCDEF"[b as nat % 16]]
  {
    DigitOf(b as nat / 16);
    DigitOf(b as nat % 16);
    TwoDigits(b as nat, false);
    TwoDigits(b as nat, true);
  }

  lemma TwoDigits(n: nat, upper: bool)
    requires n < 256
    ensures HexText(n, 2, upper) == [HexDigit(n / 16, upper), HexDigit(n % 16, upper)]
  {
    assert HexText(n / 16, 1, upper) == HexText(n / 256, 0, upper) + [HexDigit(n / 16 % 16, upper)];
  }

  lemma DigitOf(v: nat)
    requires v < 16
    ensures HexDigit(v, false) == "0123456789abcdef"[v] && HexDigit(v, true) == "0123456789ABCDEF"[v]
  {
  }

  /** "%02x:..." and "%02X-...": two digits an octet, most significant octet first, separated. */
  lemma MacTextDigits(m: Mac, i: nat)
    requires i < 6
    ensures var t := MacText(m, COLON);
            |t| == 17 && t[3 * i] == "0123456789abcdef"[m[i] as nat / 16] &&
            t[3 * i + 1] == "0123456789abcdef"[m[i] as nat % 16] && (i < 5 ==> t[3 * i + 2] == ':')
    ensures var t := MacText(m, HYPHEN);
            |t| == 17 && t[3 * i] == "0123456789ABCDEF"[m[i] as nat / 16] &&
            t[3 * i + 1] == "0123456789ABCDEF"[m[i] as nat % 16] && (i < 5 ==> t[3 * i + 2] == '-')
  {
    OctetDigits(m[i]);
    MacTextShape(m, COLON);
    MacTextShape(m, HYPHEN);
    JoinAt(Printed(m, false), ':', i);
    JoinAt(Printed(m, true), '-', i);
  }

  lemma MacTextInjective(a: Mac, b: Mac, style: Style)
    requires !IsHex(style.sep) && MacText(a, style) == MacText(b, style)
    ensures a == b
  {
    PrintThenScan(a, style, "");
    PrintThenScan(b, style, "");
    assert MacText(a, style) + "" == MacText(a, style);
    assert MacText(b, style) + "" == MacText(b, style);
  }

  // ---- files (macOS) --------------------------------------------------------

  const CACHE_DIR := "/var/db/v4gwd-arp/"

  function Path(host: Mac): string {
    CACHE_DIR + MacText(host, COLON)
  }

  function TmpPath(host: Mac): string {
    Path(host) + ".tmp"
  }

  /** fgets into a 32-byte buffer. */
  function FirstLine(content: string): string {
    var n := FieldLength(content, '\n');
    if n + 1 <= 31 && n < |content| then content[..n + 1]
    else if n <= 31 then content[..n]
    else content[..31]
  }

  /** At most 31 characters, up to and including the first newline. */
  lemma FirstLineStops(content: string)
    ensures var line := FirstLine(content);
            && line <= content && |line| <= 31 && (forall i :: 0 <= i < |line| - 1 ==> line[i] != '\n')
            && (line == content || |line| == 31 || (line != "" && line[|line| - 1] == '\n'))
  {
  }

  function FileLookup(fs: map<string, string>, host: Mac): Option<Mac> {
    if Path(host) !in fs || fs[Path(host)] == "" then None else ScanMac(FirstLine(fs[Path(host)]), ':')
  }

  /** What a put writes. */
  function EntryText(router: Mac): string {
    MacText(router, COLON) + "\n"
  }

  function WriteTmp(fs: map<string, string>, host: Mac, text: string): map<string, string> {
    fs[TmpPath(host) := text]
  }

  /** rename(tmp, path). */
  function RenameOver(fs: map<string, string>, host: Mac): map<string, string> {
    if TmpPath(host) in fs then fs[Path(host) := fs[TmpPath(host)]] - {TmpPath(host)} else fs
  }

  /** How a put goes: the temporary file cannot be opened, or not renamed with whatever it holds by then. */
  datatype PutResult = Stored | NotOpened | NotRenamed(text: string)

  function FilePut(fs: map<string, string>, host: Mac, router: Mac, result: PutResult): map<string, string> {
    if FileLookup(fs, host) == Some(router) then fs
    else match result
      case Stored => RenameOver(WriteTmp(fs, host, EntryText(router)), host)
      case NotOpened => fs
      case NotRenamed(text) => WriteTmp(fs, host, text)
  }

  /** Entry files and temporary files of any two networks never collide. */
  lemma PathsNeverCollide(a: Mac, b: Mac)
    ensures Path(a) == Path(b) ==> a == b
    ensures TmpPath(a) == TmpPath(b) ==> a == b
    ensures Path(a) != TmpPath(b)
  {
    MacTextShape(a, COLON);
    MacTextShape(b, COLON);
    assert |Path(a)| != |TmpPath(b)|;
    if Path(a) == Path(b) {
      assert MacText(a, COLON) == Path(a)[|CACHE_DIR|..] == Path(b)[|CACHE_DIR|..] == MacText(b, COLON);
      MacTextInjective(a, b, COLON);
    }
    if TmpPath(a) == TmpPath(b) {
      assert Path(a) == TmpPath(a)[..|Path(a)|] == TmpPath(b)[..|Path(b)|] == Path(b);
      assert MacText(a, COLON) == Path(a)[|CACHE_DIR|..] == Path(b)[|CACHE_DIR|..] == MacText(b, COLON);
      MacTextInjective(a, b, COLON);
    }
  }

  lemma WrittenEntryReadsBack(router: Mac)
    ensures ScanMac(FirstLine(EntryText(router)), ':') == Some(router)
  {
    var t := MacText(router, COLON);
    MacTextShape(router, COLON);
    FieldLengthIs(t, "\n", '\n');
    assert FirstLine(t + "\n") == t + "\n";
    PrintThenScan(router, COLON, "\n");
  }

  /**
   * Until the rename, whatever has been written, every lookup is as before: a crash leaves the old
   * entry or the new one.
   */
  lemma TmpIsInvisible(fs: map<string, string>, host: Mac, text: string, h: Mac)
    ensures FileLookup(WriteTmp(fs, host, text), h) == FileLookup(fs, h)
  {
    PathsNeverCollide(h, host);
  }

  lemma RenamedEntry(fs: map<string, string>, host: Mac, text: string)
    ensures RenameOver(WriteTmp(fs, host, text), host) == fs[Path(host) := text] - {TmpPath(host)}
  {
  }

  /** Renaming replaces one entry and no other. */
  lemma RenamedLookup(fs: map<string, string>, host: Mac, text: string, h: Mac)
    ensures FileLookup(RenameOver(WriteTmp(fs, host, text), host), h) ==
            if h != host then FileLookup(fs, h) else if text == "" then None else ScanMac(FirstLine(text), ':')
  {
    PathsNeverCollide(h, host);
    PathsNeverCollide(host, host);
    RenamedEntry(fs, host, text);
  }

  /** A put that is stored is read back under its key and changes no other; one that is not changes none. */
  lemma FilePutThenLookup(fs: map<string, string>, host: Mac, router: Mac, result: PutResult, h: Mac)
    ensures FileLookup(FilePut(fs, host, router, result), h) ==
            if h == host && result.Stored? then Some(router) else FileLookup(fs, h)
  {
    RenamedLookup(fs, host, EntryText(router), h);
    WrittenEntryReadsBack(router);
    if result.NotRenamed? {
      TmpIsInvisible(fs, host, result.text, h);
    }
  }

  // ---- a write that falls short (macOS) -------------------------------------

  /** Text cut off before the last field's first digit does not scan. */
  lemma {:induction false} CutShort(fields: seq<string>, sep: char, k: nat)
    requires fields != [] && !IsHex(sep) && k < 3 * |fields| - 2
    requires forall i :: 0 <= i < |fields| ==> HexField(fields[i]) && |fields[i]| == 2
    ensures k <= |Join(fields, sep)| && ScanFields(Join(fields, sep)[..k], |fields|, sep) == None
  {
    JoinLength(fields, sep);
    if |fields| == 1 {
      NothingScans(1, sep);
    } else {
      var t, later := fields[0], Join(fields[1..], sep);
      JoinCons(fields, sep);
      assert ScanFields((t + ([sep] + later))[..k], |fields|, sep) == None by {
        if k > 2 {
          CutShort(fields[1..], sep, k - 3);
        }
        CutStep(t, later, |fields|, sep, k);
      }
    }
  }

  lemma JoinCons(fields: seq<string>, sep: char)
    requires |fields| > 1
    ensures Join(fields, sep) == fields[0] + ([sep] + Join(fields[1..], sep))
  {
  }

  lemma NothingScans(n: nat, sep: char)
    requires n > 0
    ensures ScanFields("", n, sep) == None
  {
  }

  lemma CutStep(t: string, later: string, n: nat, sep: char, k: nat)
    requires HexField(t) && |t| == 2 && !IsHex(sep) && n > 1 && k <= 3 + |later|
    requires k > 2 ==> ScanFields(later[..k - 3], n - 1, sep) == None
    ensures ScanFields((t + ([sep] + later))[..k], n, sep) == None
  {
    CutJoined(t, [sep], later, k);
    if k == 0 {
      NothingScans(n, sep);
    } else if k <= 2 {
      CutInField(t[..k], n, sep);
    } else {
      CutAfterField(t, later[..k - 3], n, sep);
    }
  }

  lemma CutJoined(t: string, sep: string, later: string, k: nat)
    requires k <= |t| + |sep| + |later| && |sep| == 1
    ensures k <= |t| ==> (t + (sep + later))[..k] == t[..k]
    ensures k > |t| ==> (t + (sep + later))[..k] == t + (sep + later[..k - |t| - 1])
  {
  }

  lemma CutInField(t: string, n: nat, sep: char)
    requires HexField(t) && n > 1
    ensures ScanFields(t, n, sep) == None
  {
    HexRunOfField(t, "");
    assert t + "" == t;
  }

  lemma CutAfterField(t: string, later: string, n: nat, sep: char)
    requires HexField(t) && !IsHex(sep) && n > 1 && ScanFields(later, n - 1, sep) == None
    ensures ScanFields(t + ([sep] + later), n, sep) == None
  {
    HexRunOfField(t, [sep] + later);
    assert (t + ([sep] + later))[|t| + 1..] == later;
  }

  /** Text that lacks its last digit is a join of the same fields but for that digit. */
  lemma {:induction false} CutLastDigit(fields: seq<string>, sep: char)
    requires fields != [] && forall i :: 0 <= i < |fields| ==> |fields[i]| == 2
    ensures var n, t := |fields| - 1, Join(fields, sep);
            |t| > 0 && t[..|t| - 1] == Join(fields[..n] + [fields[n][..1]], sep)
  {
    JoinLength(fields, sep);
    var n, t := |fields| - 1, Join(fields, sep);
    var cut := fields[..n] + [fields[n][..1]];
    if n > 0 {
      CutLastDigit(fields[1..], sep);
      assert cut[1..] == fields[1..][..n - 1] + [fields[1..][n - 1][..1]];
      assert t[..|t| - 1] == fields[0] + [sep] + Join(fields[1..], sep)[..|t| - 4];
    }
  }

  /** The MAC that a lookup sees when the last digit is missing. */
  function LostDigit(m: Mac): Mac {
    m[5 := m[5] >> 4]
  }

  lemma ShiftIsDivision(b: Octet)
    ensures (b >> 4) as nat == b as nat / 16
  {
  }

  lemma FirstDigit(b: Octet)
    ensures HexField(OctetText(b, false)[..1]) && OctetOf(OctetText(b, false)[..1]) == b >> 4
  {
    ShiftIsDivision(b);
    HexFirstDigit(b as nat, false);
  }

  lemma CutFields(router: Mac)
    ensures var cut := Printed(router, false)[..5] + [Printed(router, false)[5][..1]];
            (forall i :: 0 <= i < 6 ==> HexField(cut[i])) && MacOf(cut) == LostDigit(router)
  {
    var cut := Printed(router, false)[..5] + [Printed(router, false)[5][..1]];
    forall i | 0 <= i < 6
      ensures HexField(cut[i]) && OctetOf(cut[i]) == LostDigit(router)[i]
    {
      if i == 5 {
        FirstDigit(router[5]);
      } else {
        OctetReadsBack(router[i], false);
      }
    }
    FieldsRead(cut, LostDigit(router));
  }

  lemma CutEntryScans(router: Mac, t: string)
    requires t == MacText(router, COLON) && |t| == 17
    ensures ScanMac(t[..16], ':') == Some(LostDigit(router))
  {
    var fields := Printed(router, false);
    var cut := fields[..5] + [fields[5][..1]];
    CutLastDigit(fields, ':');
    CutFields(router);
    JoinThenScan(cut, ':', "");
    assert Join(cut, ':') + "" == Join(cut, ':');
  }

  lemma NoNewlineFirstLine(s: string)
    requires '\n' !in s && |s| <= 31
    ensures FirstLine(s) == s
  {
    FieldLengthIs(s, "", '\n');
    assert s + "" == s;
  }

  /**
   * `fprintf` and `fclose` are not checked: when only `k` characters of the entry reach the file and
   * the rename succeeds, the entry is complete from the seventeenth on, names a MAC without its
   * last digit at sixteen, and is a miss below.
   */
  lemma ShortWriteReadsBackIff(fs: map<string, string>, host: Mac, router: Mac, k: nat)
    requires k <= |EntryText(router)|
    ensures var seen := FileLookup(RenameOver(WriteTmp(fs, host, EntryText(router)[..k]), host), host);
            && (seen == Some(router) <==> k >= 17 || (k == 16 && router[5] == 0))
            && seen == if k >= 17 then Some(router) else if k == 16 then Some(LostDigit(router)) else None
  {
    var t := MacText(router, COLON);
    var text := EntryText(router)[..k];
    MacTextShape(router, COLON);
    RenamedLookup(fs, host, text, host);
    LostDigitIff(router);
    if k == 18 {
      assert text == EntryText(router);
      WrittenEntryReadsBack(router);
    } else {
      assert text == t[..k];
      NoNewlineFirstLine(text);
      if k == 17 {
        PrintThenScan(router, COLON, "");
        assert text == t == t + "";
      } else if k == 16 {
        CutEntryScans(router, t);
      } else {
        PrintedReadsBack(router, false);
        CutShort(Printed(router, false), ':', k);
      }
    }
  }

  lemma LostDigitIff(m: Mac)
    ensures LostDigit(m) == m <==> m[5] == 0
  {
    assert m[5] >> 4 == m[5] <==> m[5] == 0;
  }

  /** Only the file that the own MAC names is read. */
  lemma NamedEntryIsRead(fs: map<string, string>, host: Mac, router: Mac)
    ensures var name := "/var/db/v4gwd-arp/" + MacText(host, COLON);
            && (name in fs && fs[name] == EntryText(router) ==> FileLookup(fs, host) == Some(router))
            && (name !in fs ==> FileLookup(fs, host) == None)
  {
    WrittenEntryReadsBack(router);
  }

  // ---- registry (Windows) ---------------------------------------------------

  function RegistryLookup(reg: map<string, string>, host: Mac): Option<Mac> {
    var name := MacText(host, HYPHEN);
    if name !in reg then None else ScanMac(reg[name], '-')
  }

  function RegistryPut(reg: map<string, string>, host: Mac, router: Mac): map<string, string> {
    if RegistryLookup(reg, host) == Some(router) then reg
    else reg[MacText(host, HYPHEN) := MacText(router, HYPHEN)]
  }

  lemma RegistryPutThenLookup(reg: map<string, string>, host: Mac, router: Mac, h: Mac)
    ensures RegistryLookup(RegistryPut(reg, host, router), h) ==
            if h == host then Some(router) else RegistryLookup(reg, h)
  {
    PrintThenScan(router, HYPHEN, "");
    assert MacText(router, HYPHEN) + "" == MacText(router, HYPHEN);
    if MacText(h, HYPHEN) == MacText(host, HYPHEN) {
      MacTextInjective(h, host, HYPHEN);
    }
  }

  /** Only the value that the own MAC names is read. */
  lemma NamedValueIsRead(reg: map<string, string>, host: Mac, router: Mac)
    ensures var name := MacText(host, HYPHEN);
            && (name in reg && reg[name] == MacText(router, HYPHEN) ==> RegistryLookup(reg, host) == Some(router))
            && (name !in reg ==> RegistryLookup(reg, host) == None)
  {
    PrintThenScan(router, HYPHEN, "");
    assert MacText(router, HYPHEN) + "" == MacText(router, HYPHEN);
  }

  /** Storing what is stored already touches nothing, not even the temporary file. */
  lemma UnchangedPutWritesNothing(fs: map<string, string>, reg: map<string, string>, host: Mac, router: Mac,
                                  result: PutResult)
    ensures FileLookup(fs, host) == Some(router) ==> FilePut(fs, host, router, result) == fs
    ensures RegistryLookup(reg, host) == Some(router) ==> RegistryPut(reg, host, router) == reg
  {
  }

  // ---- both refine a map ----------------------------------------------------

  function PutAll(cache: map<Mac, Mac>, puts: seq<(Mac, Mac)>): map<Mac, Mac>
    decreases |puts|
  {
    if puts == [] then cache else PutAll(cache[puts[0].0 := puts[0].1], puts[1..])
  }

  function FilePutAll(fs: map<string, string>, puts: seq<(Mac, Mac)>): map<string, string>
    decreases |puts|
  {
    if puts == [] then fs else FilePutAll(FilePut(fs, puts[0].0, puts[0].1, Stored), puts[1..])
  }

  function RegistryPutAll(reg: map<string, string>, puts: seq<(Mac, Mac)>): map<string, string>
    decreases |puts|
  {
    if puts == [] then reg else RegistryPutAll(RegistryPut(reg, puts[0].0, puts[0].1), puts[1..])
  }

  /** The directory holds exactly the entries of the map. */
  ghost predicate FilesHold(fs: map<string, string>, cache: map<Mac, Mac>) {
    forall h: Mac :: FileLookup(fs, h) == MapGet(cache, h)
  }

  ghost predicate RegistryHolds(reg: map<string, string>, cache: map<Mac, Mac>) {
    forall h: Mac :: RegistryLookup(reg, h) == MapGet(cache, h)
  }

  lemma FilePutRefines(fs: map<string, string>, cache: map<Mac, Mac>, host: Mac, router: Mac, result: PutResult)
    requires FilesHold(fs, cache)
    ensures FilesHold(FilePut(fs, host, router, result), if result.Stored? then cache[host := router] else cache)
  {
    forall h: Mac
      ensures FileLookup(FilePut(fs, host, router, result), h) ==
              MapGet(if result.Stored? then cache[host := router] else cache, h)
    {
      FilePutThenLookup(fs, host, router, result, h);
    }
  }

  lemma RegistryPutRefines(reg: map<string, string>, cache: map<Mac, Mac>, host: Mac, router: Mac)
    requires RegistryHolds(reg, cache)
    ensures RegistryHolds(RegistryPut(reg, host, router), cache[host := router])
  {
    forall h: Mac
      ensures RegistryLookup(RegistryPut(reg, host, router), h) == MapGet(cache[host := router], h)
    {
      RegistryPutThenLookup(reg, host, router, h);
    }
  }

  /** After any sequence of puts, both stores answer as the map does: the last value put, per own MAC. */
  lemma {:induction false} StoresRefineMap(fs: map<string, string>, reg: map<string, string>, cache: map<Mac, Mac>,
                                           puts: seq<(Mac, Mac)>)
    requires FilesHold(fs, cache) && RegistryHolds(reg, cache)
    ensures FilesHold(FilePutAll(fs, puts), PutAll(cache, puts))
    ensures RegistryHolds(RegistryPutAll(reg, puts), PutAll(cache, puts))
    decreases |puts|
  {
    if puts != [] {
      var (host, router) := puts[0];
      FilePutRefines(fs, cache, host, router, Stored);
      RegistryPutRefines(reg, cache, host, router);
      StoresRefineMap(FilePut(fs, host, router, Stored), RegistryPut(reg, host, router), cache[host := router],
                      puts[1..]);
    }
  }

  lemma EmptyStores()
    ensures FilesHold(map[], map[]) && RegistryHolds(map[], map[])
  {
  }
}
