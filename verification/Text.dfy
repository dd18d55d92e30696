/** The text operations the daemons rely on: str.split, str.splitlines, lower-casing and hexadecimal. */
module Text {

  // ---- whitespace and lines -------------------------------------------------

  /** str.isspace for one code point. */
  predicate IsSpace(c: char) {
    var n := c as int;
    9 <= n <= 13 || 28 <= n <= 32 || n == 0x85 || n == 0xA0 || n == 0x1680 || 0x2000 <= n <= 0x200A ||
    n == 0x2028 || n == 0x2029 || n == 0x202F || n == 0x205F || n == 0x3000
  }

  /** A line boundary of str.splitlines. */
  predicate IsBreak(c: char) {
    var n := c as int;
    10 <= n <= 13 || 28 <= n <= 30 || n == 0x85 || n == 0x2028 || n == 0x2029
  }

  /** The code points Python splits fields at, and those it splits lines at. */
  lemma SpaceTable(c: char)
    ensures IsSpace(c) <==>
            c as int in {0x09, 0x0A, 0x0B, 0x0C, 0x0D, 0x1C, 0x1D, 0x1E, 0x1F, 0x20, 0x85, 0xA0, 0x1680,
                         0x2000, 0x2001, 0x2002, 0x2003, 0x2004, 0x2005, 0x2006, 0x2007, 0x2008, 0x2009, 0x200A,
                         0x2028, 0x2029, 0x202F, 0x205F, 0x3000}
    ensures IsBreak(c) <==> c as int in {0x0A, 0x0B, 0x0C, 0x0D, 0x1C, 0x1D, 0x1E, 0x85, 0x2028, 0x2029}
    ensures IsBreak(c) ==> IsSpace(c)
  {
  }

  /** A token that str.split can yield: non-empty and free of whitespace. */
  predicate Token(s: string) {
    s != "" && forall i :: 0 <= i < |s| ==> !IsSpace(s[i])
  }

  function TokenLength(s: string): (n: nat)
    ensures n <= |s|
    ensures forall i :: 0 <= i < n ==> !IsSpace(s[i])
    ensures n < |s| ==> IsSpace(s[n])
  {
    if s == "" || IsSpace(s[0]) then 0 else 1 + TokenLength(s[1..])
  }

  /** s.split(). */
  function Words(s: string): (ws: seq<string>)
    ensures forall w :: w in ws ==> Token(w)
    decreases |s|
  {
    if s == "" then []
    else if IsSpace(s[0]) then Words(s[1..])
    else [s[..TokenLength(s)]] + Words(s[TokenLength(s)..])
  }

  /** The first token of a text is split off when whitespace (or nothing) follows it. */
  lemma WordsAfterToken(t: string, rest: string)
    requires Token(t)
    requires rest == "" || IsSpace(rest[0])
    ensures Words(t + rest) == [t] + Words(rest)
  {
    var s := t + rest;
    var n := TokenLength(s);
    assert forall i :: 0 <= i < |t| ==> s[i] == t[i];
    assert rest != "" ==> s[|t|] == rest[0];
    assert s[..n] == t && s[n..] == rest;
  }

  lemma WordsBeforeSpace(t: string, rest: string)
    requires Token(t)
    ensures Words(t + " " + rest) == [t] + Words(rest)
  {
    var s := " " + rest;
    WordsAfterToken(t, s);
    assert t + " " + rest == t + s;
    assert s[1..] == rest;
  }

  function LineLength(s: string): (n: nat)
    ensures n <= |s|
    ensures forall i :: 0 <= i < n ==> !IsBreak(s[i])
    ensures n < |s| ==> IsBreak(s[n])
  {
    if s == "" || IsBreak(s[0]) then 0 else 1 + LineLength(s[1..])
  }

  /** s.splitlines(). */
  function Lines(s: string): seq<string>
    decreases |s|
  {
    if s == "" then []
    else
      var n := LineLength(s);
      [s[..n]] + if n == |s| then [] else Lines(s[n + 1..])
  }

  lemma LinesAfterLine(line: string, rest: string)
    requires forall i :: 0 <= i < |line| ==> !IsBreak(line[i])
    ensures Lines(line + "\n" + rest) == [line] + Lines(rest)
  {
    var s := line + "\n" + rest;
    var n := LineLength(s);
    assert s[|line|] == '\n';
    assert forall i :: 0 <= i < |line| ==> s[i] == line[i];
    assert s[..n] == line && s[n + 1..] == rest;
  }

  // ---- case -----------------------------------------------------------------

  function LowerChar(c: char): char {
    if 'A' <= c <= 'Z' then (c as int + 32) as char else c
  }

  /** s.lower() on ASCII letters. */
  function Lower(s: string): (r: string)
    ensures |r| == |s|
    ensures forall i :: 0 <= i < |s| ==> r[i] == LowerChar(s[i])
  {
    seq(|s|, i requires 0 <= i < |s| => LowerChar(s[i]))
  }

  /** Lower-casing leaves no capital, changes nothing else, and is blind to the case it started from. */
  lemma LowerFoldsCase(s: string, t: string)
    requires |s| == |t|
    requires forall i :: 0 <= i < |s| ==> s[i] == t[i] || ('A' <= s[i] <= 'Z' && t[i] as int == s[i] as int + 32)
    ensures Lower(s) == Lower(t)
    ensures forall i :: 0 <= i < |s| ==> !('A' <= Lower(s)[i] <= 'Z')
    ensures (forall i :: 0 <= i < |t| ==> !('A' <= t[i] <= 'Z')) ==> Lower(s) == t
  {
  }

  lemma LowerIsStable(s: string)
    ensures Lower(Lower(s)) == Lower(s)
    ensures Token(s) ==> Token(Lower(s))
  {
  }

  // ---- fields ---------------------------------------------------------------

  function FieldLength(s: string, sep: char): (n: nat)
    ensures n <= |s|
    ensures forall i :: 0 <= i < n ==> s[i] != sep
    ensures n < |s| ==> s[n] == sep
  {
    if s == "" || s[0] == sep then 0 else 1 + FieldLength(s[1..], sep)
  }

  /** s.split(sep) for a one-character separator: never empty. */
  function Split(s: string, sep: char): (r: seq<string>)
    ensures r != []
    decreases |s|
  {
    var n := FieldLength(s, sep);
    if n == |s| then [s] else [s[..n]] + Split(s[n + 1..], sep)
  }

  lemma FieldLengthIs(f: string, rest: string, sep: char)
    requires sep !in f
    requires rest == "" || rest[0] == sep
    ensures FieldLength(f + rest, sep) == |f|
  {
    var s := f + rest;
    var n := FieldLength(s, sep);
    assert forall i :: 0 <= i < |f| ==> s[i] == f[i];
    assert rest != "" ==> s[|f|] == rest[0];
  }

  lemma SplitAfterField(f: string, rest: string, sep: char)
    requires sep !in f
    ensures Split(f + [sep] + rest, sep) == [f] + Split(rest, sep)
    ensures Split(f, sep) == [f]
  {
    var s := f + [sep] + rest;
    FieldLengthIs(f, [sep] + rest, sep);
    assert s == f + ([sep] + rest);
    assert s[..|f|] == f && s[|f| + 1..] == rest;
    FieldLengthIs(f, "", sep);
    assert f + "" == f;
  }

  // ---- hexadecimal ----------------------------------------------------------

  predicate IsHex(c: char) {
    '0' <= c <= '9' || 'a' <= c <= 'f' || 'A' <= c <= 'F'
  }

  function HexValue(c: char): (v: nat)
    requires IsHex(c)
    ensures v < 16
  {
    if c <= '9' then c as int - '0' as int
    else if c <= 'F' then c as int - 'A' as int + 10
    else c as int - 'a' as int + 10
  }

  function HexDigit(v: nat, upper: bool): (c: char)
    requires v < 16
    ensures IsHex(c) && HexValue(c) == v
    ensures !upper ==> LowerChar(c) == c
  {
    if v < 10 then ('0' as int + v) as char
    else if upper then ('A' as int + v - 10) as char
    else ('a' as int + v - 10) as char
  }

  /** The number a string of hexadecimal digits denotes. */
  function HexNumber(s: string): nat
    requires forall c :: c in s ==> IsHex(c)
  {
    if s == "" then 0 else 16 * HexNumber(s[..|s| - 1]) + HexValue(s[|s| - 1])
  }

  predicate HexField(s: string) {
    s != "" && forall c :: c in s ==> IsHex(c)
  }

  /** printf("%0<width>x"), for values that fit the width. */
  function HexText(n: nat, width: nat, upper: bool): (t: string)
    ensures |t| == width && forall i :: 0 <= i < width ==> IsHex(t[i])
  {
    if width == 0 then "" else HexText(n / 16, width - 1, upper) + [HexDigit(n % 16, upper)]
  }

  lemma HexFirstDigit(n: nat, upper: bool)
    requires n < 256
    ensures HexNumber(HexText(n, 2, upper)[..1]) == n / 16
  {
    var t, high := HexText(n, 2, upper), HexText(n / 16, 1, upper);
    assert t[..1] == high && high == HexText(n / 256, 0, upper) + [HexDigit(n / 16 % 16, upper)];
    assert high[..0] == "";
  }

  lemma HexTextValue(n: nat, upper: bool)
    requires n < 256
    ensures HexNumber(HexText(n, 2, upper)) == n
  {
    HexFirstDigit(n, upper);
  }

  function Join(fields: seq<string>, sep: char): string {
    if fields == [] then "" else if |fields| == 1 then fields[0] else fields[0] + [sep] + Join(fields[1..], sep)
  }

  /** Splitting joined fields gives the fields back. */
  lemma {:induction false} SplitOfJoin(fields: seq<string>, sep: char)
    requires fields != [] && forall i :: 0 <= i < |fields| ==> sep !in fields[i]
    ensures Split(Join(fields, sep), sep) == fields
  {
    if |fields| == 1 {
      SplitAfterField(fields[0], "", sep);
      assert fields == [fields[0]];
    } else {
      SplitOfJoin(fields[1..], sep);
      SplitAfterField(fields[0], Join(fields[1..], sep), sep);
      assert fields == [fields[0]] + fields[1..];
    }
  }
}
