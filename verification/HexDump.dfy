/** hexdump: lines whose hex columns decode back to the bytes dumped. */
module HexDump {
  import opened Bits

  // -------------------------------------------------------------------- hex numbers

  function Digit(v: nat, upper: bool): char
    requires v < 16
  {
    if upper then "0123456789ABCDEF"[v] else "0123456789abcdef"[v]
  }

  /** The value of a hex digit, -1 for any other character. */
  function DigitValue(c: char): int {
    if '0' <= c <= '9' then c as int - '0' as int
    else if 'a' <= c <= 'f' then c as int - 'a' as int + 10
    else if 'A' <= c <= 'F' then c as int - 'A' as int + 10
    else -1
  }

  lemma DigitReadsBack(v: nat, upper: bool)
    requires v < 16
    ensures DigitValue(Digit(v, upper)) == v
  {
  }

  /** Without leading zeros; "0" for zero. */
  function Digits(v: nat, upper: bool): (s: string)
    ensures |s| >= 1
  {
    if v < 16 then [Digit(v, upper)] else Digits(v / 16, upper) + [Digit(v % 16, upper)]
  }

  /** The value of a hex string, -1 if some character is no digit. */
  function Value(s: string): int {
    if s == "" then 0
    else
      var high, low := Value(s[..|s| - 1]), DigitValue(s[|s| - 1]);
      if high < 0 || low < 0 then -1 else high * 16 + low
  }

  lemma {:induction false} DigitsReadBack(v: nat, upper: bool)
    ensures Value(Digits(v, upper)) == v
  {
    var s := Digits(v, upper);
    DigitReadsBack(v % 16, upper);
    if v >= 16 {
      DigitsReadBack(v / 16, upper);
      assert s[..|s| - 1] == Digits(v / 16, upper);
    } else {
      assert s[..0] == "";
    }
  }

  lemma {:induction false} DigitsCount(v: nat, k: nat, upper: bool)
    requires k >= 1 && v < Pow2(4 * k)
    ensures |Digits(v, upper)| <= k
    decreases k
  {
    if v >= 16 {
      assert k > 1;
      Pow2Add(4, 4 * (k - 1));
      DigitsCount(v / 16, k - 1, upper);
    }
  }

  function Repeat(c: char, n: nat): (s: string)
    ensures |s| == n && forall i :: 0 <= i < n ==> s[i] == c
  {
    seq(n, i => c)
  }

  lemma {:induction false} ZerosReadBack(n: nat, s: string)
    requires Value(s) >= 0
    ensures Value(Repeat('0', n) + s) == Value(s)
    decreases |s| + n
  {
    var t := Repeat('0', n) + s;
    if s != "" {
      assert t[..|t| - 1] == Repeat('0', n) + s[..|s| - 1];
      ZerosReadBack(n, s[..|s| - 1]);
    } else if n > 0 {
      assert t[..n - 1] == Repeat('0', n - 1) + "";
      ZerosReadBack(n - 1, "");
    } else {
      assert t == "";
    }
  }

  // --------------------------------------------------------------------- format_hex

  datatype Flags = Flags(zero: bool, left: bool, alternative: bool, upper: bool, width: nat, precision: int)

  function Prefix(f: Flags): (s: string)
    ensures |s| == PrefixLength(f)
  {
    if !f.alternative then "" else if f.upper then "0X" else "0x"
  }

  function PrefixLength(f: Flags): nat {
    if f.alternative then 2 else 0
  }

  function Zeros(n: nat, f: Flags): nat {
    if f.precision > n then f.precision - n
    else if f.zero && !f.left && f.width > n + PrefixLength(f) then f.width - n - PrefixLength(f)
    else 0
  }

  /** Spaces up to the width; a precision beyond the digits is counted twice. */
  function Spaces(n: nat, f: Flags): nat {
    var total := (if f.precision > n then f.precision else n) + PrefixLength(f) + Zeros(n, f);
    if f.width > total then f.width - total else 0
  }

  function Cut(s: string, room: nat): string {
    if |s| <= room then s else s[..room]
  }

  /** Leading spaces and the prefix, which is written whole or not at all. */
  function Front(lead: nat, prefix: string, room: nat): (s: string)
    requires |prefix| <= 2
    ensures |s| <= room
  {
    var s1 := Cut(Repeat(' ', lead), room);
    if room - |s1| > 1 then s1 + prefix else s1
  }

  /** A text continued as far as there is room. */
  function Then(s: string, t: string, room: nat): (r: string)
    requires |s| <= room
    ensures |r| <= room
  {
    s + Cut(t, room - |s|)
  }

  /** What format_hex writes when there is room for so many characters. */
  function HexText(v: nat, f: Flags, room: nat): (s: string)
    ensures |s| <= room
  {
    var digits := Digits(v, f.upper);
    var n := |digits|;
    var front := Front(if f.left then 0 else Spaces(n, f), Prefix(f), room);
    var zeros := Then(front, Repeat('0', Zeros(n, f)), room);
    Then(Then(zeros, digits, room), Repeat(' ', if f.left then Spaces(n, f) else 0), room)
  }

  lemma Uncut(s: string, t: string, room: nat)
    requires |s| + |t| <= room
    ensures Then(s, t, room) == s + t
  {
  }

  lemma WholeText(v: nat, f: Flags, room: nat, lead: nat, zeros: nat, trail: nat, digits: string, prefix: string)
    requires digits == Digits(v, f.upper) && prefix == Prefix(f) && zeros == Zeros(|digits|, f)
    requires lead == (if f.left then 0 else Spaces(|digits|, f)) && trail == if f.left then Spaces(|digits|, f) else 0
    requires lead + |prefix| + zeros + |digits| + trail <= room
    ensures HexText(v, f, room) == Repeat(' ', lead) + prefix + Repeat('0', zeros) + digits + Repeat(' ', trail)
  {
    var s1 := Repeat(' ', lead) + prefix;
    assert prefix == "" ==> s1 == Repeat(' ', lead);
    assert Front(lead, prefix, room) == s1;
    Uncut(s1, Repeat('0', zeros), room);
    var s2 := s1 + Repeat('0', zeros);
    Uncut(s2, digits, room);
    Uncut(s2 + digits, Repeat(' ', trail), room);
  }

  function Larger(a: int, b: int): int {
    if a > b then a else b
  }

  /** What the flags ask for, of a text of these parts: the prefix of the base, at least the
      precision in digits, zeros beyond that only to fill the width, spaces on the side that
      the flags say. */
  predicate AsAsked(s: string, v: nat, f: Flags, lead: nat, zeros: nat, digits: string, trail: nat) {
    && s == Repeat(' ', lead) + (if !f.alternative then "" else if f.upper then "0X" else "0x")
            + Repeat('0', zeros) + digits + Repeat(' ', trail)
    && Value(digits) == v && |digits| > 0 && (digits[0] == '0' ==> v == 0)
    && (if f.left then lead == 0 else trail == 0)
    && zeros + |digits| >= f.precision
    && (zeros > 0 ==> zeros + |digits| == f.precision || (f.zero && !f.left && |s| == f.width && lead == trail == 0))
  }

  lemma {:induction false} NoLeadingZero(v: nat, upper: bool)
    ensures Digits(v, upper)[0] == '0' ==> v == 0
  {
    if v >= 16 {
      NoLeadingZero(v / 16, upper);
    } else {
      DigitReadsBack(v, upper);
    }
  }

  /** Given room, format_hex writes what the flags ask for, and the text is as long as they
      ask for if and only if the precision does not exceed the digits or the width does not
      exceed what the precision takes up: excess precision is taken off the width twice. */
  lemma HexTextMeans(v: nat, f: Flags, room: nat) returns (lead: nat, zeros: nat, digits: string, trail: nat)
    requires var n := |Digits(v, f.upper)|; Spaces(n, f) + PrefixLength(f) + Zeros(n, f) + n <= room
    ensures var s, n := HexText(v, f, room), |digits|;
            && AsAsked(s, v, f, lead, zeros, digits, trail)
            && (|s| == Larger(f.width, PrefixLength(f) + Larger(f.precision, n))
                <==> f.precision <= n || f.width <= PrefixLength(f) + f.precision)
  {
    digits := Digits(v, f.upper);
    var spaces := Spaces(|digits|, f);
    zeros := Zeros(|digits|, f);
    lead, trail := if f.left then 0 else spaces, if f.left then spaces else 0;
    WholeText(v, f, room, lead, zeros, trail, digits, Prefix(f));
    DigitsReadBack(v, f.upper);
    NoLeadingZero(v, f.upper);
  }

  const PLAIN := Flags(true, false, false, false, 0, -1)

  lemma PaddedText(v: nat, n: nat, room: nat)
    requires |Digits(v, false)| <= n <= room
    ensures HexText(v, PLAIN.(width := n), room) == Repeat('0', n - |Digits(v, false)|) + Digits(v, false)
  {
    var f, d := PLAIN.(width := n), Digits(v, false);
    var k := |d|;
    assert Zeros(k, f) == n - k && Spaces(k, f) == 0;
    assert Front(0, "", room) == "";
    assert Then("", Repeat('0', n - k), room) == Repeat('0', n - k);
    var s := Repeat('0', n - k) + d;
    assert Then(s, Repeat(' ', 0), room) == s;
  }

  /** "%0Nx" of a value with at most N digits is N digits that read back as the value. */
  lemma PaddedHex(v: nat, n: nat, room: nat)
    requires |Digits(v, false)| <= n <= room
    ensures var s := HexText(v, PLAIN.(width := n), room); |s| == n && Value(s) == v
  {
    var d := Digits(v, false);
    PaddedText(v, n, room);
    DigitsReadBack(v, false);
    ZerosReadBack(n - |d|, d);
  }

  // ------------------------------------------------------------------ in the buffer

  /** The text stands at p, and nothing else has changed. */
  predicate Wrote(before: string, after: string, p: nat, text: string) {
    && p + |text| <= |before|
    && after == before[..p] + text + before[p + |text|..]
  }

  lemma WroteTwice(a: string, b: string, c: string, p: nat, s: string, t: string)
    requires Wrote(a, b, p, s) && Wrote(b, c, p + |s|, t)
    ensures Wrote(a, c, p, s + t)
  {
    assert b[..p + |s|] == a[..p] + s;
    assert b[p + |s| + |t|..] == a[p + |s| + |t|..];
    assert c == a[..p] + (s + t) + a[p + |s + t|..];
  }

  /** Copy a text as far as there is room before end. */
  method Emit(buf: array<char>, p: nat, end: nat, s: string) returns (q: nat)
    requires p <= end <= buf.Length
    modifies buf
    ensures q == p + |Cut(s, end - p)| && Wrote(old(buf[..]), buf[..], p, Cut(s, end - p))
  {
    ghost var before := buf[..];
    q := p;
    var i := 0;
    while i < |s| && q < end
      invariant 0 <= i <= |s| && q == p + i <= end && Wrote(before, buf[..], p, s[..i])
      modifies buf
    {
      ghost var b := buf[..];
      buf[q] := s[i];
      assert buf[..] == b[q := s[i]];
      WroteOne(before, b, p, s, i);
      q, i := q + 1, i + 1;
    }
  }

  lemma WroteOne(before: string, b: string, p: nat, s: string, i: nat)
    requires i < |s| && Wrote(before, b, p, s[..i]) && p + i < |before|
    ensures |b| == |before| && Wrote(before, b[p + i := s[i]], p, s[..i + 1])
  {
    assert s[..i + 1] == s[..i] + [s[i]];
  }

  lemma MoreDigits(v: nat, s: string, upper: bool)
    requires v > 0
    ensures Digits(v, upper) + s
         == if v / 16 == 0 then [Digit(v % 16, upper)] + s else Digits(v / 16, upper) + ([Digit(v % 16, upper)] + s)
  {
    if v >= 16 {
      assert Digits(v, upper) + s == Digits(v / 16, upper) + ([Digit(v % 16, upper)] + s);
    }
  }

  /** The digits, made from the last to the first and turned around. */
  method HexDigits(value: nat, upper: bool) returns (s: string)
    ensures s == Digits(value, upper)
  {
    var v := value;
    s := [Digit(v % 16, upper)];
    v := v / 16;
    while v > 0
      invariant Digits(value, upper) == if v == 0 then s else Digits(v, upper) + s
      decreases v
    {
      MoreDigits(v, s, upper);
      s := [Digit(v % 16, upper)] + s;
      v := v / 16;
    }
  }

  /** Continue a text that already stands at p. */
  method Continue(buf: array<char>, p: nat, q0: nat, end: nat, t: string, ghost before: string, ghost s: string)
    returns (q: nat)
    requires p <= end <= buf.Length && q0 == p + |s| <= end && Wrote(before, buf[..], p, s)
    modifies buf
    ensures var r := Then(s, t, end - p); q == p + |r| && Wrote(before, buf[..], p, r)
  {
    ghost var b := buf[..];
    q := Emit(buf, q0, end, t);
    WroteTwice(before, b, buf[..], p, s, Cut(t, end - q0));
  }

  method EmitFront(buf: array<char>, p: nat, end: nat, lead: nat, prefix: string) returns (q: nat)
    requires p <= end <= buf.Length && |prefix| <= 2
    modifies buf
    ensures var r := Front(lead, prefix, end - p); q == p + |r| && Wrote(old(buf[..]), buf[..], p, r)
  {
    q := Emit(buf, p, end, Repeat(' ', lead));
    if q + 1 < end {
      q := Continue(buf, p, q, end, prefix, old(buf[..]), Cut(Repeat(' ', lead), end - p));
    }
  }

  /** format_hex: the text for the value, as far as there is room. */
  method FormatHex(buf: array<char>, p: nat, end: nat, value: nat, f: Flags) returns (q: nat)
    requires p <= end <= buf.Length
    modifies buf
    ensures q == p + |HexText(value, f, end - p)| && Wrote(old(buf[..]), buf[..], p, HexText(value, f, end - p))
  {
    ghost var before, room := buf[..], end - p;
    var digits := HexDigits(value, f.upper);
    var zeros, spaces := Zeros(|digits|, f), Spaces(|digits|, f);
    var lead, trail := if f.left then 0 else spaces, if f.left then spaces else 0;
    q := EmitFront(buf, p, end, lead, Prefix(f));
    ghost var s := Front(lead, Prefix(f), room);
    q := Continue(buf, p, q, end, Repeat('0', zeros), before, s);
    s := Then(s, Repeat('0', zeros), room);
    q := Continue(buf, p, q, end, digits, before, s);
    s := Then(s, digits, room);
    q := Continue(buf, p, q, end, Repeat(' ', trail), before, s);
  }

  // --------------------------------------------------------------------------- lines

  const LINE: nat := 78
  const PER_LINE: nat := 16

  function Hex2(b: Byte): string {
    HexText(b, PLAIN.(width := 2), 3)
  }

  lemma Hex2ReadsBack(b: Byte)
    ensures |Hex2(b)| == 2 && Value(Hex2(b)) == b
  {
    assert Pow2(4 * 2) == 256;
    DigitsCount(b, 2, false);
    PaddedHex(b, 2, 3);
  }

  /** The address, without the colon: the buffer of nine ends it with a NUL, which is
      replaced by a space. */
  function Hex8(address: nat): string {
    HexText(address, PLAIN.(width := 8), 9)
  }

  lemma Hex8ReadsBack(address: nat)
    requires address < WORD
    ensures |Hex8(address)| == 8 && Value(Hex8(address)) == address
  {
    WordIsPow2();
    DigitsCount(address, 8, false);
    PaddedHex(address, 8, 9);
  }

  /** The sixteen two-character columns of a line. */
  function Texts(bytes: seq<Byte>): (ts: seq<string>)
    ensures |ts| == PER_LINE
  {
    seq(PER_LINE, (i: nat) => if i < |bytes| then Hex2(bytes[i]) else "  ")
  }

  predicate IsRow(ts: seq<string>) {
    |ts| == PER_LINE && forall i :: 0 <= i < PER_LINE ==> |ts[i]| == 2
  }

  /** A space after each column, two after the eighth. */
  function Gap(i: nat): string {
    if i == 7 then "  " else " "
  }

  function Columns(ts: seq<string>, n: nat): string
    requires n <= |ts|
  {
    if n == 0 then "" else Columns(ts, n - 1) + ts[n - 1] + Gap(n - 1)
  }

  function Layout(head: string, ts: seq<string>, ascii: string): string
    requires |ts| == PER_LINE
  {
    head + "  " + Columns(ts, PER_LINE) + "| " + ascii
  }

  function Printable(b: Byte): char {
    if 32 <= b <= 126 then b as char else '.'
  }

  function Ascii(bytes: seq<Byte>, n: nat): (s: string)
    ensures |s| == n
  {
    seq(n, (i: nat) => if i < |bytes| then Printable(bytes[i]) else ' ')
  }

  function LineOf(address: nat, bytes: seq<Byte>): string {
    Layout(Hex8(address), Texts(bytes), Ascii(bytes, PER_LINE))
  }

  /** The bytes of line k. */
  function Chunk(data: seq<Byte>, k: nat): (c: seq<Byte>)
    requires k * PER_LINE < |data|
    ensures 0 < |c| <= PER_LINE
  {
    data[k * PER_LINE..if (k + 1) * PER_LINE < |data| then (k + 1) * PER_LINE else |data|]
  }

  /** Where column i begins among the columns. */
  function ColumnAt(i: nat): nat {
    3 * i + if i < 8 then 0 else 1
  }

  lemma {:induction false} ColumnsLength(ts: seq<string>, n: nat)
    requires IsRow(ts) && n <= PER_LINE
    ensures |Columns(ts, n)| == ColumnAt(n)
  {
    if n > 0 {
      ColumnsLength(ts, n - 1);
    }
  }

  lemma {:induction false} ColumnInPlace(ts: seq<string>, n: nat, i: nat)
    requires IsRow(ts) && i < n <= PER_LINE
    ensures |Columns(ts, n)| == ColumnAt(n)
    ensures Columns(ts, n)[ColumnAt(i)..ColumnAt(i) + 2] == ts[i]
  {
    ColumnsLength(ts, n);
    ColumnsLength(ts, n - 1);
    if i < n - 1 {
      ColumnInPlace(ts, n - 1, i);
    }
  }

  lemma Middle(head: string, mid: string, tail: string, at: nat, n: nat)
    requires at + n <= |mid|
    ensures (head + (mid + tail))[|head| + at..|head| + at + n] == mid[at..at + n]
  {
  }

  lemma LayoutParts(head: string, ts: seq<string>, ascii: string, i: nat)
    requires |head| == 8 && IsRow(ts) && |ascii| == PER_LINE && i < PER_LINE
    ensures |Layout(head, ts, ascii)| == LINE - 1 && Layout(head, ts, ascii)[..8] == head
    ensures Layout(head, ts, ascii)[10 + ColumnAt(i)..12 + ColumnAt(i)] == ts[i]
    ensures Layout(head, ts, ascii)[59..61] == "| " && Layout(head, ts, ascii)[61..] == ascii
  {
    var columns, n := Columns(ts, PER_LINE), PER_LINE;
    ColumnInPlace(ts, n, i);
    assert Layout(head, ts, ascii) == (head + "  ") + (columns + ("| " + ascii));
    Middle(head + "  ", columns, "| " + ascii, ColumnAt(i), 2);
  }

  // -------------------------------------------------------------------------- decoding

  /** Read the columns of a line from column i on, up to the first blank one. */
  function DecodeFrom(line: string, i: nat): seq<int>
    requires |line| == LINE - 1
    decreases PER_LINE - i, line
  {
    if i >= PER_LINE || line[10 + ColumnAt(i)] == ' ' then []
    else [Value(line[10 + ColumnAt(i)..12 + ColumnAt(i)])] + DecodeFrom(line, i + 1)
  }

  lemma DigitFirst(s: string)
    requires |s| == 2 && Value(s) >= 0
    ensures s[0] != ' '
  {
    assert s[..1][..0] == "" && s[..1][0] == s[0];
    assert Value(s[..1]) >= 0;
  }

  /** A row whose first columns are the hex of these bytes and whose rest is blank. */
  predicate RowOf(ts: seq<string>, bytes: seq<Byte>) {
    && IsRow(ts) && |bytes| <= PER_LINE
    && (forall i :: 0 <= i < |bytes| ==> Value(ts[i]) == bytes[i])
    && (forall i :: |bytes| <= i < PER_LINE ==> ts[i] == "  ")
  }

  /** Decoding at column i of a line whose row shows these bytes. */
  lemma DecodeColumn(line: string, ts: seq<string>, bytes: seq<Byte>, i: nat)
    requires |line| == LINE - 1 && RowOf(ts, bytes) && i < PER_LINE
    requires line[10 + ColumnAt(i)..12 + ColumnAt(i)] == ts[i]
    ensures i < |bytes| ==> DecodeFrom(line, i) == [bytes[i]] + DecodeFrom(line, i + 1)
    ensures i >= |bytes| ==> DecodeFrom(line, i) == []
  {
    assert line[10 + ColumnAt(i)] == line[10 + ColumnAt(i)..12 + ColumnAt(i)][0];
    if i < |bytes| { DigitFirst(ts[i]); }
  }

  lemma {:induction false} DecodeLayout(head: string, ts: seq<string>, ascii: string, bytes: seq<Byte>, i: nat)
    requires |head| == 8 && RowOf(ts, bytes) && |ascii| == PER_LINE && i <= |bytes|
    ensures |Layout(head, ts, ascii)| == LINE - 1
    ensures DecodeFrom(Layout(head, ts, ascii), i) == bytes[i..]
    decreases PER_LINE - i
  {
    LayoutParts(head, ts, ascii, if i < PER_LINE then i else 0);
    if i < PER_LINE {
      DecodeColumn(Layout(head, ts, ascii), ts, bytes, i);
      if i < |bytes| {
        DecodeLayout(head, ts, ascii, bytes, i + 1);
        assert bytes[i..] == [bytes[i]] + bytes[i + 1..];
      }
    }
  }

  /** Behind the bar, a character for each byte: the byte itself if it is printable ASCII, a dot
      if not. */
  predicate ShowsText(line: string, bytes: seq<Byte>) {
    && |line| == LINE - 1 && |bytes| <= PER_LINE && line[59..61] == "| "
    && (forall i :: 0 <= i < |bytes| ==> line[61 + i] == if 32 <= bytes[i] < 127 then bytes[i] as char else '.')
    && (forall j :: 61 + |bytes| <= j < LINE - 1 ==> line[j] == ' ')
  }

  lemma TextColumn(line: string, bytes: seq<Byte>)
    requires |line| == LINE - 1 && |bytes| <= PER_LINE && line[59..61] == "| " && line[61..] == Ascii(bytes, PER_LINE)
    ensures ShowsText(line, bytes)
  {
    forall j | 61 <= j < LINE - 1 ensures line[j] == Ascii(bytes, PER_LINE)[j - 61] {
      assert line[j] == line[61..][j - 61];
    }
  }

  lemma DecodeLine(address: nat, bytes: seq<Byte>)
    requires address < WORD && |bytes| <= PER_LINE
    ensures var line := LineOf(address, bytes);
      |line| == LINE - 1 && Value(line[..8]) == address && DecodeFrom(line, 0) == bytes && ShowsText(line, bytes)
  {
    Hex8ReadsBack(address);
    forall i | 0 <= i < |bytes| ensures |Texts(bytes)[i]| == 2 && Value(Texts(bytes)[i]) == bytes[i] {
      Hex2ReadsBack(bytes[i]);
    }
    DecodeLayout(Hex8(address), Texts(bytes), Ascii(bytes, PER_LINE), bytes, 0);
    LayoutParts(Hex8(address), Texts(bytes), Ascii(bytes, PER_LINE), 0);
    TextColumn(LineOf(address, bytes), bytes);
  }

  /** Line k of the dump shows its address, decodes to the bytes of that line, and shows them
      as text. */
  predicate Shows(line: string, data: seq<Byte>, k: nat)
    requires k * PER_LINE < |data|
  {
    && |line| == LINE - 1 && Value(line[..8]) == k * PER_LINE
    && DecodeFrom(line, 0) == Chunk(data, k) && ShowsText(line, Chunk(data, k))
  }

  lemma LineShows(data: seq<Byte>, k: nat)
    requires k * PER_LINE < |data| < WORD
    ensures Shows(LineOf(k * PER_LINE, Chunk(data, k)), data, k)
  {
    DecodeLine(k * PER_LINE, Chunk(data, k));
  }

  /** Every byte of the data is the value of its own column in its own line. */
  lemma ByteShown(line: string, data: seq<Byte>, i: nat)
    requires i < |data| && Shows(line, data, i / PER_LINE)
    ensures |DecodeFrom(line, 0)| > i % PER_LINE && DecodeFrom(line, 0)[i % PER_LINE] == data[i]
  {
    var k := i / PER_LINE;
    assert i == k * PER_LINE + i % PER_LINE;
  }

  // ---------------------------------------------------------------------- the dump

  lemma {:induction false} AllDigits(s: string, i: nat)
    requires Value(s) >= 0 && i < |s|
    ensures DigitValue(s[i]) >= 0
  {
    if i < |s| - 1 {
      AllDigits(s[..|s| - 1], i);
    }
  }

  /** The address field, as the nine-character buffer leaves it. */
  method PutAddress(line: array<char>, address: nat)
    requires line.Length == LINE && address < WORD
    modifies line
    ensures line[..10] == Hex8(address) + "  "
  {
    Hex8ReadsBack(address);
    var q := FormatHex(line, 0, 9, address, PLAIN.(width := 8));
    assert line[..8] == Hex8(address);
    line[q] := ':';
    line[8] := '\0';
    var i := 0;
    while i < 9
      invariant 0 <= i <= 9 && forall j :: 0 <= j < 8 ==> line[j] == Hex8(address)[j]
      invariant line[8] == if i == 9 then ' ' else '\0'
      modifies line
    {
      if i < 8 { AllDigits(Hex8(address), i); }
      if line[i] == '\0' || line[i] == '\n' { line[i] := ' '; }
      i := i + 1;
    }
    line[9] := ' ';
  }

  /** One column, with the NUL that ends it for the moment. */
  method PutColumn(line: array<char>, p: nat, bytes: seq<Byte>, i: nat) returns (q: nat)
    requires p + 3 <= line.Length && i < PER_LINE
    modifies line
    ensures q == p + 2 && line[..q] == old(line[..p]) + Texts(bytes)[i]
  {
    if i < |bytes| {
      Hex2ReadsBack(bytes[i]);
      q := FormatHex(line, p, p + 3, bytes[i], PLAIN.(width := 2));
      assert line[..q] == old(line[..p]) + Hex2(bytes[i]);
    } else {
      line[p], line[p + 1] := ' ', ' ';
      q := p + 2;
      assert line[..q] == old(line[..p]) + "  ";
    }
    line[q] := '\0';
  }

  method PutGap(line: array<char>, p: nat, i: nat) returns (q: nat)
    requires p + 2 <= line.Length
    modifies line
    ensures q == p + |Gap(i)| && line[..q] == old(line[..p]) + Gap(i)
  {
    q := p;
    if i == 7 {
      line[q] := ' ';
      q := q + 1;
    }
    line[q] := ' ';
    q := q + 1;
  }

  lemma NextColumn(head: string, ts: seq<string>, i: nat)
    requires i < |ts|
    ensures (head + Columns(ts, i)) + ts[i] + Gap(i) == head + Columns(ts, i + 1)
  {
    Regroup(head, Columns(ts, i), ts[i], Gap(i));
  }

  lemma Regroup(a: string, b: string, c: string, d: string)
    ensures (a + b) + c + d == a + (b + c + d)
  {
  }

  method PutColumns(line: array<char>, bytes: seq<Byte>)
    requires line.Length == LINE
    modifies line
    ensures line[..10 + ColumnAt(PER_LINE)] == old(line[..10]) + Columns(Texts(bytes), PER_LINE)
  {
    ghost var head, ts := line[..10], Texts(bytes);
    var p, i, n := 10, 0, PER_LINE;
    while i < n
      invariant 0 <= i <= n && p == 10 + ColumnAt(i)
      invariant line[..p] == head + Columns(ts, i)
      modifies line
    {
      NextColumn(head, ts, i);
      p := PutColumn(line, p, bytes, i);
      p := PutGap(line, p, i);
      i := i + 1;
    }
  }

  lemma NextAscii(bytes: seq<Byte>, i: nat)
    ensures Ascii(bytes, i + 1) == Ascii(bytes, i) + [if i < |bytes| then Printable(bytes[i]) else ' ']
  {
  }

  method PutAscii(line: array<char>, from: nat, bytes: seq<Byte>)
    requires from + 2 + PER_LINE < line.Length
    modifies line
    ensures line[..from + 2 + PER_LINE] == old(line[..from]) + "| " + Ascii(bytes, PER_LINE)
    ensures line[from + 2 + PER_LINE] == '\0'
  {
    line[from], line[from + 1] := '|', ' ';
    ghost var head := line[..from + 2];
    assert head == old(line[..from]) + "| ";
    var i, n := 0, PER_LINE;
    while i < n
      invariant 0 <= i <= n && line[..from + 2 + i] == head + Ascii(bytes, i)
      modifies line
    {
      NextAscii(bytes, i);
      line[from + 2 + i] := if i < |bytes| then Printable(bytes[i]) else ' ';
      i := i + 1;
    }
    line[from + 2 + n] := '\0';
  }

  /** One line in the buffer of 78 characters, NUL at the end. */
  method PutLine(line: array<char>, address: nat, bytes: seq<Byte>)
    requires line.Length == LINE && address < WORD
    modifies line
    ensures line[..LINE - 1] == LineOf(address, bytes) && line[LINE - 1] == '\0'
  {
    PutAddress(line, address);
    PutColumns(line, bytes);
    PutAscii(line, 10 + ColumnAt(PER_LINE), bytes);
  }

  /** Line k of the dump. */
  method NextLine(line: array<char>, data: seq<Byte>, k: nat, address: nat, n: nat) returns (text: string)
    requires line.Length == LINE && address == k * PER_LINE < |data| < WORD
    requires n == if |data| - address > PER_LINE then PER_LINE else |data| - address
    modifies line
    ensures Shows(text, data, k)
  {
    assert data[address..address + n] == Chunk(data, k);
    LineShows(data, k);
    PutLine(line, address, data[address..address + n]);
    text := line[..LINE - 1];
  }

  /** All lines so far show their bytes. */
  predicate AllShow(lines: seq<string>, data: seq<Byte>) {
    forall k :: 0 <= k < |lines| ==> k * PER_LINE < |data| && Shows(lines[k], data, k)
  }

  lemma OneMore(lines: seq<string>, text: string, data: seq<Byte>)
    requires AllShow(lines, data) && |lines| * PER_LINE < |data| && Shows(text, data, |lines|)
    ensures AllShow(lines + [text], data)
  {
  }

  /** hexdump: the lines handed to the output function, one for each sixteen bytes or part
      of sixteen; line k shows its address and decodes to its bytes. */
  method Hexdump(data: seq<Byte>) returns (lines: seq<string>)
    requires |data| < WORD
    ensures |data| <= |lines| * PER_LINE < |data| + PER_LINE && AllShow(lines, data)
  {
    lines := [];
    var line := new char[LINE];
    var size, address := |data|, 0;
    while size > 0
      invariant 0 <= size && address + size == |data| && AllShow(lines, data)
      invariant address <= |lines| * PER_LINE < address + PER_LINE && (size > 0 ==> address == |lines| * PER_LINE)
    {
      var n := if size > PER_LINE then PER_LINE else size;
      var text := NextLine(line, data, |lines|, address, n);
      OneMore(lines, text, data);
      lines := lines + [text];
      address, size := address + n, size - n;
    }
  }
}
