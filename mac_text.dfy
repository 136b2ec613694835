/** The textual form of a MAC address: `to_lower`, `hex_to_char`,
    `string_to_mac` and `mac_to_string`, as the program writes them, with the
    facts that hold of them (and the ones that do not). */
module MacText {
  import opened Types

  /** A C string holds no NUL before its terminator, so its length is `strlen`.
      Each `char` stands for one byte of the string. */
  predicate NulFree(s: seq<char>) {
    forall k :: 0 <= k < |s| ==> s[k] != '\0'
  }

  // ---------------------------------------------------------------------------
  // to_lower

  /** One step of `to_lower`: only 'A'..'Z' move, by 'a' - 'A'. */
  function LowerChar(c: char): char {
    if 'A' <= c <= 'Z' then (c as int + ('a' as int - 'A' as int)) as char else c
  }

  /** What `to_lower` leaves in its buffer. */
  function Lower(s: seq<char>): (r: seq<char>)
    ensures |r| == |s|
    ensures forall k :: 0 <= k < |s| ==> r[k] == LowerChar(s[k])
  {
    if s == [] then [] else [LowerChar(s[0])] + Lower(s[1..])
  }

  /** `to_lower`: lower-cases the buffer in place, one character at a time. */
  method ToLower(s: array<char>)
    modifies s
    ensures s[..] == Lower(old(s[..]))
  {
    for i := 0 to s.Length
      invariant forall k :: 0 <= k < i ==> s[k] == LowerChar(old(s[k]))
      invariant forall k :: i <= k < s.Length ==> s[k] == old(s[k])
    {
      if 'A' <= s[i] <= 'Z' {
        s[i] := (s[i] as int + ('a' as int - 'A' as int)) as char;
      }
    }
  }

  /** Lower-casing changes a character exactly when it is an upper-case letter. */
  lemma LowerChangesOnlyUppercase(s: seq<char>)
    ensures |Lower(s)| == |s|
    ensures forall k :: 0 <= k < |s| ==>
      (Lower(s)[k] != s[k] <==> 'A' <= s[k] <= 'Z') &&
      ('A' <= s[k] <= 'Z' ==> Lower(s)[k] as int == s[k] as int + 32)
  {
  }

  /** Lower-casing twice is lower-casing once. */
  lemma LowerIdempotent(s: seq<char>)
    ensures Lower(Lower(s)) == Lower(s)
  {
  }

  // ---------------------------------------------------------------------------
  // Hex digits

  predicate IsLowerHex(c: char) {
    '0' <= c <= '9' || 'a' <= c <= 'f'
  }

  /** A hex digit in either case. */
  predicate IsHexDigit(c: char) {
    IsLowerHex(LowerChar(c))
  }

  /** The lower-case digit `%x` prints for a value below 16. */
  function HexDigit(d: int): (c: char)
    requires 0 <= d < 16
    ensures IsLowerHex(c)
  {
    if d < 10 then ('0' as int + d) as char else ('a' as int + d - 10) as char
  }

  /** The value of a hex digit of either case: an independent reference for
      what `hex_to_char` computes after `to_lower`. */
  function HexValue(c: char): (v: nat)
    requires IsHexDigit(c)
    ensures v < 16
  {
    if '0' <= c <= '9' then c as int - '0' as int
    else if 'a' <= c <= 'f' then c as int - 'a' as int + 10
    else c as int - 'A' as int + 10
  }

  /** `hex_to_char`: digits map to 0..9, everything else is taken to be
      'a'..'f'; the result is stored in an `unsigned char`, so it wraps. */
  function HexToChar(c: char): (r: Byte)
    ensures IsLowerHex(c) ==> r < 16 && HexDigit(r) == c
    ensures !IsLowerHex(c) ==> r == (c as int - 'a' as int + 10) % 256
  {
    if '0' <= c <= '9' then c as int - '0' as int
    else (c as int - 'a' as int + 10) % 256
  }

  /** `hex_to_char` inverts `HexDigit`. */
  lemma HexToCharOfDigit(d: int)
    requires 0 <= d < 16
    ensures HexToChar(HexDigit(d)) == d
  {
  }

  /** After lower-casing, `hex_to_char` gives the digit's value, whatever its case. */
  lemma HexToCharOfLowered(c: char)
    requires IsHexDigit(c)
    ensures HexToChar(LowerChar(c)) == HexValue(c)
    ensures HexDigit(HexValue(c)) == LowerChar(c)
  {
  }

  // ---------------------------------------------------------------------------
  // string_to_mac

  /** The byte stored for the pair `hi lo`: `hex_to_char(hi) * 16 +
      hex_to_char(lo)` is an int, truncated into the unsigned char `mac[cnt]`. */
  function Pair(hi: char, lo: char): (b: Byte)
    ensures IsLowerHex(hi) && IsLowerHex(lo) ==>
      b / 16 == HexToChar(hi) && b % 16 == HexToChar(lo)
  {
    (HexToChar(hi) * 16 + HexToChar(lo)) % 256
  }

  /** `s[j]` of a C string; position `|s|` is its terminator. */
  function CharAt(s: seq<char>, j: nat): (c: char)
    ensures j < |s| ==> c == s[j]
    ensures NulFree(s) ==> (c == '\0' <==> |s| <= j)
  {
    if j < |s| then s[j] else '\0'
  }

  /** The bytes the loop of `string_to_mac` writes from position `i` on: a ':'
      is skipped, any other character starts a pair with the one after it (the
      terminator, when it is the last character). Nothing else is checked. */
  function ScanFrom(s: seq<char>, i: nat): (r: seq<Byte>)
    ensures i <= |s| ==> |r| <= (|s| - i + 1) / 2
    ensures |s| <= i ==> r == []
    decreases |s| - i
  {
    if |s| <= i then []
    else if s[i] == ':' then ScanFrom(s, i + 1)
    else [Pair(s[i], CharAt(s, i + 1))] + ScanFrom(s, i + 2)
  }

  /** All the bytes the loop writes, as written (unbounded: see ColonFreeTextOverruns). */
  function ScanPairs(s: seq<char>): (r: seq<Byte>)
    ensures |r| <= (|s| + 1) / 2
  {
    ScanFrom(s, 0)
  }

  /** What `string_to_mac(s, mac)` does, as a value: None for the -1 return
      (wrong length), else the bytes written into `mac`, in order. */
  function DecodeMac(s: seq<char>): (r: Option<seq<Byte>>)
    ensures r.None? <==> |s| != 17
    ensures r.Some? ==> |r.value| <= 9
  {
    if |s| != 17 then None else Some(ScanPairs(Lower(s)))
  }

  /** `string_to_mac`: checks only the length, lower-cases `s` in place, then
      walks it with the index `i` (advanced twice per pair) and the counter
      `cnt`. The source writes `mac[cnt]` with no bound: a caller must make
      sure the scan writes at most six bytes (see ColonFreeTextOverruns). */
  method StringToMac(s: array<char>, mac: array<Byte>) returns (status: int)
    requires NulFree(s[..])
    requires mac.Length == 6
    requires s.Length == 17 ==> |ScanPairs(Lower(s[..]))| <= 6
    modifies s, mac
    ensures status == (if s.Length == 17 then 0 else -1)
    ensures s.Length != 17 ==> s[..] == old(s[..]) && mac[..] == old(mac[..])
    ensures s.Length == 17 ==>
      s[..] == Lower(old(s[..])) &&
      old(DecodeMac(s[..])) == Some(ScanPairs(s[..])) &&
      mac[..] == ScanPairs(s[..]) + old(mac[..])[|ScanPairs(s[..])|..]
  {
    if s.Length != 17 {
      return -1;
    }
    ToLower(s);
    ghost var t := s[..];
    ghost var written := ScanFrom(t, 0);
    var cnt := 0;
    var i := 0;
    while i < 17
      invariant 0 <= i <= 18
      invariant s[..] == t
      invariant 0 <= cnt <= 6
      invariant cnt <= |written| && ScanFrom(t, i) == written[cnt..]
      invariant forall k :: 0 <= k < cnt ==> mac[k] == written[k]
      invariant forall k :: cnt <= k < 6 ==> mac[k] == old(mac[k])
      decreases 18 - i
    {
      if s[i] == ':' {
        i := i + 1;
        continue;
      }
      var next := if i + 1 < s.Length then s[i + 1] else '\0';
      assert ScanFrom(t, i) == [Pair(s[i], next)] + ScanFrom(t, i + 2);
      mac[cnt] := Pair(s[i], next);
      i := i + 1;
      cnt := cnt + 1;
      i := i + 1;
    }
    assert written == written[..cnt];
    status := 0;
  }

  /** Colons exactly at 2, 5, 8, 11 and 14 of 17 characters. */
  ghost predicate Aligned(u: seq<char>) {
    |u| == 17 &&
    (forall k :: 0 <= k < 6 ==> u[3 * k] != ':' && u[3 * k + 1] != ':') &&
    (forall k :: 0 <= k < 5 ==> u[3 * k + 2] == ':')
  }

  /** The `xx:xx:xx:xx:xx:xx` form, in either case. */
  predicate WellFormed(t: seq<char>) {
    |t| == 17 &&
    forall p :: 0 <= p < 17 ==> if p % 3 == 2 then t[p] == ':' else IsHexDigit(t[p])
  }

  /** On aligned text one step of the scan decodes the pair at 3j, 3j+1 and
      skips the colon after it. */
  lemma ScanAlignedStep(u: seq<char>, j: nat)
    requires Aligned(u) && j < 6
    ensures ScanFrom(u, 3 * j) == [Pair(u[3 * j], u[3 * j + 1])] + ScanFrom(u, 3 * j + 3)
  {
    var p := 3 * j;
    assert u[p] != ':';
    assert ScanFrom(u, p + 2) == ScanFrom(u, p + 3) by {
      if p + 2 < 17 {
        assert u[p + 2] == ':';
      }
    }
  }

  /** The pairs at 3k, 3k+1 for k from j to 5, decoded. */
  function AlignedPairs(u: seq<char>, j: nat): (r: seq<Byte>)
    requires |u| == 17 && j <= 6
    ensures |r| == 6 - j
    ensures forall k :: 0 <= k < 6 - j ==> r[k] == Pair(u[3 * (j + k)], u[3 * (j + k) + 1])
    decreases 6 - j
  {
    if j == 6 then []
    else
      var rest := AlignedPairs(u, j + 1);
      [Pair(u[3 * j], u[3 * j + 1])] + rest
  }

  /** On aligned text the scan decodes exactly the pairs at 3k, 3k+1. */
  lemma {:induction false} ScanAligned(u: seq<char>, j: nat)
    requires Aligned(u) && j <= 6
    ensures ScanFrom(u, 3 * j) == AlignedPairs(u, j)
    decreases 6 - j
  {
    if j < 6 {
      ScanAlignedStep(u, j);
      ScanAligned(u, j + 1);
      assert 3 * (j + 1) == 3 * j + 3;
    }
  }

  lemma LoweredWellFormedIsAligned(t: seq<char>)
    requires WellFormed(t)
    ensures Aligned(Lower(t))
  {
    var u := Lower(t);
    forall k | 0 <= k < 6
      ensures u[3 * k] != ':' && u[3 * k + 1] != ':'
      ensures k < 5 ==> u[3 * k + 2] == ':'
    {
      assert (3 * k) % 3 == 0 && (3 * k + 1) % 3 == 1 && (3 * k + 2) % 3 == 2;
      assert IsLowerHex(u[3 * k]) && IsLowerHex(u[3 * k + 1]);
    }
  }

  /** A well-formed address in either case decodes to its six bytes,
      `mac[k] == 16 * hex(s[3k]) + hex(s[3k+1])`. */
  lemma StringToMacWellFormed(t: seq<char>)
    requires WellFormed(t)
    ensures DecodeMac(t).Some?
    ensures |DecodeMac(t).value| == 6
    ensures forall k :: 0 <= k < 6 ==>
      DecodeMac(t).value[k] == 16 * HexValue(t[3 * k]) + HexValue(t[3 * k + 1])
  {
    var u := Lower(t);
    LoweredWellFormedIsAligned(t);
    ScanAligned(u, 0);
    var d := ScanFrom(u, 0);
    assert DecodeMac(t) == Some(d);
    forall k | 0 <= k < 6
      ensures d[k] == 16 * HexValue(t[3 * k]) + HexValue(t[3 * k + 1])
    {
      assert IsHexDigit(t[3 * k]) && IsHexDigit(t[3 * k + 1]);
      PairOfHexDigits(t[3 * k], t[3 * k + 1]);
    }
  }

  /** A pair of hex digits of either case, lower-cased, decodes to its value. */
  lemma PairOfHexDigits(hi: char, lo: char)
    requires IsHexDigit(hi) && IsHexDigit(lo)
    ensures Pair(LowerChar(hi), LowerChar(lo)) == 16 * HexValue(hi) + HexValue(lo)
  {
    HexToCharOfLowered(hi);
    HexToCharOfLowered(lo);
    assert 16 * HexValue(hi) + HexValue(lo) < 256;
  }

  /** Without colons every other character starts a pair. */
  lemma {:induction false} ScanWithoutColons(s: seq<char>, i: nat)
    requires forall p :: 0 <= p < |s| ==> s[p] != ':'
    requires i <= |s|
    ensures |ScanFrom(s, i)| == (|s| - i + 1) / 2
    decreases |s| - i
  {
    if i < |s| {
      if i + 2 <= |s| {
        ScanWithoutColons(s, i + 2);
      }
    }
  }

  /** The length check lets through 17-character text the loop decodes into
      more than six bytes: text without colons (seventeen 'a's, say) gives
      nine pairs, three of them past the end of the six-byte `mac` buffer. */
  lemma ColonFreeTextOverruns(s: seq<char>)
    requires |s| == 17
    requires forall p :: 0 <= p < |s| ==> s[p] != ':'
    ensures DecodeMac(s).Some?
    ensures |DecodeMac(s).value| == 9
  {
    ScanWithoutColons(Lower(s), 0);
  }

  // ---------------------------------------------------------------------------
  // mac_to_string

  /** One `%2x` (pad ' ') or `%02x` (pad '0') conversion of a byte. */
  function Hex2(b: Byte, pad: char): seq<char> {
    [if b < 16 then pad else HexDigit(b / 16), HexDigit(b % 16)]
  }

  /** The bytes converted one by one and joined by ':'. */
  function FormatBytes(bs: seq<Byte>, pad: char): (r: seq<char>)
    requires |bs| >= 1
    ensures |r| == 3 * |bs| - 1
    ensures forall p :: 0 <= p < |r| && p % 3 == 2 ==> r[p] == ':'
    ensures forall k :: 0 <= k < |bs| ==>
      r[3 * k] == (if bs[k] < 16 then pad else HexDigit(bs[k] / 16)) &&
      r[3 * k + 1] == HexDigit(bs[k] % 16)
    decreases |bs|
  {
    if |bs| == 1 then Hex2(bs[0], pad)
    else Hex2(bs[0], pad) + [':'] + FormatBytes(bs[1..], pad)
  }

  /** `mac_to_string`: `"%2x:%2x:%2x:%2x:%2x:%2x"`, lower-case hex of width 2,
      padded with a SPACE. Always 17 characters. */
  function MacToString(m: Mac): (r: seq<char>)
    ensures |r| == 17
    ensures forall p :: 0 <= p < 17 && p % 3 == 2 ==> r[p] == ':'
    ensures forall k :: 0 <= k < 6 ==> r[3 * k + 1] == HexDigit(m[k] % 16)
    ensures forall k :: 0 <= k < 6 ==> r[3 * k] == (if m[k] < 16 then ' ' else HexDigit(m[k] / 16))
  {
    FormatBytes(m, ' ')
  }

  /** The zero-padded form `"%02x:..."`, under which every printed address
      parses back to itself (CanonicalRoundTrip). */
  function MacToCanonical(m: Mac): (r: seq<char>)
    ensures |r| == 17
    ensures forall p :: 0 <= p < 17 && p % 3 == 2 ==> r[p] == ':'
    ensures forall k :: 0 <= k < 6 ==> r[3 * k] == HexDigit(m[k] / 16) && r[3 * k + 1] == HexDigit(m[k] % 16)
  {
    FormatBytes(m, '0')
  }

  /** Text made of ':' and lower-case digits or spaces is its own lower-case form. */
  lemma LowerOfFormatted(r: seq<char>)
    requires forall p :: 0 <= p < |r| ==> r[p] == ':' || r[p] == ' ' || IsLowerHex(r[p])
    ensures Lower(r) == r
  {
  }

  /** Printed text has its colons exactly where an address has them. */
  lemma FormattedIsAligned(m: Mac, pad: char)
    requires pad != ':'
    ensures Aligned(FormatBytes(m, pad))
    ensures forall p :: 0 <= p < 17 && p % 3 != 2 ==>
      FormatBytes(m, pad)[p] == pad || IsLowerHex(FormatBytes(m, pad)[p])
  {
    var r := FormatBytes(m, pad);
    forall k | 0 <= k < 5
      ensures r[3 * k + 2] == ':'
    {
      assert (3 * k + 2) % 3 == 2;
    }
    forall p | 0 <= p < 17 && p % 3 != 2
      ensures r[p] == pad || IsLowerHex(r[p])
    {
      var k := p / 3;
      if p % 3 == 0 {
        assert r[3 * k] == pad || IsLowerHex(r[3 * k]);
      } else if p % 3 == 1 {
        assert IsLowerHex(r[3 * k + 1]);
      }
    }
  }

  /** Printed text is its own lower-case form. */
  lemma FormattedIsLower(m: Mac, pad: char)
    requires pad == ' ' || pad == '0'
    ensures Lower(FormatBytes(m, pad)) == FormatBytes(m, pad)
  {
    var r := FormatBytes(m, pad);
    FormattedIsAligned(m, pad);
    forall p | 0 <= p < 17
      ensures r[p] == ':' || r[p] == ' ' || IsLowerHex(r[p])
    {
      if p % 3 == 2 {
        assert r[p] == ':';
      }
    }
    LowerOfFormatted(r);
  }

  /** What the pair printed for one byte decodes to. */
  lemma PairOfPrinted(b: Byte, pad: char)
    requires pad == ' ' || pad == '0'
    ensures Pair(if b < 16 then pad else HexDigit(b / 16), HexDigit(b % 16))
         == if b >= 16 || pad == '0' then b else b + 0x90
  {
    HexToCharOfDigit(b % 16);
    HexToCharOfDigit(b / 16);
  }

  /** Formatting and then parsing gives back every byte of at least 0x10; a
      byte b below 0x10 comes back as b + 0x90, because the space pad decodes
      as `hex_to_char(' ') == 201`. */
  lemma FormatThenDecode(m: Mac)
    ensures DecodeMac(MacToString(m)).Some?
    ensures |DecodeMac(MacToString(m)).value| == 6
    ensures forall k :: 0 <= k < 6 ==>
      DecodeMac(MacToString(m)).value[k] == if m[k] >= 16 then m[k] else m[k] + 0x90
  {
    var r := FormatBytes(m, ' ');
    assert r == MacToString(m);
    FormattedIsLower(m, ' ');
    FormattedIsAligned(m, ' ');
    ScanAligned(r, 0);
    var d := AlignedPairs(r, 0);
    forall k | 0 <= k < 6
      ensures d[k] == if m[k] >= 16 then m[k] else m[k] + 0x90
    {
      assert d[k] == Pair(r[3 * k], r[3 * k + 1]) by {
        assert 3 * (0 + k) == 3 * k;
      }
      PairOfPrinted(m[k], ' ');
    }
  }

  /** The round trip through `mac_to_string` and `string_to_mac` holds exactly
      when every byte is at least 0x10. */
  lemma RoundTripIffHighBytes(m: Mac)
    ensures DecodeMac(MacToString(m)) == Some(m) <==> forall k :: 0 <= k < 6 ==> m[k] >= 0x10
  {
    FormatThenDecode(m);
    var d := DecodeMac(MacToString(m)).value;
    if forall k :: 0 <= k < 6 ==> m[k] >= 0x10 {
      assert d == m;
    } else {
      var k :| 0 <= k < 6 && m[k] < 0x10;
      assert d[k] != m[k];
    }
  }

  /** 00:11:22:33:44:0a is printed as " 0:11:22:33:44: a" and reads back as
      90:11:22:33:44:9a. */
  lemma LowByteCounterexample(m: Mac)
    requires m == [0x00, 0x11, 0x22, 0x33, 0x44, 0x0a]
    ensures MacToString(m)[0] == ' ' && MacToString(m)[15] == ' '
    ensures DecodeMac(MacToString(m)) == Some([0x90, 0x11, 0x22, 0x33, 0x44, 0x9a])
  {
    FormatThenDecode(m);
    var d := DecodeMac(MacToString(m)).value;
    assert d == [0x90, 0x11, 0x22, 0x33, 0x44, 0x9a];
    assert MacToString(m)[3 * 5] == ' ';
  }

  // ---------------------------------------------------------------------------
  // The strict form: what parsing and printing promise when done as intended

  /** Parsing that accepts exactly the well-formed text and so always yields
      six bytes. */
  function ParseMac(t: seq<char>): (r: Option<Mac>)
    ensures r.Some? <==> WellFormed(t)
    ensures r.Some? ==> DecodeMac(t) == Some(r.value)
  {
    if WellFormed(t) then
      StringToMacWellFormed(t);
      var m: Mac := DecodeMac(t).value;
      Some(m)
    else None
  }

  /** The zero-padded text is well formed and parses back to the same address. */
  lemma CanonicalRoundTrip(m: Mac)
    ensures WellFormed(MacToCanonical(m))
    ensures ParseMac(MacToCanonical(m)) == Some(m)
  {
    CanonicalIsWellFormed(m);
    CanonicalDecodes(m);
  }

  /** The zero-padded text has hex digits wherever it has no colon. */
  lemma CanonicalIsWellFormed(m: Mac)
    ensures WellFormed(MacToCanonical(m))
  {
    var r := FormatBytes(m, '0');
    assert r == MacToCanonical(m);
    FormattedIsAligned(m, '0');
    forall p | 0 <= p < 17 && p % 3 != 2
      ensures IsHexDigit(r[p])
    {
      assert IsLowerHex(r[p]);
    }
  }

  /** `string_to_mac` reads the zero-padded text back as the address. */
  lemma CanonicalDecodes(m: Mac)
    ensures DecodeMac(MacToCanonical(m)) == Some(m)
  {
    var r := FormatBytes(m, '0');
    assert r == MacToCanonical(m);
    FormattedIsLower(m, '0');
    FormattedIsAligned(m, '0');
    ScanAligned(r, 0);
    var d := AlignedPairs(r, 0);
    forall k | 0 <= k < 6
      ensures d[k] == m[k]
    {
      assert d[k] == Pair(r[3 * k], r[3 * k + 1]) by {
        assert 3 * (0 + k) == 3 * k;
      }
      PairOfPrinted(m[k], '0');
    }
    assert d == m;
  }

  /** Parsing well-formed text and printing it zero-padded gives its lower-case form. */
  lemma CanonicalOfParse(t: seq<char>)
    requires WellFormed(t)
    ensures ParseMac(t).Some?
    ensures MacToCanonical(ParseMac(t).value) == Lower(t)
  {
    StringToMacWellFormed(t);
    var m := ParseMac(t).value;
    var r := MacToCanonical(m);
    var u := Lower(t);
    forall k | 0 <= k < 6
      ensures r[3 * k] == u[3 * k] && r[3 * k + 1] == u[3 * k + 1]
    {
      var hi, lo := t[3 * k], t[3 * k + 1];
      assert IsHexDigit(hi) && IsHexDigit(lo);
      HexToCharOfLowered(hi);
      HexToCharOfLowered(lo);
      assert m[k] == 16 * HexValue(hi) + HexValue(lo);
      assert m[k] / 16 == HexValue(hi) && m[k] % 16 == HexValue(lo);
    }
    forall p | 0 <= p < 17
      ensures r[p] == u[p]
    {
      var k := p / 3;
      if p % 3 == 0 {
        assert p == 3 * k;
      } else if p % 3 == 1 {
        assert p == 3 * k + 1;
      }
    }
  }
}
