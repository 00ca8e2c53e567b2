/** Text renderings used in a packet record: two-digit lowercase hexadecimal,
    the colon-separated MAC address form, unsigned decimal numerals and the
    dotted-decimal IPv4 address form. Each rendering has a parser beside it,
    and the round-trip lemmas show that no information is lost. */
module Text {
  import opened Bytes
  import opened Results

  // ---------------------------------------------------------------- hexadecimal

  /** The lowercase hexadecimal digit for a value below 16. */
  function HexDigit(n: nat): (c: char)
    requires n < 16
    ensures IsHexDigit(c)
  {
    if n < 10 then ('0' as int + n) as char else ('a' as int + n - 10) as char
  }

  predicate IsHexDigit(c: char) {
    '0' <= c <= '9' || 'a' <= c <= 'f'
  }

  /** The value of a lowercase hexadecimal digit; upper-case digits are not
      produced by the renderer and are refused. */
  function HexValue(c: char): (r: Option<nat>)
    ensures r.Some? ==> r.value < 16 && HexDigit(r.value) == c
  {
    if '0' <= c <= '9' then Some(c as int - '0' as int)
    else if 'a' <= c <= 'f' then Some(c as int - 'a' as int + 10)
    else None
  }

  lemma HexDigitValue(n: nat)
    requires n < 16
    ensures HexValue(HexDigit(n)) == Some(n)
  {
  }

  /** An octet as exactly two lowercase hexadecimal digits, high nibble first
      (the `{:02x}` rendering). */
  function Hex2(b: byte): (s: string)
    ensures |s| == 2 && IsHexDigit(s[0]) && IsHexDigit(s[1])
  {
    [HexDigit(HighNibble(b)), HexDigit(LowNibble(b))]
  }

  function ParseHex2(hi: char, lo: char): (r: Option<byte>)
  {
    match (HexValue(hi), HexValue(lo))
    case (Some(h), Some(l)) => Some(16 * h + l)
    case _ => None
  }

  lemma Hex2RoundTrip(b: byte)
    ensures ParseHex2(Hex2(b)[0], Hex2(b)[1]) == Some(b)
  {
    HexDigitValue(HighNibble(b));
    HexDigitValue(LowNibble(b));
  }

  lemma ParseHex2Canonical(hi: char, lo: char)
    requires ParseHex2(hi, lo).Some?
    ensures Hex2(ParseHex2(hi, lo).value) == [hi, lo]
  {
    var h, l := HexValue(hi).value, HexValue(lo).value;
    var b: byte := 16 * h + l;
    assert HighNibble(b) == h && LowNibble(b) == l;
  }

  // ---------------------------------------------------------------- MAC address

  const MacLen: nat := 6
  const MacStringLen: nat := 17

  /** Octet `k` of a rendered MAC address occupies characters 3k and 3k+1. */
  predicate PairRenders(s: string, mac: seq<byte>, k: nat)
    requires |s| == MacStringLen && |mac| == MacLen && k < MacLen
  {
    s[3 * k] == Hex2(mac[k])[0] && s[3 * k + 1] == Hex2(mac[k])[1]
  }

  /** Characters 3k+2 (k < 5) of a MAC string are the colon separators. */
  predicate SeparatorAt(s: string, k: nat)
    requires |s| == MacStringLen && k < MacLen - 1
  {
    s[3 * k + 2] == ':'
  }

  /** Each octet as a colon followed by its two hex digits. */
  function ColonHex(bs: seq<byte>): (s: string)
    ensures |s| == 3 * |bs|
    decreases |bs|
  {
    if |bs| == 0 then "" else [':'] + Hex2(bs[0]) + ColonHex(bs[1..])
  }

  lemma {:induction false} ColonHexLayout(bs: seq<byte>, k: nat)
    requires k < |bs|
    ensures ColonHex(bs)[3 * k] == ':'
    ensures ColonHex(bs)[3 * k + 1] == Hex2(bs[k])[0]
    ensures ColonHex(bs)[3 * k + 2] == Hex2(bs[k])[1]
    decreases k
  {
    var head, rest := [':'] + Hex2(bs[0]), ColonHex(bs[1..]);
    assert |head| == 3;
    assert ColonHex(bs) == head + rest;
    if k > 0 {
      ColonHexLayout(bs[1..], k - 1);
      assert bs[1..][k - 1] == bs[k];
      assert (head + rest)[3 * k] == rest[3 * (k - 1)];
      assert (head + rest)[3 * k + 1] == rest[3 * (k - 1) + 1];
      assert (head + rest)[3 * k + 2] == rest[3 * (k - 1) + 2];
    }
  }

  /** A six-octet hardware address as "xx:xx:xx:xx:xx:xx", lowercase hex. */
  function MacToString(mac: seq<byte>): (s: string)
    requires |mac| == MacLen
    ensures |s| == MacStringLen
  {
    Hex2(mac[0]) + ColonHex(mac[1..])
  }

  /** The rendering has colons at characters 2, 5, 8, 11 and 14, and octet k
      as two hex digits at characters 3k and 3k+1. */
  lemma MacLayout(mac: seq<byte>)
    requires |mac| == MacLen
    ensures forall k :: 0 <= k < MacLen - 1 ==> SeparatorAt(MacToString(mac), k)
    ensures forall k :: 0 <= k < MacLen ==> PairRenders(MacToString(mac), mac, k)
  {
    var s := MacToString(mac);
    forall k | 0 <= k < MacLen
      ensures PairRenders(s, mac, k)
    {
      if k > 0 {
        ColonHexLayout(mac[1..], k - 1);
      }
    }
    forall k | 0 <= k < MacLen - 1
      ensures SeparatorAt(s, k)
    {
      ColonHexLayout(mac[1..], k);
    }
  }

  /** Octet `k` of a MAC string, if its two characters are hex digits. */
  function PairAt(s: string, k: nat): Option<byte>
    requires |s| == MacStringLen && k < MacLen
  {
    ParseHex2(s[3 * k], s[3 * k + 1])
  }

  /** Reads a MAC address back from its colon-separated rendering. */
  function ParseMac(s: string): (r: Option<seq<byte>>)
    ensures r.Some? ==> |r.value| == MacLen
  {
    if |s| != MacStringLen then None
    else if !(forall k :: 0 <= k < MacLen - 1 ==> SeparatorAt(s, k)) then None
    else if !(forall k :: 0 <= k < MacLen ==> PairAt(s, k).Some?) then None
    else Some(seq(MacLen, k requires 0 <= k < MacLen => PairAt(s, k).value))
  }

  /** Rendering a MAC address loses nothing: parsing gives the octets back. */
  lemma MacRoundTrip(mac: seq<byte>)
    requires |mac| == MacLen
    ensures ParseMac(MacToString(mac)) == Some(mac)
  {
    var s := MacToString(mac);
    MacLayout(mac);
    forall k | 0 <= k < MacLen
      ensures PairAt(s, k) == Some(mac[k])
    {
      assert PairRenders(s, mac, k);
      assert s[3 * k] == Hex2(mac[k])[0] && s[3 * k + 1] == Hex2(mac[k])[1];
      Hex2RoundTrip(mac[k]);
    }
    assert ParseMac(s).value == mac;
  }

  /** Characters 3k, 3k+1 and (between octets) 3k+2 of an accepted string
      match the rendering of what the parser returns. */
  lemma MacGroupCanonical(s: string, k: nat)
    requires ParseMac(s).Some? && k < MacLen
    ensures var t := MacToString(ParseMac(s).value);
      && t[3 * k] == s[3 * k] && t[3 * k + 1] == s[3 * k + 1]
      && (k < MacLen - 1 ==> t[3 * k + 2] == s[3 * k + 2])
  {
    var mac := ParseMac(s).value;
    var t := MacToString(mac);
    MacLayout(mac);
    assert PairRenders(t, mac, k);
    assert mac[k] == PairAt(s, k).value;
    ParseHex2Canonical(s[3 * k], s[3 * k + 1]);
    if k < MacLen - 1 {
      assert SeparatorAt(s, k) && SeparatorAt(t, k);
    }
  }

  /** Every string the parser accepts is exactly the rendering of what it
      returns, so the rendering is the one canonical form. */
  lemma ParseMacCanonical(s: string)
    requires ParseMac(s).Some?
    ensures MacToString(ParseMac(s).value) == s
  {
    var t := MacToString(ParseMac(s).value);
    forall i | 0 <= i < MacStringLen
      ensures t[i] == s[i]
    {
      MacGroupCanonical(s, i / 3);
    }
  }

  // ---------------------------------------------------------------- decimal

  predicate IsDigit(c: char) {
    '0' <= c <= '9'
  }

  function DigitChar(d: nat): (c: char)
    requires d < 10
    ensures IsDigit(c)
  {
    ('0' as int + d) as char
  }

  function DigitValue(c: char): (d: nat)
    requires IsDigit(c)
    ensures d < 10
  {
    c as int - '0' as int
  }

  /** A natural number as a decimal numeral without leading zeros (the
      rendering of `std::to_string` and of each `inet_ntoa` component). */
  function NatToString(n: nat): (s: string)
    ensures |s| >= 1
    ensures forall i :: 0 <= i < |s| ==> IsDigit(s[i])
    ensures |s| > 1 ==> s[0] != '0'
    ensures n < 10 <==> |s| == 1
    decreases n
  {
    if n < 10 then [DigitChar(n)] else NatToString(n / 10) + [DigitChar(n % 10)]
  }

  /** The value of a nonempty run of decimal digits. */
  function DigitsValue(s: string): (n: nat)
    requires forall i :: 0 <= i < |s| ==> IsDigit(s[i])
    decreases |s|
  {
    if |s| == 0 then 0 else 10 * DigitsValue(s[..|s| - 1]) + DigitValue(s[|s| - 1])
  }

  /** Reads a decimal numeral; refuses the empty string and non-digits. */
  function StringToNat(s: string): (r: Option<nat>)
    ensures r.Some? ==> |s| >= 1
  {
    if |s| == 0 || !(forall i :: 0 <= i < |s| ==> IsDigit(s[i])) then None
    else Some(DigitsValue(s))
  }

  lemma {:induction false} NatRoundTrip(n: nat)
    ensures StringToNat(NatToString(n)) == Some(n)
    decreases n
  {
    var s := NatToString(n);
    if n < 10 {
      assert s == [DigitChar(n)] && s[..0] == [];
      assert DigitsValue(s) == DigitValue(DigitChar(n)) == n;
    } else {
      NatRoundTrip(n / 10);
      assert s[..|s| - 1] == NatToString(n / 10);
      assert DigitValue(DigitChar(n % 10)) == n % 10;
    }
  }

  // ---------------------------------------------------------------- IPv4 address

  const Ipv4AddrLen: nat := 4

  /** An octet's numeral has one to three digits. */
  lemma OctetNumeralLen(b: byte)
    ensures 1 <= |NatToString(b)| <= 3
  {
    if b >= 10 {
      assert NatToString(b) == NatToString(b / 10) + [DigitChar(b % 10)];
      if b / 10 >= 10 {
        assert NatToString(b / 10) == NatToString(b / 100) + [DigitChar(b / 10 % 10)];
      }
    }
  }

  /** An IPv4 address as four decimal components joined by dots (the
      `inet_ntoa` rendering), first octet first. */
  function DottedQuad(a: seq<byte>): (s: string)
    requires |a| == Ipv4AddrLen
    ensures 7 <= |s| <= 15
    ensures s[|NatToString(a[0])|] == '.'
  {
    OctetNumeralLen(a[0]); OctetNumeralLen(a[1]); OctetNumeralLen(a[2]); OctetNumeralLen(a[3]);
    NatToString(a[0]) + "." + NatToString(a[1]) + "." + NatToString(a[2]) + "." + NatToString(a[3])
  }

  /** Splits a string at every occurrence of `sep`; there is always one more
      part than separators. */
  function SplitOn(s: string, sep: char): (parts: seq<string>)
    ensures |parts| >= 1
    decreases |s|
  {
    if |s| == 0 then [""]
    else
      var rest := SplitOn(s[1..], sep);
      if s[0] == sep then [""] + rest else [[s[0]] + rest[0]] + rest[1..]
  }

  lemma {:induction false} SplitOnNoSep(a: string, sep: char)
    requires sep !in a
    ensures SplitOn(a, sep) == [a]
    decreases |a|
  {
    if |a| > 0 {
      SplitOnNoSep(a[1..], sep);
      assert [a[0]] + a[1..] == a;
    }
  }

  lemma {:induction false} SplitOnFirst(a: string, sep: char, b: string)
    requires sep !in a
    ensures SplitOn(a + [sep] + b, sep) == [a] + SplitOn(b, sep)
    decreases |a|
  {
    var s := a + [sep] + b;
    if |a| == 0 {
      assert s[1..] == b;
    } else {
      assert s[1..] == a[1..] + [sep] + b;
      SplitOnFirst(a[1..], sep, b);
      assert [a[0]] + a[1..] == a;
    }
  }

  /** A decimal component of a dotted quad: at most three digits, below 256. */
  function ParseOctet(s: string): (r: Option<byte>)
  {
    if |s| > 3 then None
    else match StringToNat(s)
      case Some(n) => if n < 256 then Some(n) else None
      case None => None
  }

  /** Reads an IPv4 address back from its dotted-decimal rendering. */
  function ParseDottedQuad(s: string): (r: Option<seq<byte>>)
    ensures r.Some? ==> |r.value| == Ipv4AddrLen
  {
    var parts := SplitOn(s, '.');
    if |parts| != 4 then None
    else
      var o0, o1, o2, o3 := ParseOctet(parts[0]), ParseOctet(parts[1]), ParseOctet(parts[2]), ParseOctet(parts[3]);
      if o0.Some? && o1.Some? && o2.Some? && o3.Some? then Some([o0.value, o1.value, o2.value, o3.value])
      else None
  }

  lemma OctetRoundTrip(b: byte)
    ensures ParseOctet(NatToString(b)) == Some(b)
    ensures '.' !in NatToString(b)
  {
    NatRoundTrip(b);
    if b >= 10 {
      assert |NatToString(b / 10)| <= 2;
    }
  }

  /** The dots of a rendered address are exactly the three separators. */
  lemma DottedQuadParts(a: seq<byte>)
    requires |a| == Ipv4AddrLen
    ensures SplitOn(DottedQuad(a), '.') == [NatToString(a[0]), NatToString(a[1]), NatToString(a[2]), NatToString(a[3])]
  {
    var s0, s1, s2, s3 := NatToString(a[0]), NatToString(a[1]), NatToString(a[2]), NatToString(a[3]);
    OctetRoundTrip(a[0]);
    OctetRoundTrip(a[1]);
    OctetRoundTrip(a[2]);
    OctetRoundTrip(a[3]);
    var t2 := s2 + "." + s3;
    var t1 := s1 + "." + t2;
    var t0 := s0 + "." + t1;
    assert t0 == DottedQuad(a);
    SplitOnNoSep(s3, '.');
    SplitOnFirst(s2, '.', s3);
    SplitOnFirst(s1, '.', t2);
    SplitOnFirst(s0, '.', t1);
  }

  /** Rendering an IPv4 address loses nothing: parsing gives the octets back. */
  lemma DottedQuadRoundTrip(a: seq<byte>)
    requires |a| == Ipv4AddrLen
    ensures ParseDottedQuad(DottedQuad(a)) == Some(a)
  {
    DottedQuadParts(a);
    OctetRoundTrip(a[0]);
    OctetRoundTrip(a[1]);
    OctetRoundTrip(a[2]);
    OctetRoundTrip(a[3]);
    assert [a[0], a[1], a[2], a[3]] == a;
  }
}
