/** The decoders for the remote-address column of the kernel's TCP connection
    tables: parse_ip_port ("AABBCCDD:PPPP", IPv4) and parse_ipv6_port (32 hex
    digits, ':' and a hex port, IPv6). The textual forms the C code prints
    (snprintf "%u.%u.%u.%u", inet_ntop) are represented by the decoded bytes. */
module AddressCodec {
  import opened Options
  import opened Text

  newtype byte = x: int | 0 <= x < 256

  datatype IpAddr = V4(octets: seq<byte>) | V6(bytes: seq<byte>)

  /** A decoded remote endpoint. The port is None when the decoder returned
      success without storing a port (parse_ipv6_port ignores the result of its
      port scan, so *port keeps whatever it held before). */
  datatype Endpoint = Endpoint(ip: IpAddr, port: Option<nat>)

  /** "%X" without a width: the value of the leading hex digits of t, None when
      t does not start with one. */
  function ScanHex(t: string): (r: Option<nat>)
    ensures r.Some? <==> (|t| > 0 && IsHexDigit(t[0]))
  {
    var m := HexRun(t, |t|);
    if m == 0 then None else Some(HexValue(t[..m]))
  }

  /** The 32-bit value whose bytes, least significant first, are o. */
  function LittleEndian(o: seq<byte>): nat
    requires |o| == 4
  {
    o[0] as nat + 256 * o[1] as nat + 65536 * o[2] as nat + 16777216 * o[3] as nat
  }

  /** bytes[k] = (ipval >> 8k) & 0xFF for k = 0..3 (jinsock.c:66-69). */
  function Octets(v: nat): (o: seq<byte>)
    requires v < 0x1_0000_0000
    ensures |o| == 4 && LittleEndian(o) == v
  {
    var o0, r0 := v % 256, v / 256;
    var o1, r1 := r0 % 256, r0 / 256;
    var o2, r2 := r1 % 256, r1 / 256;
    assert v / 65536 == r1 && v / 16777216 == r2;
    [o0 as byte, o1 as byte, o2 as byte, (r2 % 256) as byte]
  }

  lemma OctetsOfLittleEndian(o: seq<byte>)
    requires |o| == 4
    ensures LittleEndian(o) < 0x1_0000_0000 && Octets(LittleEndian(o)) == o
  {
    var v := LittleEndian(o);
    var a, b, c, d := o[0] as nat, o[1] as nat, o[2] as nat, o[3] as nat;
    assert v / 256 == b + 256 * c + 65536 * d;
    assert v / 256 / 256 == c + 256 * d;
    assert v / 256 / 256 / 256 == d;
  }

  /** parse_ip_port (jinsock.c:51-74): fewer than 13 characters, or text that
      "%8X:%X" cannot read as two numbers, gives None; otherwise the 32-bit value
      of the first field becomes four octets, least significant byte first. */
  function DecodeV4(s: string): (r: Option<Endpoint>)
    ensures r.Some? <==>
      (|s| >= 13 && 0 < HexRun(s, 8) && s[HexRun(s, 8)] == ':' && IsHexDigit(s[HexRun(s, 8) + 1]))
    ensures r.Some? ==>
      r.value.ip.V4? && |r.value.ip.octets| == 4 && r.value.port.Some? &&
      LittleEndian(r.value.ip.octets) == HexValue(s[..HexRun(s, 8)]) &&
      r.value.port == ScanHex(s[HexRun(s, 8) + 1..])
  {
    if |s| < 13 then None
    else
      var k := HexRun(s, 8);
      if k == 0 || s[k] != ':' then None
      else
        var port :- ScanHex(s[k + 1..]);
        assert HexValue(s[..k]) < 0x1_0000_0000 by {
          PowMonotone(16, k, 8);
          assert Pow(16, 8) == 0x1_0000_0000;
        }
        Some(Endpoint(V4(Octets(HexValue(s[..k]))), Some(port)))
  }

  /** The kernel's text for an IPv4 endpoint: "%08X:%04X" of the address read as
      a little-endian 32-bit word and of the port. */
  function EncodeV4(o: seq<byte>, port: nat): (s: string)
    requires |o| == 4 && port < 65536
    ensures |s| == 13
  {
    HexString(LittleEndian(o), 8) + ":" + HexString(port, 4)
  }

  lemma {:induction false} DecodeEncodeV4(o: seq<byte>, port: nat)
    requires |o| == 4 && port < 65536
    ensures DecodeV4(EncodeV4(o, port)) == Some(Endpoint(V4(o), Some(port)))
  {
    var v := LittleEndian(o);
    OctetsOfLittleEndian(o);
    var h, p := HexString(v, 8), HexString(port, 4);
    var s := EncodeV4(o, port);
    assert s == h + (":" + p);
    HexRunOf(h, ":" + p, 8);
    assert s[..8] == h && s[8] == ':' && s[9..] == p;
    assert Pow(16, 8) == 0x1_0000_0000 && Pow(16, 4) == 65536;
    HexStringValue(v, 8);
    HexStringValue(port, 4);
    HexRunOf(p, [], 4);
    assert p + [] == p && p[..4] == p;
  }

  /** strtol(bytehex, NULL, 16) on the two characters hi, lo, cast to unsigned
      char: leading white space is skipped, a '+' or '-' sign is accepted, and
      the digits end at the first character that is not a hex digit; a text
      with no digits gives 0. A "0x" prefix needs a hex digit after it, so
      with two characters it reads as the single digit 0. */
  function PairValue(hi: char, lo: char): (r: byte)
    ensures AllHex([hi, lo]) ==> r as nat == HexValue([hi, lo])
    ensures IsHexDigit(hi) && !IsHexDigit(lo) ==> r as nat == HexDigitValue(hi)
    ensures !IsHexDigit(lo) && !IsHexDigit(hi) ==> r == 0
  {
    if IsHexDigit(hi) then
      if IsHexDigit(lo) then (16 * HexDigitValue(hi) + HexDigitValue(lo)) as byte
      else HexDigitValue(hi) as byte
    else if (IsSpace(hi) || hi == '+') && IsHexDigit(lo) then HexDigitValue(lo) as byte
    else if hi == '-' && IsHexDigit(lo) then ((256 - HexDigitValue(lo)) % 256) as byte
    else 0
  }

  /** The laxity of strtol: a blank or a sign before one digit, and a negative
      value wrapping around in the cast to unsigned char. */
  lemma PairValueLax()
    ensures PairValue(' ', '7') == 7 && PairValue('+', '1') == 1
    ensures PairValue('-', '1') == 255 && PairValue('-', '0') == 0
    ensures PairValue('A', 'x') == 10 && PairValue('x', 'A') == 0
  {
  }

  /** parse_ipv6_port (jinsock.c:76-91): fewer than 37 characters gives None;
      otherwise it always succeeds: output byte 15 - i is the pair of characters
      2i, 2i + 1 (a reversal of all 16 bytes), and the port is "%X" read from
      position 33, unset when that scan fails. Character 32 is not looked at.
      The kernel's own tcp6 text is written word by word (KernelV6Text), so on
      that text the reversal returns the words in reverse order
      (DecodeKernelV6). */
  function DecodeV6(s: string): (r: Option<Endpoint>)
    ensures r.Some? <==> |s| >= 37
    ensures r.Some? ==>
      r.value.ip.V6? && |r.value.ip.bytes| == 16 &&
      (forall i :: 0 <= i < 16 ==> r.value.ip.bytes[15 - i] == PairValue(s[2 * i], s[2 * i + 1])) &&
      r.value.port == ScanHex(s[33..])
  {
    if |s| < 37 then None
    else
      var ip := seq(16, j requires 0 <= j < 16 => PairValue(s[30 - 2 * j], s[31 - 2 * j]));
      Some(Endpoint(V6(ip), ScanHex(s[33..])))
  }

  function Reverse(b: seq<byte>): (r: seq<byte>)
    ensures |r| == |b| && forall i :: 0 <= i < |b| ==> r[i] == b[|b| - 1 - i]
  {
    if b == [] then [] else [b[|b| - 1]] + Reverse(b[..|b| - 1])
  }

  /** Each byte as two upper-case hex digits, in order. */
  function HexBytes(b: seq<byte>): (s: string)
    ensures |s| == 2 * |b|
  {
    if b == [] then [] else HexBytes(b[..|b| - 1]) + HexString(b[|b| - 1] as nat, 2)
  }

  lemma {:induction false} HexBytesAt(b: seq<byte>, i: nat)
    requires i < |b|
    ensures PairValue(HexBytes(b)[2 * i], HexBytes(b)[2 * i + 1]) == b[i]
  {
    var init := b[..|b| - 1];
    if i < |b| - 1 {
      HexBytesAt(init, i);
      assert HexBytes(b)[2 * i] == HexBytes(init)[2 * i];
      assert HexBytes(b)[2 * i + 1] == HexBytes(init)[2 * i + 1];
    } else {
      var h := HexString(b[i] as nat, 2);
      assert HexBytes(b)[2 * i] == h[0] && HexBytes(b)[2 * i + 1] == h[1];
      assert h[..1] == HexString(b[i] as nat / 16, 1);
      assert HexString(b[i] as nat / 16, 1)[..0] == [];
    }
  }

  /** Hex text whose 16 decoded pairs, read by DecodeV6, give b: the bytes of b
      written in reverse order, then ":" and the port. */
  function EncodeV6(b: seq<byte>, port: nat): (s: string)
    requires |b| == 16 && port < 65536
    ensures |s| == 37
  {
    HexBytes(Reverse(b)) + ":" + HexString(port, 4)
  }

  lemma {:induction false} DecodeEncodeV6(b: seq<byte>, port: nat)
    requires |b| == 16 && port < 65536
    ensures DecodeV6(EncodeV6(b, port)) == Some(Endpoint(V6(b), Some(port)))
  {
    var s := EncodeV6(b, port);
    var rb := Reverse(b);
    var h, p := HexBytes(rb), HexString(port, 4);
    assert s == h + (":" + p);
    var ip := seq(16, j requires 0 <= j < 16 => PairValue(s[30 - 2 * j], s[31 - 2 * j]));
    forall j | 0 <= j < 16
      ensures ip[j] == b[j]
    {
      var i := 15 - j;
      HexBytesAt(rb, i);
      assert s[30 - 2 * j] == h[2 * i] && s[31 - 2 * j] == h[2 * i + 1];
    }
    assert ip == b;
    assert s[33..] == p;
    HexRunOf(p, [], 4);
    assert p + [] == p && p[..4] == p;
    assert Pow(16, 4) == 65536;
    HexStringValue(port, 4);
  }

  /** The last two of w + 2 hex digits are those of the low byte. */
  lemma HexStringByte(n: nat, w: nat)
    ensures HexString(n, w + 2) == HexString(n / 256, w) + HexString(n % 256, 2)
  {
    assert n / 16 / 16 == n / 256;
    assert n % 256 / 16 == n / 16 % 16 && n % 256 / 16 / 16 == 0;
    assert n % 256 % 16 == n % 16;
    assert HexString(n % 256 / 16, 1) == [HexChar(n / 16 % 16)];
  }

  lemma ByteSplit(q: nat, r: byte)
    ensures (r as nat + 256 * q) / 256 == q && (r as nat + 256 * q) % 256 == r as nat
  {
  }

  /** The value whose bytes, least significant first, are o, for any length. */
  function ValueOf(o: seq<byte>): nat
  {
    if o == [] then 0 else o[0] as nat + 256 * ValueOf(o[1..])
  }

  /** A value written with two hex digits per byte is the hex of its bytes,
      most significant byte first. */
  lemma {:induction false} ValueText(o: seq<byte>)
    ensures HexString(ValueOf(o), 2 * |o|) == HexBytes(Reverse(o))
  {
    if o != [] {
      var rest := o[1..];
      ByteSplit(ValueOf(rest), o[0]);
      HexStringByte(ValueOf(o), 2 * |rest|);
      ValueText(rest);
      var r := Reverse(o);
      assert r[..|r| - 1] == Reverse(rest);
    }
  }

  /** "%08X" of the 32-bit word whose bytes, least significant first, are o:
      the bytes' hex pairs, most significant byte first. */
  lemma WordText(o: seq<byte>)
    requires |o| == 4
    ensures HexString(LittleEndian(o), 8) == HexBytes(Reverse(o))
  {
    var o1 := o[1..];
    var o2 := o1[1..];
    var o3 := o2[1..];
    assert o3[1..] == [];
    assert ValueOf(o3) == o[3] as nat;
    assert ValueOf(o2) == o[2] as nat + 256 * o[3] as nat;
    assert ValueOf(o1) == o[1] as nat + 256 * (o[2] as nat + 256 * o[3] as nat);
    assert ValueOf(o) == LittleEndian(o);
    ValueText(o);
  }

  lemma {:induction false} HexBytesAppend(a: seq<byte>, b: seq<byte>)
    ensures HexBytes(a + b) == HexBytes(a) + HexBytes(b)
    decreases |b|
  {
    if b == [] {
      assert a + b == a;
    } else {
      var init, last := b[..|b| - 1], b[|b| - 1];
      var ab := a + b;
      assert ab[..|ab| - 1] == a + init && ab[|ab| - 1] == last;
      assert HexBytes(ab) == HexBytes(a + init) + HexString(last as nat, 2);
      assert HexBytes(b) == HexBytes(init) + HexString(last as nat, 2);
      HexBytesAppend(a, init);
    }
  }

  /** The rem_address column the kernel writes into net/tcp6 on a
      little-endian machine: the address as four 32-bit words, each read in
      host byte order and printed "%08X", then ":" and the port "%04X". */
  function KernelV6Text(b: seq<byte>, port: nat): (s: string)
    requires |b| == 16 && port < 65536
    ensures |s| == 37
  {
    HexString(LittleEndian(b[0..4]), 8) + HexString(LittleEndian(b[4..8]), 8) +
    HexString(LittleEndian(b[8..12]), 8) + HexString(LittleEndian(b[12..16]), 8) +
    ":" + HexString(port, 4)
  }

  /** The four 32-bit words of a 16-byte address in reverse order, the bytes
      of each word kept in order. */
  function WordsReversed(b: seq<byte>): (r: seq<byte>)
    requires |b| == 16
    ensures |r| == 16 && forall i :: 0 <= i < 16 ==> r[i] == b[4 * (3 - i / 4) + i % 4]
  {
    b[12..16] + b[8..12] + b[4..8] + b[0..4]
  }

  /** The kernel's tcp6 text of b is the text EncodeV6 writes for b with its
      words reversed. */
  lemma KernelV6TextReversed(b: seq<byte>, port: nat)
    requires |b| == 16 && port < 65536
    ensures KernelV6Text(b, port) == EncodeV6(WordsReversed(b), port)
  {
    var w0, w1, w2, w3 := b[0..4], b[4..8], b[8..12], b[12..16];
    var r := Reverse(WordsReversed(b));
    assert r == Reverse(w0) + Reverse(w1) + Reverse(w2) + Reverse(w3);
    HexBytesAppend(Reverse(w0) + Reverse(w1) + Reverse(w2), Reverse(w3));
    HexBytesAppend(Reverse(w0) + Reverse(w1), Reverse(w2));
    HexBytesAppend(Reverse(w0), Reverse(w1));
    WordText(w0);
    WordText(w1);
    WordText(w2);
    WordText(w3);
  }

  /** parse_ipv6_port on the kernel's own tcp6 text of an address b gives b
      with its four words in reverse order: reversing all 16 bytes puts the
      bytes of each word back in order but leaves the words reversed. */
  lemma DecodeKernelV6(b: seq<byte>, port: nat)
    requires |b| == 16 && port < 65536
    ensures DecodeV6(KernelV6Text(b, port)) == Some(Endpoint(V6(WordsReversed(b)), Some(port)))
  {
    KernelV6TextReversed(b, port);
    DecodeEncodeV6(WordsReversed(b), port);
  }

  lemma {:induction false} ZeroText(w: nat)
    ensures HexString(0, w) == seq(w, _ => '0')
  {
    if w > 0 {
      ZeroText(w - 1);
    }
  }

  lemma ZeroWordText()
    ensures HexString(0, 8) == "00000000"
  {
    ZeroText(8);
  }

  lemma OneWordText()
    ensures HexString(16777216, 8) == "01000000"
  {
    assert HexString(0, 1) == "0" && HexString(1, 2) == "01" && HexString(16, 3) == "010";
    assert HexString(256, 4) == "0100" && HexString(4096, 5) == "01000";
    assert HexString(65536, 6) == "010000" && HexString(1048576, 7) == "0100000";
  }

  /** The kernel writes ::1, port 8080, as
      "00000000000000000000000001000000:1F90". */
  lemma KernelV6Loopback()
    ensures KernelV6Text(seq(12, _ => 0) + [0, 0, 0, 1], 8080) ==
      "00000000" + "00000000" + "00000000" + "01000000" + ":1F90"
  {
    var b: seq<byte> := seq(12, _ => 0) + [0, 0, 0, 1];
    var z: seq<byte>, o: seq<byte> := [0, 0, 0, 0], [0, 0, 0, 1];
    assert b[0..4] == z && b[4..8] == z && b[8..12] == z && b[12..16] == o;
    assert LittleEndian(z) == 0 && LittleEndian(o) == 16777216;
    ZeroWordText();
    OneWordText();
    PortText();
    assert ":" + "1F90" == ":1F90";
  }

  /** An address whose first three words are zero, as ::1 is, decodes with
      its last word moved to the front: ::1 becomes 0:1::. */
  lemma DecodeKernelV6LastWord(w: seq<byte>, port: nat)
    requires |w| == 4 && port < 65536
    ensures DecodeV6(KernelV6Text(seq(12, _ => 0) + w, port)) == Some(Endpoint(V6(w + seq(12, _ => 0)), Some(port)))
  {
    var b: seq<byte> := seq(12, _ => 0) + w;
    DecodeKernelV6(b, port);
    assert WordsReversed(b) == w + seq(12, _ => 0);
  }

  /** Decoding the byte-reversed hex of b and reversing again gives b back: the
      reversal parse_ipv6_port applies is its own inverse. */
  lemma ReverseInvolution(b: seq<byte>)
    ensures Reverse(Reverse(b)) == b
  {
  }

  lemma LoopbackAddressText()
    ensures HexString(0x0100007F, 8) == "0100007F"
  {
    assert HexString(0, 1) == "0";
    assert HexString(1, 2) == "01";
    assert HexString(16, 3) == "010";
    assert HexString(256, 4) == "0100";
    assert HexString(4096, 5) == "01000";
    assert HexString(65536, 6) == "010000";
    assert HexString(1048583, 7) == "0100007";
  }

  lemma PortText()
    ensures HexString(8080, 4) == "1F90"
  {
    assert HexString(1, 1) == "1";
    assert HexString(31, 2) == "1F";
    assert HexString(505, 3) == "1F9";
  }

  /** "0100007F:1F90" decodes to 127.0.0.1 port 8080. */
  lemma DecodeV4Loopback()
    ensures DecodeV4("0100007F:1F90") == Some(Endpoint(V4([127, 0, 0, 1]), Some(8080)))
  {
    var o: seq<byte> := [127, 0, 0, 1];
    assert LittleEndian(o) == 0x0100007F;
    LoopbackAddressText();
    PortText();
    assert EncodeV4(o, 8080) == "0100007F:1F90";
    DecodeEncodeV4(o, 8080);
  }

  /** The text "00000000000000000000000000000001:1F90" decodes, by the full
      16-byte reversal, to bytes 01 00 .. 00 (the address 100::), port 8080. */
  lemma DecodeV6LastPairFirst()
    ensures DecodeV6("00000000000000000000000000000001:1F90") ==
      Some(Endpoint(V6([1] + seq(15, _ => 0)), Some(8080)))
  {
    var s := "00000000000000000000000000000001:1F90";
    var zeros := seq(31, _ => '0');
    assert s == zeros + "1" + ":1F90";
    assert s[33..] == "1F90";
    ScanHexPort();
    var ip := DecodeV6(s).value.ip.bytes;
    assert PairValue('0', '1') == 1 && PairValue('0', '0') == 0;
    forall j | 0 <= j < 16
      ensures ip[j] == ([1] + seq(15, _ => 0))[j]
    {
      assert ip[j] == PairValue(s[30 - 2 * j], s[31 - 2 * j]);
    }
    assert ip == [1] + seq(15, _ => 0);
  }

  lemma ScanHexPort()
    ensures ScanHex("1F90") == Some(8080)
  {
    var t := "1F90";
    HexRunOf(t, [], 4);
    assert t + [] == t && t[..4] == t;
    assert HexValue("1") == 1;
    assert HexValue("1F") == 31;
    assert HexValue("1F9") == 505;
    assert "1F90"[..3] == "1F9" && "1F9"[..2] == "1F" && "1F"[..1] == "1";
  }
}
