// MAC addresses on the terminal: macAddressParse, hexbyteStrtoASCII and the banner's
// "%02x:..." text.
module MacAddress {
  import opened Text
  import opened Ipv6

  const SIX_BYTES_SIZE_MAC_ADDRESS: nat := 17

  // The text of a parse is the memory from its first character on: strlen stops at
  // the first NUL, the copying loop may read on behind it.  Past the end of the given
  // memory every character is NUL.
  function At(s: string, i: nat): char { if i < |s| then s[i] else '\0' }

  // Bitwise or of two numbers of at most k bits.
  function Or(a: nat, b: nat, k: nat): (r: nat)
    requires a < Power2(k) && b < Power2(k)
    ensures r < Power2(k)
    decreases k
  {
    if k == 0 then 0 else 2 * Or(a / 2, b / 2, k - 1) + if a % 2 == 1 || b % 2 == 1 then 1 else 0
  }

  function Power2(k: nat): nat { if k == 0 then 1 else 2 * Power2(k - 1) }

  function OrNibble(a: nat, b: nat): (r: nat)
    requires a < 16 && b < 16
    ensures r < 16
  {
    assert Power2(4) == 16;
    Or(a, b, 4)
  }

  // byte | digit, which leaves the high four bits alone.
  function OrDigit(a: Byte, d: nat): (r: Byte)
    requires d < 16
    ensures r % 16 == OrNibble(a % 16, d)
  {
    var high, low := a / 16, OrNibble(a % 16, d);
    LowDigit(high, low);
    high * 16 + low
  }

  lemma {:induction false} LowDigit(high: nat, low: nat)
    requires low < 16
    ensures (high * 16 + low) % 16 == low
  {
  }

  // (byte << 4) | digit in eight bits; the shifted byte has no low bits, so or is addition.
  function ShiftIn(a: Byte, d: nat): Byte
    requires d < 16
  {
    a * 16 % 256 + d
  }

  // What one byte text makes of the byte already in the buffer: the return code and
  // the new byte.  The first digit is or-ed into the old byte, the second shifts.
  function HexByte(str: string, before: Byte): (int, Byte) {
    var t := if At(str, 1) == 'x' then 2 else 0;
    if At(str, t) == '\0' then (-1, before)
    else if !IsHex(At(str, t)) then (-1, before)
    else
      var first := OrDigit(before, HexDigit(At(str, t)));
      if At(str, t + 1) == '\0' then (0, first)
      else if !IsHex(At(str, t + 1)) then (-1, first)
      else (0, ShiftIn(first, HexDigit(At(str, t + 1))))
  }

  method HexbyteStrtoASCII(str: string, before: Byte) returns (r: int, ascii: Byte)
    ensures (r, ascii) == HexByte(str, before)
  {
    ascii := before;
    var t := if At(str, 1) == 'x' then 2 else 0;
    ghost var start := t;
    var hexchar := 0;
    while hexchar < 2 && At(str, t) != '\0'
      invariant 0 <= hexchar <= 2 && t == start + hexchar
      invariant forall k | start <= k < t :: At(str, k) != '\0' && IsHex(At(str, k))
      invariant hexchar == 0 ==> ascii == before
      invariant hexchar == 1 ==> ascii == OrDigit(before, HexDigit(At(str, start)))
      invariant hexchar == 2 ==> ascii == ShiftIn(OrDigit(before, HexDigit(At(str, start))), HexDigit(At(str, start + 1)))
    {
      if !IsHex(At(str, t)) {
        return -1, ascii;
      }
      ascii := if hexchar == 0 then OrDigit(ascii, HexDigit(At(str, t))) else ShiftIn(ascii, HexDigit(At(str, t)));
      hexchar := hexchar + 1;
      t := t + 1;
    }
    r := if hexchar == 0 then -1 else 0;
  }

  // ------------------------------------------------------------- macAddressParse

  // How many characters the copying loop takes from a position: up to two, none of
  // them a colon.
  function ChunkLength(text: string, t: nat): (n: nat)
    ensures n <= 2
  {
    if At(text, t) == ':' then 0 else if At(text, t + 1) == ':' then 1 else 2
  }

  // tmp as a C string.
  function Chunk(text: string, t: nat): string {
    var n := ChunkLength(text, t);
    if n == 0 || At(text, t) == '\0' then ""
    else if n == 1 || At(text, t + 1) == '\0' then [At(text, t)]
    else [At(text, t), At(text, t + 1)]
  }

  // The rest of the parse from position t and byte number `byte` on: the return
  // code and the buffer, which keeps what was stored before a failure.
  function ParseFrom(text: string, t: nat, byte: nat, mac: seq<Byte>): (int, seq<Byte>)
    requires |mac| == 6 && byte <= 6
    decreases 6 - byte
  {
    if byte == 6 then (0, mac)
    else
      var (r, b) := HexByte(Chunk(text, t), mac[byte]);
      var mac' := mac[byte := b];
      var t' := t + ChunkLength(text, t);
      if r < 0 || (At(text, t') != ':' && byte < 5) then (-1, mac')
      else ParseFrom(text, t' + 1, byte + 1, mac')
  }

  function ParseMac(text: string, mac: seq<Byte>): (int, seq<Byte>)
    requires |mac| == 6
  {
    if |CString(text)| > SIX_BYTES_SIZE_MAC_ADDRESS then (-1, mac) else ParseFrom(text, 0, 0, mac)
  }

  method MacAddressParse(text: string, mac: array<Byte>) returns (r: int)
    requires mac.Length == 6
    modifies mac
    ensures (r, mac[..]) == ParseMac(text, old(mac[..]))
  {
    if |CString(text)| > SIX_BYTES_SIZE_MAC_ADDRESS {
      return -1;
    }
    var t, byte := 0, 0;
    ghost var before := mac[..];
    while byte < 6
      invariant 0 <= byte <= 6
      invariant ParseFrom(text, t, byte, mac[..]) == ParseMac(text, before)
    {
      var tmp, next := CopyChunk(text, t);
      var b;
      r, b := HexbyteStrtoASCII(tmp, mac[byte]);
      ghost var stored := mac[..][byte := b];
      mac[byte] := b;
      assert mac[..] == stored;
      t := next;
      if r < 0 {
        return -1;
      }
      byte := byte + 1;
      if At(text, t) != ':' && byte < 6 {
        return -1;
      }
      t := t + 1;
    }
    r := 0;
  }

  // The inner loop: at most two characters up to the next colon, as a C string.
  method CopyChunk(text: string, t0: nat) returns (tmp: string, t: nat)
    ensures tmp == Chunk(text, t0) && t == t0 + ChunkLength(text, t0)
  {
    t := t0;
    tmp := "";
    var count := 0;
    var ended := false;
    while At(text, t) != ':' && count < 2
      decreases 2 - count
      invariant 0 <= count <= ChunkLength(text, t0) && t == t0 + count
      invariant count == 0 ==> tmp == "" && !ended
      invariant count > 0 ==> (ended <==> At(text, t0) == '\0' || (count == 2 && At(text, t0 + 1) == '\0'))
      invariant count == 1 ==> tmp == if At(text, t0) == '\0' then "" else [At(text, t0)]
      invariant count == 2 ==> tmp == Chunk(text, t0)
    {
      ended := ended || At(text, t) == '\0';
      if !ended { tmp := tmp + [At(text, t)]; }
      count := count + 1;
      t := t + 1;
    }
  }

  // ------------------------------------------------------------------- round trip

  // sprintf "%02x:%02x:%02x:%02x:%02x:%02x"
  function MacText(mac: seq<Byte>): (s: string)
    requires mac != []
    ensures |s| == 3 * |mac| - 1
  {
    if |mac| == 1 then Hex2(mac[0]) else Hex2(mac[0]) + ":" + MacText(mac[1..])
  }

  // What parsing the text of byte b leaves in a buffer that held m.
  function Mixed(m: Byte, b: Byte): Byte { ShiftIn(OrDigit(m, b / 16), b % 16) }

  // The i-th byte of the text is two digits and, but for the last, a colon.
  predicate SpellsAt(text: string, b: Byte, t: nat, last: bool) {
    && At(text, t) == HexLower(b / 16) && At(text, t + 1) == HexLower(b % 16)
    && (!last ==> At(text, t + 2) == ':')
  }

  lemma {:induction false} MacTextSpells(mac: seq<Byte>, i: nat)
    requires i < |mac|
    ensures SpellsAt(MacText(mac), mac[i], 3 * i, i == |mac| - 1)
  {
    if i > 0 {
      MacTextSpells(mac[1..], i - 1);
      assert MacText(mac) == Hex2(mac[0]) + ":" + MacText(mac[1..]);
    }
  }

  lemma {:induction false} ByteParses(text: string, t: nat, b: Byte, m: Byte, last: bool)
    requires SpellsAt(text, b, t, last)
    ensures ChunkLength(text, t) == 2 && HexByte(Chunk(text, t), m) == (0, Mixed(m, b))
  {
    HexLowerValue(b / 16);
    HexLowerValue(b % 16);
  }

  // One turn of the parse over a byte of two characters and, but for the last, a colon.
  lemma {:induction false} ParseStep(text: string, t: nat, byte: nat, buf: seq<Byte>, b: Byte)
    requires |buf| == 6 && byte < 6 && ChunkLength(text, t) == 2 && HexByte(Chunk(text, t), buf[byte]) == (0, b)
    requires byte < 5 ==> At(text, t + 2) == ':'
    ensures ParseFrom(text, t, byte, buf) == ParseFrom(text, t + 3, byte + 1, buf[byte := b])
  {
  }

  // The buffer from a byte on overlaid by an address.
  function MixedFrom(buf: seq<Byte>, mac: seq<Byte>, byte: nat): (r: seq<Byte>)
    requires |buf| == |mac| == 6 && byte <= 6
    ensures |r| == 6
    ensures forall i | 0 <= i < 6 :: r[i] == if i < byte then buf[i] else Mixed(buf[i], mac[i])
    decreases 6 - byte
  {
    if byte == 6 then buf else MixedFrom(buf[byte := Mixed(buf[byte], mac[byte])], mac, byte + 1)
  }

  lemma {:induction false} MixedStep(buf: seq<Byte>, mac: seq<Byte>, byte: nat)
    requires |buf| == |mac| == 6 && byte < 6
    ensures MixedFrom(buf, mac, byte) == MixedFrom(buf[byte := Mixed(buf[byte], mac[byte])], mac, byte + 1)
  {
  }

  lemma {:induction false} ParseOne(text: string, t: nat, byte: nat, buf: seq<Byte>, b: Byte)
    requires |buf| == 6 && byte < 6 && SpellsAt(text, b, t, byte == 5)
    ensures ParseFrom(text, t, byte, buf) == ParseFrom(text, t + 3, byte + 1, buf[byte := Mixed(buf[byte], b)])
  {
    ByteParses(text, t, b, buf[byte], byte == 5);
    ParseStep(text, t, byte, buf, Mixed(buf[byte], b));
  }

  lemma {:induction false} ParseFromText(text: string, mac: seq<Byte>, byte: nat, buf: seq<Byte>)
    requires |mac| == 6 && |buf| == 6 && byte <= 6
    requires forall i | 0 <= i < 6 :: SpellsAt(text, mac[i], 3 * i, i == 5)
    ensures ParseFrom(text, 3 * byte, byte, buf) == (0, MixedFrom(buf, mac, byte))
    decreases 6 - byte
  {
    if byte < 6 {
      ParseOne(text, 3 * byte, byte, buf, mac[byte]);
      MixedStep(buf, mac, byte);
      ParseFromText(text, mac, byte + 1, buf[byte := Mixed(buf[byte], mac[byte])]);
    }
  }

  lemma {:induction false} ShiftExact(x: Byte, b: Byte)
    ensures ShiftIn(x, b % 16) == b <==> x % 16 == b / 16
  {
    assert x * 16 % 256 == x % 16 * 16;
  }

  lemma {:induction false} MixedExact(m: Byte, b: Byte)
    ensures Mixed(m, b) == b <==> OrNibble(m % 16, b / 16) == b / 16
  {
    ShiftExact(OrDigit(m, b / 16), b);
  }

  // The low four bits of each byte in the buffer are among the high four bits of the
  // byte that replaces it.
  predicate Compatible(buf: seq<Byte>, mac: seq<Byte>)
    requires |mac| == 6 && |buf| == 6
  {
    forall i | 0 <= i < 6 :: OrNibble(buf[i] % 16, mac[i] / 16) == mac[i] / 16
  }

  lemma {:induction false} ParseOfText(mac: seq<Byte>, buf: seq<Byte>)
    requires |mac| == 6 && |buf| == 6
    ensures ParseMac(MacText(mac), buf) == (0, MixedFrom(buf, mac, 0))
  {
    forall i | 0 <= i < 6 ensures SpellsAt(MacText(mac), mac[i], 3 * i, i == 5) {
      MacTextSpells(mac, i);
    }
    ParseFromText(MacText(mac), mac, 0, buf);
  }

  lemma {:induction false} MixedIff(buf: seq<Byte>, mac: seq<Byte>)
    requires |mac| == 6 && |buf| == 6
    ensures MixedFrom(buf, mac, 0) == mac <==> Compatible(buf, mac)
  {
    forall i | 0 <= i < 6
      ensures MixedFrom(buf, mac, 0)[i] == mac[i] <==> OrNibble(buf[i] % 16, mac[i] / 16) == mac[i] / 16
    {
      MixedExact(buf[i], mac[i]);
    }
  }

  // Printing six bytes and parsing the text always succeeds, and gives the same
  // bytes back if and only if the old contents of the buffer do not shine through.
  lemma {:induction false} RoundTripIff(mac: seq<Byte>, buf: seq<Byte>)
    requires |mac| == 6 && |buf| == 6
    ensures ParseMac(MacText(mac), buf).0 == 0
    ensures ParseMac(MacText(mac), buf).1 == mac <==> Compatible(buf, mac)
  {
    ParseOfText(mac, buf);
    MixedIff(buf, mac);
  }

  lemma {:induction false} OrNothing(d: nat, k: nat)
    requires d < Power2(k)
    ensures 0 < Power2(k) && Or(0, d, k) == d
    decreases k
  {
    if k > 0 { OrNothing(d / 2, k - 1); }
  }

  lemma {:induction false} OrNibbleNothing(m: nat, d: nat)
    requires m == 0 && d < 16
    ensures OrNibble(m, d) == d
  {
    assert Power2(4) == 16;
    OrNothing(d, 4);
  }

  lemma {:induction false} ZeroedIsCompatible(buf: seq<Byte>, mac: seq<Byte>)
    requires |mac| == 6 && |buf| == 6 && forall i | 0 <= i < 6 :: buf[i] == 0
    ensures Compatible(buf, mac)
  {
    forall i | 0 <= i < 6 ensures OrNibble(buf[i] % 16, mac[i] / 16) == mac[i] / 16 {
      OrNibbleNothing(buf[i] % 16, mac[i] / 16);
    }
  }

  // In particular into a buffer of zeros.
  lemma {:induction false} RoundTripZeroed(mac: seq<Byte>, buf: seq<Byte>)
    requires |mac| == 6 && |buf| == 6 && forall i | 0 <= i < 6 :: buf[i] == 0
    ensures ParseMac(MacText(mac), buf).0 == 0 && ParseMac(MacText(mac), buf).1 == mac
  {
    ZeroedIsCompatible(buf, mac);
    RoundTripIff(mac, buf);
  }

  // A buffer that still holds an address can spoil the next one.
  lemma {:induction false} StaleBufferExample(mac: seq<Byte>, buf: seq<Byte>)
    requires |mac| == 6 && |buf| == 6 && mac[0] == 0x10 && buf[0] == 0x02
    ensures ParseMac(MacText(mac), buf).1 != mac
  {
    RoundTripIff(mac, buf);
    assert OrNibble(buf[0] % 16, mac[0] / 16) == 3;
  }
}
