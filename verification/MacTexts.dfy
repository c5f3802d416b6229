// Exactly which texts macAddressParse accepts, and which bytes they become.
module MacTexts {
  import opened Text
  import opened Ipv6
  import opened Ipv6Texts
  import opened MacAddress

  // --------------------------------------------------------------------- one byte

  // One or two hexadecimal digits.
  predicate IsByteText(c: string) { 1 <= |c| <= 2 && forall i | 0 <= i < |c| :: IsHex(c[i]) }

  predicate AreByteTexts(cs: seq<string>) { forall i | 0 <= i < |cs| :: IsByteText(cs[i]) }

  // What such a text makes of the byte already in the buffer.
  function OneByte(m: Byte, c: string): Byte
    requires IsByteText(c)
  {
    var first := OrDigit(m, HexDigit(c[0]));
    if |c| == 1 then first else ShiftIn(first, HexDigit(c[1]))
  }

  // A chunk is accepted if and only if it is a byte text.
  lemma {:induction false} HexByteIff(c: string, m: Byte)
    requires |c| <= 2 && Without(c, '\0')
    ensures HexByte(c, m).0 >= 0 <==> IsByteText(c)
    ensures IsByteText(c) ==> HexByte(c, m) == (0, OneByte(m, c))
  {
  }

  // In a zeroed buffer it is the number the digits stand for.
  lemma {:induction false} OneByteZeroed(c: string)
    requires IsByteText(c)
    ensures OneByte(0, c) == HexValue(c)
  {
    OrNibbleNothing(0, HexDigit(c[0]));
    if |c| == 1 {
      assert c[..0] == [];
    } else {
      assert c[..1][..0] == [] && HexValue(c[..1]) == HexDigit(c[0]);
    }
  }

  // ----------------------------------------------------------------- whole addresses

  // The bytes of the buffer from one on replaced by those of the texts.
  function Overlaid(mac: seq<Byte>, cs: seq<string>, byte: nat): (r: seq<Byte>)
    requires |mac| == 6 && byte + |cs| == 6 && AreByteTexts(cs)
    ensures |r| == 6
    ensures forall i | 0 <= i < 6 :: r[i] == if i < byte then mac[i] else OneByte(mac[i], cs[i - byte])
    decreases |cs|
  {
    if cs == [] then mac else Overlaid(mac[byte := OneByte(mac[byte], cs[0])], cs[1..], byte + 1)
  }

  // After a one-digit text the next character is not taken for its second digit.
  predicate EndsAt(c: string, after: string) { |c| == 1 ==> after == "" || after[0] == ':' || after[0] == '\0' }

  lemma {:induction false} ChunkOf(text: string, t: nat, c: string, after: string)
    requires t <= |text| && text[t..] == c + after && IsByteText(c) && EndsAt(c, after)
    ensures Chunk(text, t) == c
    ensures after != "" && after[0] == ':' ==> ChunkLength(text, t) == |c| && At(text, t + |c|) == ':'
  {
    assert At(text, t) == c[0] == text[t..][0];
    if |c| == 2 { assert At(text, t + 1) == c[1] == text[t..][1]; }
    if after != "" { assert At(text, t + |c|) == after[0] == text[t..][|c|]; }
  }

  lemma {:induction false} JoinMore(cs: seq<string>, rest: string)
    requires |cs| > 1
    ensures Join(cs, ':') + rest == cs[0] + (":" + (Join(cs[1..], ':') + rest))
  {
  }

  lemma {:induction false} AfterChunk(text: string, t: nat, c: string, more: string)
    requires t <= |text| && text[t..] == c + (":" + more)
    ensures t + |c| + 1 <= |text| && text[t + |c| + 1..] == more
  {
    assert text[t..][|c| + 1..] == more;
  }

  lemma {:induction false} PiecesAccepted(text: string, t: nat, byte: nat, mac: seq<Byte>, cs: seq<string>, rest: string)
    requires |mac| == 6 && byte < 6 && |cs| == 6 - byte && AreByteTexts(cs)
    requires t <= |text| && text[t..] == Join(cs, ':') + rest && EndsAt(cs[|cs| - 1], rest)
    ensures ParseFrom(text, t, byte, mac) == (0, Overlaid(mac, cs, byte))
    decreases |cs|
  {
    var c := cs[0];
    var mac' := mac[byte := OneByte(mac[byte], c)];
    if |cs| == 1 {
      ChunkOf(text, t, c, rest);
      HexByteIff(c, mac[byte]);
      assert cs[1..] == [];
    } else {
      var more := Join(cs[1..], ':') + rest;
      JoinMore(cs, rest);
      ChunkOf(text, t, c, ":" + more);
      HexByteIff(c, mac[byte]);
      AfterChunk(text, t, c, more);
      PiecesAccepted(text, t + |c| + 1, byte + 1, mac', cs[1..], rest);
    }
  }

  // Six byte texts joined by colons are accepted, whatever comes after them.
  lemma {:induction false} SixAccepted(cs: seq<string>, rest: string, mac: seq<Byte>)
    requires |cs| == 6 && AreByteTexts(cs) && EndsAt(cs[5], rest) && |mac| == 6
    requires |CString(Join(cs, ':') + rest)| <= 17
    ensures ParseMac(Join(cs, ':') + rest, mac) == (0, Overlaid(mac, cs, 0))
  {
    var text := Join(cs, ':') + rest;
    assert text[0..] == text;
    PiecesAccepted(text, 0, 0, mac, cs, rest);
  }

  // The chunk at a position of a text without NUL.
  lemma {:induction false} ChunkShape(text: string, t: nat)
    requires t <= |text| && Without(text, '\0')
    ensures var c := Chunk(text, t);
            && |c| <= 2 && Without(c, '\0') && t + |c| <= |text| && text[t..t + |c|] == c
            && (c != "" && t + |c| < |text| && |c| == 1 ==> text[t + 1] == ':')
            && (c != "" && At(text, t + ChunkLength(text, t)) == ':' ==> ChunkLength(text, t) == |c|)
  {
  }

  // Whether a parse from a position on succeeds, which the buffer has no part in.
  predicate Succeeds(text: string, t: nat, byte: nat)
    requires byte < 6
    decreases 6 - byte
  {
    var t' := t + ChunkLength(text, t);
    && IsByteText(Chunk(text, t))
    && (byte < 5 ==> At(text, t') == ':' && Succeeds(text, t' + 1, byte + 1))
  }

  lemma {:induction false} SucceedsIff(text: string, t: nat, byte: nat, mac: seq<Byte>)
    requires |mac| == 6 && byte < 6 && Without(text, '\0')
    ensures ParseFrom(text, t, byte, mac).0 == 0 <==> Succeeds(text, t, byte)
    decreases 6 - byte
  {
    var c, t' := Chunk(text, t), t + ChunkLength(text, t);
    assert Without(c, '\0');
    HexByteIff(c, mac[byte]);
    if byte < 5 { SucceedsIff(text, t' + 1, byte + 1, mac[byte := HexByte(c, mac[byte]).1]); }
  }

  lemma {:induction false} LastPiece(text: string, t: nat)
    requires t <= |text| && Without(text, '\0') && Chunk(text, t) != ""
    ensures var k := t + |Chunk(text, t)|; k <= |text| && EndsAt(Chunk(text, t), text[k..])
  {
    ChunkShape(text, t);
    var c := Chunk(text, t);
    if t + |c| < |text| { assert text[t + |c|..][0] == text[t + |c|]; }
  }

  lemma {:induction false} ColonAfter(text: string, t: nat)
    requires t <= |text| && Without(text, '\0') && Chunk(text, t) != "" && At(text, t + ChunkLength(text, t)) == ':'
    ensures var k := t + |Chunk(text, t)|; k == t + ChunkLength(text, t) < |text| && text[k] == ':'
  {
    ChunkShape(text, t);
  }

  lemma {:induction false} CutAt(text: string, t: nat, c: string)
    requires t + |c| <= |text| && text[t..t + |c|] == c
    ensures text[t..] == c + text[t + |c|..]
    ensures t + |c| < |text| ==> text[t + |c|..] == [text[t + |c|]] + text[t + |c| + 1..]
  {
  }

  lemma {:induction false} OneMorePiece(text: string, t: nat, c: string, more: seq<string>, rest: string)
    requires t + |c| < |text| && text[t..t + |c|] == c && text[t + |c|] == ':' && more != []
    requires text[t + |c| + 1..] == Join(more, ':') + rest && IsByteText(c) && AreByteTexts(more)
    ensures text[t..] == Join([c] + more, ':') + rest && AreByteTexts([c] + more)
    ensures ([c] + more)[|more|] == more[|more| - 1]
  {
    CutAt(text, t, c);
    assert ([c] + more)[1..] == more;
    JoinMore([c] + more, rest);
  }

  // The pieces of an accepted text.
  lemma {:induction false} PiecesOf(text: string, t: nat, byte: nat) returns (cs: seq<string>, rest: string)
    requires byte < 6 && t <= |text| && Without(text, '\0') && Succeeds(text, t, byte)
    ensures |cs| == 6 - byte && AreByteTexts(cs) && text[t..] == Join(cs, ':') + rest && EndsAt(cs[|cs| - 1], rest)
    decreases 6 - byte
  {
    var c := Chunk(text, t);
    ChunkShape(text, t);
    if byte == 5 {
      LastPiece(text, t);
      CutAt(text, t, c);
      cs, rest := [c], text[t + |c|..];
    } else {
      ColonAfter(text, t);
      var more;
      more, rest := PiecesOf(text, t + |c| + 1, byte + 1);
      OneMorePiece(text, t, c, more, rest);
      cs := [c] + more;
    }
  }

  lemma {:induction false} PiecesFound(text: string)
    requires Without(text, '\0') && Succeeds(text, 0, 0)
    ensures StartsWithAddress(text)
  {
    var cs, rest := PiecesOf(text, 0, 0);
    assert text[0..] == text;
    assert IsAddress(cs, rest);
  }

  lemma {:induction false} PiecesSuffice(text: string, mac: seq<Byte>)
    requires |mac| == 6 && Without(text, '\0') && |text| <= 17 && StartsWithAddress(text)
    ensures ParseMac(text, mac).0 == 0
  {
    var cs, rest :| IsAddress(cs, rest) && text == Join(cs, ':') + rest;
    assert |CString(text)| <= |text|;
    SixAccepted(cs, rest, mac);
  }

  // Exactly the accepted texts: at most seventeen characters that start with six byte
  // texts joined by colons.
  lemma {:induction false} AcceptedIff(text: string, mac: seq<Byte>)
    requires |mac| == 6 && Without(text, '\0')
    ensures ParseMac(text, mac).0 == 0 <==> |text| <= 17 && StartsWithAddress(text)
  {
    assert CString(text) == text;
    SucceedsIff(text, 0, 0, mac);
    if Succeeds(text, 0, 0) { PiecesFound(text); }
    if |text| <= 17 && StartsWithAddress(text) { PiecesSuffice(text, mac); }
  }

  ghost predicate StartsWithAddress(text: string) {
    exists cs, rest :: IsAddress(cs, rest) && text == Join(cs, ':') + rest
  }

  predicate IsAddress(cs: seq<string>, rest: string) { |cs| == 6 && AreByteTexts(cs) && EndsAt(cs[5], rest) }

  function ByteValues(cs: seq<string>): (r: seq<nat>)
    requires AreByteTexts(cs)
    ensures |r| == |cs| && forall i | 0 <= i < |cs| :: r[i] == HexValue(cs[i])
  {
    if cs == [] then [] else ByteValues(cs[..|cs| - 1]) + [HexValue(cs[|cs| - 1])]
  }

  lemma {:induction false} OverlaidZeros(mac: seq<Byte>, cs: seq<string>)
    requires |mac| == 6 == |cs| && AreByteTexts(cs) && forall i | 0 <= i < 6 :: mac[i] == 0
    ensures Overlaid(mac, cs, 0) == ByteValues(cs)
  {
    var x, y := Overlaid(mac, cs, 0), ByteValues(cs);
    forall i | 0 <= i < 6 ensures x[i] == y[i] {
      assert x[i] == OneByte(mac[i], cs[i]);
      OneByteZeroed(cs[i]);
    }
  }

  // Into a zeroed buffer every byte is the number of its text, with one digit or two.
  lemma {:induction false} ZeroedBytes(cs: seq<string>, rest: string, mac: seq<Byte>)
    requires IsAddress(cs, rest) && |CString(Join(cs, ':') + rest)| <= 17
    requires |mac| == 6 && forall i | 0 <= i < 6 :: mac[i] == 0
    ensures var r := ParseMac(Join(cs, ':') + rest, mac); r.0 == 0 && r.1 == ByteValues(cs)
  {
    SixAccepted(cs, rest, mac);
    OverlaidZeros(mac, cs);
  }

  // What a chunk that is refused leaves in its byte: a first digit has already been
  // or-ed into it.
  function Spoiled(m: Byte, c: string): Byte {
    if c != "" && IsHex(c[0]) && !(|c| == 2 && c[1] == 'x') then OrDigit(m, HexDigit(c[0])) else m
  }

  // Where a parse fails it has stored the bytes before, and touches none after.
  lemma {:induction false} FailedTurn(text: string, t: nat, byte: nat, mac: seq<Byte>)
    requires |mac| == 6 && byte < 6 && t <= |text| && Without(text, '\0')
    ensures var c, t' := Chunk(text, t), t + ChunkLength(text, t);
            && (!IsByteText(c) ==> ParseFrom(text, t, byte, mac) == (-1, mac[byte := Spoiled(mac[byte], c)]))
            && (IsByteText(c) && byte < 5 && At(text, t') != ':' ==>
                  ParseFrom(text, t, byte, mac) == (-1, mac[byte := OneByte(mac[byte], c)]))
  {
    ChunkShape(text, t);
    HexByteIff(Chunk(text, t), mac[byte]);
    if !IsByteText(Chunk(text, t)) { SpoiledByte(Chunk(text, t), mac[byte]); }
  }

  lemma {:induction false} SpoiledByte(c: string, m: Byte)
    requires |c| <= 2 && Without(c, '\0') && !IsByteText(c)
    ensures HexByte(c, m) == (-1, Spoiled(m, c))
  {
  }

  // ------------------------------------------------------------------ upper case

  lemma {:induction false} LowerAt(text: string, t: nat)
    ensures At(Lower(text), t) == LowerChar(At(text, t))
    ensures At(Lower(text), t) == '\0' <==> At(text, t) == '\0'
  {
    if t < |text| { LowerDigit(text[t]); }
  }

  lemma {:induction false} ChunkLower(text: string, t: nat)
    ensures Chunk(Lower(text), t) == Lower(Chunk(text, t)) && ChunkLength(Lower(text), t) == ChunkLength(text, t)
  {
    LowerAt(text, t);
    LowerAt(text, t + 1);
    LowerDigit(At(text, t));
    LowerDigit(At(text, t + 1));
  }

  lemma {:induction false} HexByteLower(c: string, m: Byte)
    ensures HexByte(Lower(c), m) == HexByte(c, m)
  {
    var t := if At(c, 1) == 'x' then 2 else 0;
    LowerAt(c, 1);
    LowerAt(c, t);
    LowerAt(c, t + 1);
    LowerDigit(At(c, t));
    LowerDigit(At(c, t + 1));
  }

  lemma {:induction false} TurnLower(text: string, t: nat, m: Byte)
    ensures ChunkLength(Lower(text), t) == ChunkLength(text, t)
    ensures HexByte(Chunk(Lower(text), t), m) == HexByte(Chunk(text, t), m)
    ensures var t' := t + ChunkLength(text, t); At(Lower(text), t') == ':' <==> At(text, t') == ':'
  {
    var t' := t + ChunkLength(text, t);
    ChunkLower(text, t);
    HexByteLower(Chunk(text, t), m);
    LowerAt(text, t');
    LowerDigit(At(text, t'));
  }

  // Two texts that agree on the chunk at a position and on the colon after it.
  predicate TurnAlike(x: string, y: string, t: nat, m: Byte) {
    && ChunkLength(x, t) == ChunkLength(y, t)
    && HexByte(Chunk(x, t), m) == HexByte(Chunk(y, t), m)
    && (At(x, t + ChunkLength(y, t)) == ':' <==> At(y, t + ChunkLength(y, t)) == ':')
  }

  lemma {:induction false} ParseAlike(x: string, y: string, t: nat, byte: nat, mac: seq<Byte>)
    requires |mac| == 6 && byte <= 6 && forall k: nat, m: Byte :: TurnAlike(x, y, k, m)
    ensures ParseFrom(x, t, byte, mac) == ParseFrom(y, t, byte, mac)
    decreases 6 - byte
  {
    if byte < 6 {
      assert TurnAlike(x, y, t, mac[byte]);
      ParseAlike(x, y, t + ChunkLength(y, t) + 1, byte + 1, mac[byte := HexByte(Chunk(y, t), mac[byte]).1]);
    }
  }

  lemma {:induction false} CStringLower(text: string)
    ensures |CString(Lower(text))| == |CString(text)|
  {
    if text != [] {
      LowerAt(text, 0);
      assert Lower(text)[1..] == Lower(text[1..]);
      CStringLower(text[1..]);
    }
  }

  // Upper and lower case digits mean the same.
  lemma {:induction false} MacLower(text: string, mac: seq<Byte>)
    requires |mac| == 6
    ensures ParseMac(Lower(text), mac) == ParseMac(text, mac)
  {
    CStringLower(text);
    forall k: nat, m: Byte ensures TurnAlike(Lower(text), text, k, m) {
      TurnLower(text, k, m);
    }
    ParseAlike(Lower(text), text, 0, 0, mac);
  }

  // ------------------------------------------------------------------- bits

  predicate Bit(x: nat, k: nat) { if k == 0 then x % 2 == 1 else Bit(x / 2, k - 1) }

  // Bit by bit, the or is the or.
  lemma {:induction false} OrBits(a: nat, b: nat, n: nat, k: nat)
    requires a < Power2(n) && b < Power2(n) && k < n
    ensures Bit(Or(a, b, n), k) <==> Bit(a, k) || Bit(b, k)
    decreases n
  {
    var half := Or(a / 2, b / 2, n - 1);
    assert Or(a, b, n) / 2 == half && (Or(a, b, n) % 2 == 1 <==> a % 2 == 1 || b % 2 == 1);
    if k > 0 { OrBits(a / 2, b / 2, n - 1, k - 1); }
  }

  predicate SameBit(x: nat, y: nat, k: nat) { Bit(x, k) <==> Bit(y, k) }

  lemma {:induction false} BitsDecide(x: nat, y: nat, n: nat)
    requires x < Power2(n) && y < Power2(n) && forall k: nat | k < n :: SameBit(x, y, k)
    ensures x == y
    decreases n
  {
    if n > 0 {
      forall k: nat | k < n - 1 ensures SameBit(x / 2, y / 2, k) {
        assert SameBit(x, y, k + 1);
      }
      BitsDecide(x / 2, y / 2, n - 1);
      assert SameBit(x, y, 0);
    }
  }

  // Every bit of a is one of b.
  predicate Covered(a: nat, b: nat) { forall k: nat | k < 4 :: Bit(a, k) ==> Bit(b, k) }

  // A nibble shines through the one put over it unless it is covered.
  lemma {:induction false} CoveredIff(a: nat, b: nat)
    requires a < 16 && b < 16
    ensures OrNibble(a, b) == b <==> Covered(a, b)
  {
    assert Power2(4) == 16;
    forall k: nat | k < 4 ensures Bit(OrNibble(a, b), k) <==> Bit(a, k) || Bit(b, k) {
      OrBits(a, b, 4, k);
    }
    if Covered(a, b) {
      forall k: nat | k < 4 ensures SameBit(OrNibble(a, b), b, k) {
      }
      BitsDecide(OrNibble(a, b), b, 4);
    }
  }

  // The printed text of six bytes gives them back if and only if every bit of the low
  // four of each old byte is among the high four of the new one.
  lemma {:induction false} RoundTripBits(mac: seq<Byte>, buf: seq<Byte>)
    requires |mac| == 6 && |buf| == 6
    ensures ParseMac(MacText(mac), buf).1 == mac <==> forall i | 0 <= i < 6 :: Covered(buf[i] % 16, mac[i] / 16)
  {
    RoundTripIff(mac, buf);
    forall i | 0 <= i < 6
      ensures OrNibble(buf[i] % 16, mac[i] / 16) == mac[i] / 16 <==> Covered(buf[i] % 16, mac[i] / 16)
    {
      CoveredIff(buf[i] % 16, mac[i] / 16);
    }
  }
}
