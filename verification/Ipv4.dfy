// IPv4 addresses: the terminal's parser, the board's registration text and the
// server's converters all agree.
module Ipv4 {
  import opened Arithmetic
  import opened Options
  import opened Sequences
  import opened Text
  import opened Ipv6

  // ------------------------------------------------------- the server (util/util.py)

  // (ip >> (8 * i)) & 0xFF, rounding down for negative numbers as Python does.
  function ByteOf(ip: int, i: nat): (b: Byte)
    requires i < 4
  {
    (if i == 0 then ip else if i == 1 then ip / 0x100 else if i == 2 then ip / 0x1_0000 else ip / 0x100_0000) % 256
  }

  // The four bytes of an address in dotted decimal notation, highest first.
  function Dotted(ip: int): string { Join(ByteTexts(ip), '.') }

  method IntIpToIpStr(ip: int, ipv4: bool) returns (r: Option<string>)
    ensures r == if ipv4 then Some(Dotted(ip)) else None
  {
    if !ipv4 { return None; }
    var byteStrings: seq<string> := [];
    var i := 3;
    while i > -1
      invariant -1 <= i <= 3 && |byteStrings| == 3 - i
      invariant forall k | 0 <= k < 3 - i :: byteStrings[k] == Dec(ByteOf(ip, 3 - k))
    {
      byteStrings := byteStrings + [Dec(ByteOf(ip, i))];
      i := i - 1;
    }
    assert byteStrings == ByteTexts(ip);
    r := Some(Join(byteStrings, '.'));
  }

  // The number that bytes stand for, lowest byte first.
  function FromBytesLittle(bs: seq<Byte>): nat {
    if bs == [] then 0 else bs[0] + 256 * FromBytesLittle(bs[1..])
  }

  function Pow256(n: nat): nat { if n == 0 then 1 else 256 * Pow256(n - 1) }

  // int.from_bytes; None stands for the ValueError of an unknown byte order.
  function FromBytes(bs: seq<Byte>, byteOrder: string, signed: bool): Option<int> {
    if byteOrder != "little" && byteOrder != "big" then None
    else
      var lowFirst := if byteOrder == "little" then bs else Reversed(bs);
      var v := FromBytesLittle(lowFirst);
      Some(if signed && bs != [] && lowFirst[|bs| - 1] >= 128 then v - Pow256(|bs|) else v)
  }

  datatype TextResult = Returned(r: Option<string>) | ValueError

  method BytesIpToIpStr(bs: seq<Byte>, byteOrder: string, signed: bool, ipv4: bool) returns (r: TextResult)
    ensures var v := FromBytes(bs, byteOrder, signed);
            r == if v.None? then ValueError else Returned(if ipv4 then Some(Dotted(v.value)) else None)
  {
    var v := FromBytes(bs, byteOrder, signed);
    if v.None? { return ValueError; }
    var text := IntIpToIpStr(v.value, ipv4);
    r := Returned(text);
  }

  // For four bytes the text is the same signed or unsigned.
  lemma {:induction false} SignedAlike(bs: seq<Byte>, byteOrder: string)
    requires |bs| == 4 && (byteOrder == "little" || byteOrder == "big")
    ensures Dotted(FromBytes(bs, byteOrder, true).value) == Dotted(FromBytes(bs, byteOrder, false).value)
  {
    var v, w := FromBytes(bs, byteOrder, false).value, FromBytes(bs, byteOrder, true).value;
    assert Pow256(4) == 256 * Pow256(3) && Pow256(3) == 256 * Pow256(2) && Pow256(2) == 256 * Pow256(1);
    assert w == v || w == v - TWO32;
    ByteOfShifted(v, w, 0);
    ByteOfShifted(v, w, 1);
    ByteOfShifted(v, w, 2);
    ByteOfShifted(v, w, 3);
  }

  lemma {:induction false} ByteOfShifted(v: int, w: int, i: nat)
    requires i < 4 && (w == v || w == v - TWO32)
    ensures ByteOf(w, i) == ByteOf(v, i)
  {
    var d: nat, m: int := 1, 0x100_0000;
    if i == 1 { d, m := 0x100, 0x1_0000; }
    if i == 2 { d, m := 0x1_0000, 0x100; }
    if i == 3 { d, m := 0x100_0000, 1; }
    DivModShift(v, d, 256 * m);
    DivModShift(v / d, 256, m);
  }

  // int(s, base=16) of two characters: a sign or a space may take the place of the
  // first, a space that of the second; None stands for the ValueError.
  function PyHex2(s: string): Option<int>
    requires |s| == 2
  {
    if IsHex(s[0]) && IsHex(s[1]) then Some(HexDigit(s[0]) * 16 + HexDigit(s[1]))
    else if (IsPySpace(s[0]) || s[0] == '+') && IsHex(s[1]) then Some(HexDigit(s[1]))
    else if s[0] == '-' && IsHex(s[1]) then
      var magnitude: int := HexDigit(s[1]);
      Some(-magnitude)
    else if IsHex(s[0]) && IsPySpace(s[1]) then Some(HexDigit(s[0]))
    else None
  }

  // str(int(pair, base=16)) of each two characters, or None for a ValueError.
  function HexPairs(s: string): Option<seq<string>> {
    if |s| < 2 then Some([])
    else
      var rest := HexPairs(s[2..]);
      if PyHex2(s[..2]).None? || rest.None? then None
      else Some([Int(PyHex2(s[..2]).value)] + rest.value)
  }

  lemma {:induction false} HexPairsAt(s: string, i: nat)
    requires i + 2 <= |s|
    ensures var byte, rest := PyHex2(s[i..i + 2]), HexPairs(s[i + 2..]);
            HexPairs(s[i..]) == if byte.None? || rest.None? then None else Some([Int(byte.value)] + rest.value)
  {
    assert s[i..][..2] == s[i..i + 2] && s[i..][2..] == s[i + 2..];
  }

  // The pairs before a position and those from there on.
  function Prefixed(done: seq<string>, rest: Option<seq<string>>): Option<seq<string>> {
    if rest.None? then None else Some(done + rest.value)
  }

  lemma {:induction false} PrefixedNothing(pairs: Option<seq<string>>)
    ensures Prefixed([], pairs) == pairs
  {
    if pairs.Some? { assert [] + pairs.value == pairs.value; }
  }

  lemma {:induction false} PrefixedStep(s: string, i: nat, done: seq<string>)
    requires i + 2 <= |s|
    ensures var byte := PyHex2(s[i..i + 2]);
            Prefixed(done, HexPairs(s[i..]))
            == if byte.None? then None else Prefixed(done + [Int(byte.value)], HexPairs(s[i + 2..]))
  {
    HexPairsAt(s, i);
    var byte, rest := PyHex2(s[i..i + 2]), HexPairs(s[i + 2..]);
    if byte.Some? && rest.Some? {
      assert done + ([Int(byte.value)] + rest.value) == done + [Int(byte.value)] + rest.value;
    }
  }

  lemma {:induction false} PrefixedAll(s: string, i: nat, done: seq<string>)
    requires i == |s|
    ensures Prefixed(done, HexPairs(s[i..])) == Some(done)
  {
    assert s[i..] == [] && done + [] == done;
  }

  method HexIpToIpStr(hexStr: string, ipv4: bool) returns (r: TextResult)
    ensures r == if !ipv4 || |hexStr| != 8 then Returned(None)
                 else if HexPairs(hexStr).None? then ValueError
                 else Returned(Some(Join(HexPairs(hexStr).value, '.')))
  {
    if !ipv4 || |hexStr| != 8 { return Returned(None); }
    var byteStrings := ReadPairs(hexStr);
    r := if byteStrings.None? then ValueError else Returned(Some(Join(byteStrings.value, '.')));
  }

  // The loop over the pairs; None stands for the ValueError.
  method ReadPairs(hexStr: string) returns (r: Option<seq<string>>)
    requires |hexStr| % 2 == 0
    ensures r == HexPairs(hexStr)
  {
    var byteStrings: seq<string> := [];
    var i := 0;
    assert hexStr[0..] == hexStr;
    PrefixedNothing(HexPairs(hexStr));
    while i < |hexStr|
      invariant 0 <= i <= |hexStr| && i == 2 * |byteStrings|
      invariant HexPairs(hexStr) == Prefixed(byteStrings, HexPairs(hexStr[i..]))
    {
      assert i + 2 <= |hexStr|;
      PrefixedStep(hexStr, i, byteStrings);
      var byte := PyHex2(hexStr[i..i + 2]);
      if byte.None? { return None; }
      byteStrings := byteStrings + [Int(byte.value)];
      i := i + 2;
    }
    PrefixedAll(hexStr, i, byteStrings);
    r := Some(byteStrings);
  }

  // ------------------------------------------------- the registration text of a board

  // sprintf("cc3220sf ipv4:%u", ...)
  function RegistrationText(ip: U32): string { "cc3220sf ipv4:" + Dec(ip) }

  // sub in s
  predicate Contains(s: string, sub: string) {
    |s| >= |sub| && (s[..|sub|] == sub || (s != [] && Contains(s[1..], sub)))
  }

  // 'cc3220sf ipv4' in buf, and then int(buf.strip().split(sep=':')[1]); None stands
  // for a message that is ignored or makes the server raise.
  function RegisteredAddress(buf: string): Option<int> {
    var parts := Split(Strip(buf), ':');
    if !Contains(buf, "cc3220sf ipv4") || |parts| < 2 then None else PyInt(parts[1])
  }

  // The text fits the board's 25-byte buffer with its terminator, and the server
  // reads the address back.
  lemma {:induction false} RegistrationRoundTrip(ip: U32)
    ensures |RegistrationText(ip)| <= 24
    ensures RegisteredAddress(RegistrationText(ip)) == Some(ip)
  {
    DecLength32(ip);
    var greeting, d := "cc3220sf ipv4", Dec(ip);
    assert RegistrationText(ip) == greeting + [':'] + d;
    SplitGreeting(greeting, d);
    PyIntOfDec(ip);
  }

  lemma {:induction false} SplitGreeting(greeting: string, d: string)
    requires greeting != [] && !IsPySpace(greeting[0]) && Without(greeting, ':') && d != [] && AllDigits(d)
    ensures var s := greeting + [':'] + d;
            Split(Strip(s), ':') == [greeting, d] && Contains(s, greeting)
  {
    var s := greeting + [':'] + d;
    assert s[0] == greeting[0] && s[|s| - 1] == d[|d| - 1] && s[..|greeting|] == greeting;
    StripNothing(s);
    SplitStep(greeting, ':', d);
    SplitNone(d, ':');
    assert [greeting] + [d] == [greeting, d];
  }

  // ------------------------------------------------------ the terminal's parser (C)

  // The tokens strtok(str, ".") yields: the non-empty pieces.
  function Tokens(pieces: seq<string>): seq<string> {
    if pieces == [] then [] else (if pieces[0] == "" then [] else [pieces[0]]) + Tokens(pieces[1..])
  }

  // The leading digits.
  function DigitPrefix(s: string): (d: string)
    ensures AllDigits(d)
    ensures AllDigits(s) ==> d == s
  {
    if s == [] || !IsDigit(s[0]) then [] else [s[0]] + DigitPrefix(s[1..])
  }

  function SkipSpaces(s: string): string { if s != [] && IsSpace(s[0]) then SkipSpaces(s[1..]) else s }

  // strtoul(s, 0, 10) with a 32-bit unsigned long.
  function Strtoul(s: string): U32 {
    var t := SkipSpaces(s);
    var signed := t != [] && (t[0] == '-' || t[0] == '+');
    var v := DecValue(DigitPrefix(if signed then t[1..] else t));
    if v >= TWO32 then TWO32 - 1
    else if signed && t[0] == '-' && v > 0 then TWO32 - v
    else v
  }

  function Numbers(tokens: seq<string>): (ns: seq<U32>)
    ensures |ns| == |tokens|
    ensures forall i | 0 <= i < |tokens| :: ns[i] == Strtoul(tokens[i])
  {
    if tokens == [] then [] else [Strtoul(tokens[0])] + Numbers(tokens[1..])
  }

  // The address of the first four numbers, if they are all below 256.
  function Combine(ns: seq<U32>): Option<U32> {
    if |ns| >= 4 && ns[0] < 256 && ns[1] < 256 && ns[2] < 256 && ns[3] < 256
    then Some(((ns[0] * 256 + ns[1]) * 256 + ns[2]) * 256 + ns[3])
    else None
  }

  function ParseIpv4(str: string): Option<U32> { Combine(Numbers(Tokens(Split(CString(str), '.')))) }

  method Ipv4AddressParse(str: string) returns (r: int, ipv4ip: Option<U32>)
    ensures ipv4ip == ParseIpv4(str)
    ensures r == if ipv4ip.Some? then 0 else -1
  {
    r, ipv4ip := MergeNumbers(Numbers(Tokens(Split(CString(str), '.'))));
  }

  // The first k numbers as the bytes of one number, highest first.
  function Merged(ns: seq<U32>, k: nat): nat
    requires k <= |ns|
  {
    if k == 0 then 0 else Merged(ns, k - 1) * 256 + ns[k - 1]
  }

  lemma {:induction false} MergedBound(ns: seq<U32>, k: nat)
    requires k <= |ns| && forall i | 0 <= i < k :: ns[i] < 256
    ensures Merged(ns, k) < Pow256(k)
  {
    if k > 0 { MergedBound(ns, k - 1); }
  }

  // Shifting out the bytes of up to three numbers loses nothing.
  lemma {:induction false} ShiftFits(ns: seq<U32>, k: nat)
    requires k <= |ns| && k <= 3 && forall i | 0 <= i < k :: ns[i] < 256
    ensures Merged(ns, k) * 256 % TWO32 == Merged(ns, k) * 256
  {
    MergedBound(ns, k);
    assert Pow256(0) == 1 && Pow256(1) == 0x100 && Pow256(2) == 0x1_0000 && Pow256(3) == 0x100_0000;
  }

  lemma {:induction false} MergedFour(ns: seq<U32>)
    requires |ns| >= 4 && forall i | 0 <= i < 4 :: ns[i] < 256
    ensures Merged(ns, 4) == ((ns[0] * 256 + ns[1]) * 256 + ns[2]) * 256 + ns[3]
  {
    assert Merged(ns, 0) == 0 && Merged(ns, 1) == ns[0] && Merged(ns, 2) == ns[0] * 256 + ns[1];
    assert Merged(ns, 3) == Merged(ns, 2) * 256 + ns[2];
  }

  // The loop of the C function over the numbers of the tokens that strtok yields.
  // ipv4Address is shifted before the next byte is merged in, so its low byte is
  // zero and merging is addition.
  method MergeNumbers(ns: seq<U32>) returns (r: int, ipv4ip: Option<U32>)
    ensures ipv4ip == Combine(ns)
    ensures r == if ipv4ip.Some? then 0 else -1
  {
    if |ns| == 0 {
      return -1, None;
    }
    var n := ns[0];
    var token := 0;
    var ipv4Address := 0;
    var i := 0;
    while i < 4
      invariant 0 <= i == token <= 4 && i <= |ns|
      invariant i < |ns| ==> n == ns[i]
      invariant forall k | 0 <= k < i :: ns[k] < 256
      invariant ipv4Address == if i < 4 then Merged(ns, i) * 256 else Merged(ns, 4)
    {
      if token < |ns| && n < 256 {
        ipv4Address := ipv4Address + n;
        if i < 3 {
          ShiftFits(ns, i + 1);
          ipv4Address := ipv4Address * 256 % TWO32;
        }
        token := token + 1;
        if token < |ns| {
          n := ns[token];
        }
        i := i + 1;
      } else {
        return -1, None;
      }
    }
    MergedFour(ns);
    return 0, Some(ipv4Address);
  }

  // -------------------------------------------------------------------- agreement

  lemma {:induction false} StrtoulOfDec(n: nat)
    requires n < 256
    ensures Strtoul(Dec(n)) == n
  {
    assert IsDigit(Dec(n)[0]);
    assert SkipSpaces(Dec(n)) == Dec(n);
    DecRoundTrip(n);
  }

  lemma {:induction false} TokensNonEmpty(pieces: seq<string>)
    requires forall i | 0 <= i < |pieces| :: pieces[i] != ""
    ensures Tokens(pieces) == pieces
  {
    if pieces != [] { TokensNonEmpty(pieces[1..]); }
  }

  lemma BytesRecombine(ip: U32)
    ensures ((ByteOf(ip, 3) * 256 + ByteOf(ip, 2)) * 256 + ByteOf(ip, 1)) * 256 + ByteOf(ip, 0) == ip
  {
    assert ip / 0x1_0000 == ip / 0x100 / 256 && ip / 0x100_0000 == ip / 0x1_0000 / 256;
  }

  // The four byte texts of an address, highest first.
  function ByteTexts(ip: int): (r: seq<string>)
    ensures |r| == 4 && forall i | 0 <= i < 4 :: r[i] == Dec(ByteOf(ip, 3 - i))
  {
    [Dec(ByteOf(ip, 3)), Dec(ByteOf(ip, 2)), Dec(ByteOf(ip, 1)), Dec(ByteOf(ip, 0))]
  }

  lemma {:induction false} ByteTextsTokenize(ip: int)
    ensures Tokens(Split(CString(Join(ByteTexts(ip), '.')), '.')) == ByteTexts(ip)
  {
    var parts := ByteTexts(ip);
    assert forall i | 0 <= i < 4 :: Without(parts[i], '.') && Without(parts[i], '\0') && parts[i] != "";
    JoinHasNoNul(parts);
    SplitJoin(parts, '.');
    TokensNonEmpty(parts);
  }

  lemma {:induction false} NumbersOfByteTexts(ip: int)
    ensures Numbers(ByteTexts(ip)) == [ByteOf(ip, 3), ByteOf(ip, 2), ByteOf(ip, 1), ByteOf(ip, 0)]
  {
    forall i | 0 <= i < 4 ensures Numbers(ByteTexts(ip))[i] == ByteOf(ip, 3 - i) {
      StrtoulOfDec(ByteOf(ip, 3 - i));
    }
  }

  // The dotted text of every 32-bit address parses back to the address.
  lemma {:induction false} DottedRoundTrip(ip: U32)
    ensures ParseIpv4(Dotted(ip)) == Some(ip)
  {
    ByteTextsTokenize(ip);
    NumbersOfByteTexts(ip);
    CombineBytes(ip);
  }

  lemma {:induction false} CombineBytes(ip: U32)
    ensures Combine([ByteOf(ip, 3), ByteOf(ip, 2), ByteOf(ip, 1), ByteOf(ip, 0)]) == Some(ip)
  {
    BytesRecombine(ip);
  }

  lemma {:induction false} JoinHasNoNul(parts: seq<string>)
    requires forall i | 0 <= i < |parts| :: Without(parts[i], '\0')
    ensures Without(Join(parts, '.'), '\0')
    ensures CString(Join(parts, '.')) == Join(parts, '.')
  {
    if |parts| > 1 { JoinHasNoNul(parts[1..]); }
  }

  // The four little-endian bytes of an address.
  function LittleEndian(ip: U32): seq<Byte> { [ByteOf(ip, 0), ByteOf(ip, 1), ByteOf(ip, 2), ByteOf(ip, 3)] }

  // sprintf "%02x" of each byte.
  function HexText(bs: seq<Byte>): (s: string)
    ensures |s| == 2 * |bs|
  {
    if bs == [] then [] else Hex2(bs[0]) + HexText(bs[1..])
  }

  function BigEndian(ip: U32): seq<Byte> { [ByteOf(ip, 3), ByteOf(ip, 2), ByteOf(ip, 1), ByteOf(ip, 0)] }

  // sprintf "%08x"
  function Hex8(ip: U32): string { HexText(BigEndian(ip)) }

  function DecAll(bs: seq<Byte>): (r: seq<string>)
    ensures |r| == |bs| && forall i | 0 <= i < |bs| :: r[i] == Dec(bs[i])
  {
    if bs == [] then [] else [Dec(bs[0])] + DecAll(bs[1..])
  }

  lemma {:induction false} HexPairsStep(b: Byte, rest: string)
    requires HexPairs(rest).Some?
    ensures HexPairs(Hex2(b) + rest) == Some([Dec(b)] + HexPairs(rest).value)
  {
    var s := Hex2(b) + rest;
    HexLowerValue(b / 16);
    HexLowerValue(b % 16);
    assert s[..2] == Hex2(b) && s[2..] == rest;
    assert PyHex2(Hex2(b)) == Some(b);
  }

  lemma {:induction false} HexPairsOfText(bs: seq<Byte>)
    ensures HexPairs(HexText(bs)) == Some(DecAll(bs))
  {
    if bs != [] {
      HexPairsOfText(bs[1..]);
      HexPairsStep(bs[0], HexText(bs[1..]));
      TextsStep(bs);
    }
  }

  lemma {:induction false} TextsStep(bs: seq<Byte>)
    requires bs != []
    ensures HexText(bs) == Hex2(bs[0]) + HexText(bs[1..]) && DecAll(bs) == [Dec(bs[0])] + DecAll(bs[1..])
  {
  }

  lemma {:induction false} HexPairsOfHex8(ip: U32)
    ensures HexPairs(Hex8(ip)) == Some(ByteTexts(ip))
  {
    HexPairsOfText(BigEndian(ip));
    assert DecAll(BigEndian(ip)) == ByteTexts(ip);
  }

  lemma {:induction false} FromLittleEndian(ip: U32)
    ensures FromBytesLittle(LittleEndian(ip)) == ip
  {
    var bs := LittleEndian(ip);
    assert bs[1..][1..] == bs[2..] && bs[2..][1..] == bs[3..] && bs[3..][1..] == [];
    assert FromBytesLittle(bs[3..]) == bs[3];
    assert FromBytesLittle(bs[2..]) == bs[2] + 256 * FromBytesLittle(bs[3..]);
    assert FromBytesLittle(bs[1..]) == bs[1] + 256 * FromBytesLittle(bs[2..]);
    BytesRecombine(ip);
  }

  // For every 32-bit address: the number a board registers, its eight hexadecimal
  // digits and its little-endian bytes all become the same text at the server, and
  // the terminal's parser turns that text back into the address.
  method Agreement(ip: U32)
    returns (registered: Option<string>, fromHex: TextResult, fromBytes: TextResult, parsed: Option<U32>)
    ensures registered == Some(Dotted(ip)) && fromHex == fromBytes == Returned(registered) && parsed == Some(ip)
  {
    RegistrationRoundTrip(ip);
    registered := IntIpToIpStr(RegisteredAddress(RegistrationText(ip)).value, true);
    FromLittleEndian(ip);
    fromBytes := BytesIpToIpStr(LittleEndian(ip), "little", false, true);
    HexPairsOfHex8(ip);
    fromHex := HexIpToIpStr(Hex8(ip), true);
    DottedRoundTrip(ip);
    var r;
    r, parsed := Ipv4AddressParse(registered.value);
  }
}
