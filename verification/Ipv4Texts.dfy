// Which texts the terminal takes for IPv4 addresses, and what the server makes of
// numbers, bytes and digits that are not a plain address.
module Ipv4Texts {
  import opened Arithmetic
  import opened Options
  import opened Sequences
  import opened Text
  import opened LibraryTexts
  import opened Ipv6
  import opened Ipv6Texts
  import opened Ipv4

  // ------------------------------------------------------ numbers joined by dots

  function Decs(ns: seq<nat>): (r: seq<string>)
    ensures |r| == |ns| && forall i | 0 <= i < |ns| :: r[i] == Dec(ns[i])
  {
    if ns == [] then [] else [Dec(ns[0])] + Decs(ns[1..])
  }

  lemma {:induction false} StrtoulOfNumber(n: nat)
    ensures Strtoul(Dec(n)) == if n < TWO32 then n else TWO32 - 1
  {
    assert IsDigit(Dec(n)[0]);
    assert SkipSpaces(Dec(n)) == Dec(n);
    DecRoundTrip(n);
  }

  lemma {:induction false} DecsTokenize(ns: seq<nat>)
    ensures Tokens(Split(CString(Join(Decs(ns), '.')), '.')) == Decs(ns)
  {
    var parts := Decs(ns);
    forall i | 0 <= i < |parts| ensures Without(parts[i], '.') && Without(parts[i], '\0') && parts[i] != "" {
      assert AllDigits(Dec(ns[i])) && Dec(ns[i]) != "";
    }
    JoinHasNoNul(parts);
    if parts == [] {
      SplitNone("", '.');
      assert Tokens([""]) == [] by { assert [""][1..] == []; }
    } else {
      SplitJoin(parts, '.');
      TokensNonEmpty(parts);
    }
  }

  // The bytes of four numbers put together.
  lemma {:induction false} BytesOfFour(w: int, x: int, y: int, z: int)
    requires 0 <= w < 256 && 0 <= x < 256 && 0 <= y < 256 && 0 <= z < 256
    ensures var ip := w * 0x100_0000 + x * 0x1_0000 + y * 0x100 + z;
            ByteOf(ip, 3) == w && ByteOf(ip, 2) == x && ByteOf(ip, 1) == y && ByteOf(ip, 0) == z
  {
    var ip := w * 0x100_0000 + x * 0x1_0000 + y * 0x100 + z;
    DivModUnique(ip, 0x100_0000, w, x * 0x1_0000 + y * 0x100 + z);
    DivModUnique(ip, 0x1_0000, w * 0x100 + x, y * 0x100 + z);
    DivModUnique(ip, 0x100, w * 0x1_0000 + x * 0x100 + y, z);
    DivModUnique(w * 0x100 + x, 0x100, w, x);
    DivModUnique(w * 0x1_0000 + x * 0x100 + y, 0x100, w * 0x100 + x, y);
  }

  // Numbers joined by dots are taken for an address if and only if there are at least
  // four and the first four are below 256; these are then its bytes, highest first.
  lemma {:induction false} NumbersAccepted(ns: seq<nat>)
    ensures var parsed := ParseIpv4(Join(Decs(ns), '.'));
            && (parsed.Some? <==> |ns| >= 4 && ns[0] < 256 && ns[1] < 256 && ns[2] < 256 && ns[3] < 256)
            && (parsed.Some? ==> forall i | 0 <= i < 4 :: ByteOf(parsed.value, 3 - i) == ns[i])
  {
    DecsTokenize(ns);
    var tokens := Numbers(Decs(ns));
    forall i | 0 <= i < |ns| ensures tokens[i] == if ns[i] < TWO32 then ns[i] else TWO32 - 1 {
      StrtoulOfNumber(ns[i]);
    }
    if |ns| >= 4 && ns[0] < 256 && ns[1] < 256 && ns[2] < 256 && ns[3] < 256 {
      CombinedBytes(tokens);
    }
  }

  lemma {:induction false} CombinedBytes(ns: seq<U32>)
    requires |ns| >= 4 && ns[0] < 256 && ns[1] < 256 && ns[2] < 256 && ns[3] < 256
    ensures Combine(ns).Some?
    ensures forall i | 0 <= i < 4 :: ByteOf(Combine(ns).value, 3 - i) == ns[i]
  {
    BytesOfFour(ns[0], ns[1], ns[2], ns[3]);
  }

  // ------------------------------------------------------------ other texts

  lemma {:induction false} SplitAppend(a: string, sep: char, b: string)
    ensures Split(a + [sep] + b, sep) == Split(a, sep) + Split(b, sep)
    decreases |a|
  {
    var k := IndexOf(a, sep);
    if k == |a| {
      SplitStep(a, sep, b);
    } else {
      var head, rest := a[..k], a[k + 1..];
      assert a == head + [sep] + rest;
      SplitAppend(rest, sep, b);
      SplitStep(head, sep, rest);
      Regroup(head, sep, rest, b);
      SplitStep(head, sep, rest + [sep] + b);
      Grouped([head], Split(rest, sep), Split(b, sep));
    }
  }

  lemma Regroup(head: string, sep: char, rest: string, b: string)
    ensures head + [sep] + rest + [sep] + b == head + [sep] + (rest + [sep] + b)
  {
  }

  lemma {:induction false} TokensAppend(x: seq<string>, y: seq<string>)
    ensures Tokens(x + y) == Tokens(x) + Tokens(y)
  {
    if x == [] {
      assert x + y == y;
    } else {
      assert (x + y)[1..] == x[1..] + y;
      TokensAppend(x[1..], y);
    }
  }

  lemma {:induction false} TokensAround(a: string, b: string)
    ensures Tokens(Split(a + ['.'] + b, '.')) == Tokens(Split(a, '.')) + Tokens(Split(b, '.'))
  {
    SplitAppend(a, '.', b);
    TokensAppend(Split(a, '.'), Split(b, '.'));
  }

  lemma {:induction false} NoTokens()
    ensures Tokens(Split("", '.')) == []
  {
    SplitNone("", '.');
    assert [""][1..] == [];
  }

  lemma {:induction false} SameTokens(x: string, y: string)
    requires Without(x, '\0') && Without(y, '\0') && Tokens(Split(x, '.')) == Tokens(Split(y, '.'))
    ensures ParseIpv4(x) == ParseIpv4(y)
  {
    CStringExact(x, "");
    CStringExact(y, "");
  }

  lemma {:induction false} LeadingDot(a: string)
    ensures Tokens(Split(['.'] + a, '.')) == Tokens(Split(a, '.'))
  {
    NoTokens();
    TokensAround("", a);
    assert "" + ['.'] + a == ['.'] + a;
  }

  lemma NoNulIn(a: string, b: string)
    requires Without(a, '\0') && Without(b, '\0')
    ensures Without(['.'] + a, '\0') && Without(a + ['.'], '\0') && Without(a + ['.'] + b, '\0')
  {
  }

  // A dot more between two tokens changes nothing.
  lemma {:induction false} DoubleDot(a: string, b: string)
    requires Without(a, '\0') && Without(b, '\0')
    ensures ParseIpv4(a + ['.'] + (['.'] + b)) == ParseIpv4(a + ['.'] + b)
  {
    var dotted := ['.'] + b;
    NoNulIn(b, b);
    NoNulIn(a, b);
    NoNulIn(a, dotted);
    LeadingDot(b);
    TokensAround(a, dotted);
    TokensAround(a, b);
    SameTokens(a + ['.'] + dotted, a + ['.'] + b);
  }

  // Nor does one before the first token or after the last.
  lemma {:induction false} OuterDots(a: string)
    requires Without(a, '\0')
    ensures ParseIpv4(['.'] + a) == ParseIpv4(a) == ParseIpv4(a + ['.'])
  {
    NoNulIn(a, a);
    LeadingDot(a);
    NoTokens();
    TokensAround(a, "");
    assert a + ['.'] + "" == a + ['.'];
    SameTokens(['.'] + a, a);
    SameTokens(a + ['.'], a);
  }

  predicate AllBlank(s: string) { forall i | 0 <= i < |s| :: IsSpace(s[i]) }

  lemma {:induction false} SkipAllSpaces(spaces: string, t: string)
    requires AllBlank(spaces) && (t == [] || !IsSpace(t[0]))
    ensures SkipSpaces(spaces + t) == t
  {
    if spaces == [] {
      assert spaces + t == t;
    } else {
      assert (spaces + t)[1..] == spaces[1..] + t;
      SkipAllSpaces(spaces[1..], t);
    }
  }

  lemma {:induction false} DigitPrefixOf(d: string, junk: string)
    requires AllDigits(d) && (junk == [] || !IsDigit(junk[0]))
    ensures DigitPrefix(d + junk) == d
  {
    if d == [] {
      assert d + junk == junk;
    } else {
      assert (d + junk)[1..] == d[1..] + junk;
      DigitPrefixOf(d[1..], junk);
    }
  }

  lemma {:induction false} LeadingSpaces(spaces: string, t: string)
    requires AllBlank(spaces) && t != [] && !IsSpace(t[0])
    ensures Strtoul(spaces + t) == Strtoul(t)
  {
    SkipAllSpaces(spaces, t);
    SkipAllSpaces("", t);
    assert "" + t == t;
  }

  lemma {:induction false} UnsignedToken(d: string, junk: string)
    requires d != [] && AllDigits(d) && (junk == [] || !IsDigit(junk[0]))
    ensures Strtoul(d + junk) == if DecValue(d) >= TWO32 then TWO32 - 1 else DecValue(d)
  {
    var t := d + junk;
    assert t[0] == d[0] && IsDigit(t[0]);
    assert SkipSpaces(t) == t;
    DigitPrefixOf(d, junk);
  }

  lemma {:induction false} SignedToken(sign: char, d: string, junk: string)
    requires (sign == '+' || sign == '-') && AllDigits(d) && (junk == [] || !IsDigit(junk[0]))
    ensures Strtoul([sign] + (d + junk))
            == if DecValue(d) >= TWO32 then TWO32 - 1 else if sign == '-' then (TWO32 - DecValue(d)) % TWO32 else DecValue(d)
  {
    var t := [sign] + (d + junk);
    assert t[0] == sign && t[1..] == d + junk;
    assert SkipSpaces(t) == t;
    DigitPrefixOf(d, junk);
  }

  // A token may start with spaces and a sign and end with anything but a digit: a
  // number that is too large is cut to the largest one, and a negative one is taken
  // modulo 2 to the 32.
  lemma {:induction false} TokenNumber(spaces: string, sign: char, n: nat, junk: string)
    requires AllBlank(spaces) && (sign == '+' || sign == '-') && (junk == [] || !IsDigit(junk[0]))
    ensures Strtoul(spaces + (Dec(n) + junk)) == if n >= TWO32 then TWO32 - 1 else n
    ensures Strtoul(spaces + ([sign] + (Dec(n) + junk)))
            == if n >= TWO32 then TWO32 - 1 else if sign == '-' then (TWO32 - n) % TWO32 else n
  {
    var d := Dec(n);
    DecRoundTrip(n);
    assert (d + junk)[0] == d[0] && IsDigit(d[0]);
    UnsignedToken(d, junk);
    LeadingSpaces(spaces, d + junk);
    SignedToken(sign, d, junk);
    LeadingSpaces(spaces, [sign] + (d + junk));
  }

  // A token without a number counts as 0.
  lemma {:induction false} TokenNoNumber(spaces: string, sign: string, junk: string)
    requires AllBlank(spaces) && (sign == "+" || sign == "-") && (junk == [] || !IsDigit(junk[0]))
    ensures Strtoul(spaces + (sign + junk)) == 0
  {
    SkipAllSpaces(spaces, sign + junk);
    assert (sign + junk)[1..] == junk;
    DigitPrefixOf("", junk);
    assert "" + junk == junk;
  }

  // ------------------------------------------------------------------ any integer

  lemma {:induction false} ByteOfMultiple(v: int, k: int, i: nat)
    requires i < 4
    ensures ByteOf(v - k * TWO32, i) == ByteOf(v, i)
  {
    var d: nat, m: int := 1, 0x100_0000;
    if i == 1 { d, m := 0x100, 0x1_0000; }
    if i == 2 { d, m := 0x1_0000, 0x100; }
    if i == 3 { d, m := 0x100_0000, 1; }
    DivModShift(v, d, k * (256 * m));
    DivModShift(v / d, 256, k * m);
    assert k * (256 * m) * d == k * TWO32 && k * m * 256 == k * (256 * m);
  }

  // The dotted text of any integer is that of its remainder modulo 2 to the 32, and
  // parses to it.
  lemma {:induction false} AnyIntegerText(v: int)
    ensures Dotted(v) == Dotted(v % TWO32) && ParseIpv4(Dotted(v)) == Some(v % TWO32)
  {
    var k := v / TWO32;
    assert v % TWO32 == v - k * TWO32;
    ByteOfMultiple(v, k, 0);
    ByteOfMultiple(v, k, 1);
    ByteOfMultiple(v, k, 2);
    ByteOfMultiple(v, k, 3);
    DottedRoundTrip(v % TWO32);
  }

  // ------------------------------------------------------------------ bytes and digits

  lemma {:induction false} ReversedFour(ip: U32)
    ensures Reversed(BigEndian(ip)) == LittleEndian(ip)
  {
  }

  // The four bytes of an address, in either order, signed or not.
  lemma {:induction false} FourBytes(ip: U32, signed: bool)
    ensures FromBytes(LittleEndian(ip), "little", signed) == FromBytes(BigEndian(ip), "big", signed)
            == Some(if signed && ip >= 0x8000_0000 then ip - 0x1_0000_0000 else ip)
  {
    FromLittleEndian(ip);
    ReversedFour(ip);
    BytesRecombine(ip);
    assert Pow256(4) == 256 * Pow256(3) && Pow256(3) == 256 * Pow256(2) && Pow256(2) == 256 * Pow256(1);
    HighByte(ip);
  }

  lemma {:induction false} HighByte(ip: U32)
    ensures ByteOf(ip, 3) >= 128 <==> ip >= 0x8000_0000
  {
  }

  lemma {:induction false} PairLower(s: string)
    requires |s| == 2
    ensures PyHex2(Lower(s)) == PyHex2(s)
  {
    LowerDigit(s[0]);
    LowerDigit(s[1]);
  }

  // Upper and lower case digits mean the same to the server.
  lemma {:induction false} PairsLower(s: string)
    ensures HexPairs(Lower(s)) == HexPairs(s)
  {
    if |s| >= 2 {
      assert Lower(s)[..2] == Lower(s[..2]) && Lower(s)[2..] == Lower(s[2..]);
      PairLower(s[..2]);
      PairsLower(s[2..]);
    }
  }

  // A pair without a digit in the right place is no number.
  lemma PairNeedsHex(s: string)
    requires |s| == 2 && PyHex2(s).Some?
    ensures IsHex(s[1]) || (IsHex(s[0]) && IsPySpace(s[1]))
    ensures IsHex(s[0]) || s[0] == '+' || s[0] == '-' || IsPySpace(s[0])
  {
  }

  // A space or a plus sign in a pair counts as a leading 0, a minus sign negates the
  // digit after it.
  lemma PairOfOneDigit(d: char, space: char)
    requires IsHex(d) && IsPySpace(space)
    ensures PyHex2(['0', d]).Some?
    ensures PyHex2([space, d]) == PyHex2([d, space]) == PyHex2(['+', d]) == PyHex2(['0', d])
    ensures PyHex2(['-', d]).Some? && PyHex2(['-', d]).value == -PyHex2(['0', d]).value
  {
  }

  // --------------------------------------------------------------- the greeting

  lemma {:induction false} ContainsAt(a: string, sub: string, b: string)
    ensures Contains(a + sub + b, sub)
    decreases |a|
  {
    var s := a + sub + b;
    if a == [] {
      assert s[..|sub|] == sub;
    } else {
      assert s[1..] == a[1..] + sub + b;
      ContainsAt(a[1..], sub, b);
    }
  }

  lemma {:induction false} ContainedAt(s: string, sub: string) returns (a: string, b: string)
    requires Contains(s, sub)
    ensures s == a + sub + b
  {
    if s[..|sub|] == sub {
      a, b := "", s[|sub|..];
    } else {
      a, b := ContainedAt(s[1..], sub);
      a := [s[0]] + a;
    }
  }

  // Only a message with the greeting and a number after its first colon registers an
  // address.
  lemma {:induction false} GreetingNeeded(buf: string) returns (a: string, b: string)
    requires RegisteredAddress(buf).Some?
    ensures buf == a + "cc3220sf ipv4" + b
    ensures |Split(Strip(buf), ':')| >= 2 && PyInt(Split(Strip(buf), ':')[1]) == RegisteredAddress(buf)
  {
    a, b := ContainedAt(buf, "cc3220sf ipv4");
  }

  lemma {:induction false} GreetingEnough(a: string, b: string)
    ensures var buf := a + "cc3220sf ipv4" + b;
            |Split(Strip(buf), ':')| >= 2 ==> RegisteredAddress(buf) == PyInt(Split(Strip(buf), ':')[1])
  {
    ContainsAt(a, "cc3220sf ipv4", b);
  }
}
