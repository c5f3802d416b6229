// IPv6 addresses on the terminal: ipv6AddressParse and the IPv6 half of
// PrintIPAddress.
module Ipv6 {
  import opened Options
  import opened Text

  type Byte = x: int | 0 <= x < 256
  type Group = x: int | 0 <= x < 0x1_0000

  // ------------------------------------------------------------- hexadecimal digits

  predicate IsHex(c: char) { '0' <= c <= '9' || 'a' <= c <= 'f' || 'A' <= c <= 'F' }

  function HexDigit(c: char): (d: nat)
    requires IsHex(c)
    ensures d < 16
  {
    if '0' <= c <= '9' then c as int - '0' as int
    else if 'a' <= c <= 'f' then c as int - 'a' as int + 10
    else c as int - 'A' as int + 10
  }

  // sprintf "%02x"
  function Hex2(b: Byte): string { [HexLower(b / 16), HexLower(b % 16)] }

  lemma HexLowerValue(d: nat)
    requires d < 16
    ensures IsHex(HexLower(d)) && HexDigit(HexLower(d)) == d
  {
  }

  // The number a text of hexadecimal digits stands for.
  function HexValue(s: string): nat
    requires forall i | 0 <= i < |s| :: IsHex(s[i])
  {
    if s == [] then 0 else HexValue(s[..|s| - 1]) * 16 + HexDigit(s[|s| - 1])
  }

  // One group of an address: one to four hexadecimal digits.
  predicate IsGroup(s: string) { 1 <= |s| <= 4 && forall i | 0 <= i < |s| :: IsHex(s[i]) }

  predicate AreGroups(gs: seq<string>) { forall i | 0 <= i < |gs| :: IsGroup(gs[i]) }

  lemma GroupBound(s: string)
    requires IsGroup(s)
    ensures HexValue(s) < 0x1_0000
  {
    HexBound(s, 4);
  }

  function Pow16(k: nat): nat { if k == 0 then 1 else 16 * Pow16(k - 1) }

  lemma {:induction false} HexBound(s: string, k: nat)
    requires |s| <= k && forall i | 0 <= i < |s| :: IsHex(s[i])
    ensures HexValue(s) < Pow16(k)
  {
    if s == [] {
      PowPositive(k);
    } else {
      HexBound(s[..|s| - 1], k - 1);
    }
  }

  lemma {:induction false} PowPositive(k: nat)
    ensures Pow16(k) > 0
  {
    if k > 0 { PowPositive(k - 1); }
  }

  function Values(gs: seq<string>): (vs: seq<Group>)
    requires AreGroups(gs)
    ensures |vs| == |gs|
    ensures forall i | 0 <= i < |gs| :: vs[i] == HexValue(gs[i])
  {
    if gs == [] then [] else GroupBound(gs[0]); [HexValue(gs[0])] + Values(gs[1..])
  }

  // Network byte order.
  function BytesOf(gs: seq<Group>): (bs: seq<Byte>)
    ensures |bs| == 2 * |gs|
  {
    if gs == [] then [] else BytesOf(gs[..|gs| - 1]) + [gs[|gs| - 1] / 256, gs[|gs| - 1] % 256]
  }

  lemma {:induction false} BytesAt(gs: seq<Group>, i: nat)
    requires i < |gs|
    ensures BytesOf(gs)[2 * i] == gs[i] / 256 && BytesOf(gs)[2 * i + 1] == gs[i] % 256
  {
    if i < |gs| - 1 { BytesAt(gs[..|gs| - 1], i); }
  }

  // ------------------------------------------------------- what the text stands for

  // The groups read so far, the group being read, and where "::" was seen.
  datatype Scan =
    | Scan(groups: seq<Group>, value: Group, digit: bool, zero: Option<nat>)
    | Malformed

  function Step(s: Scan, c: char): Scan {
    if s.Malformed? then s
    else if IsHex(c) then s.(value := (s.value * 16 + HexDigit(c)) % 0x1_0000, digit := true)
    else if c == ':' && |s.groups| < 7 then
      if s.digit then s.(groups := s.groups + [s.value], value := 0, digit := false)
      else if s.zero.None? then s.(zero := Some(|s.groups|))
      else Malformed
    else s
  }

  function ScanText(s: Scan, text: string): Scan
    decreases |text|
  {
    if text == [] then s else ScanText(Step(s, text[0]), text[1..])
  }

  const START := Scan([], 0, false, None)

  function Zeros(n: nat): (z: seq<Group>)
    ensures |z| == n && forall i | 0 <= i < n :: z[i] == 0
  {
    if n == 0 then [] else Zeros(n - 1) + [0]
  }

  // The eight groups of an address, or nothing.
  function Finish(s: Scan): (r: Option<seq<Group>>)
    requires s.Scan? ==> |s.groups| <= 7 && (s.zero.Some? ==> s.zero.value <= |s.groups|)
    ensures r.Some? ==> |r.value| == 8
  {
    if s.Malformed? then None
    else
      match s.zero
      case None => if s.digit && |s.groups| == 7 then Some(s.groups + [s.value]) else None
      case Some(z) =>
        if |s.groups| == 7 || (!s.digit && z != |s.groups|) then None
        else Some(Insert(AllGroups(s), z))
  }

  function AllGroups(s: Scan): seq<Group>
    requires s.Scan?
  {
    if s.digit then s.groups + [s.value] else s.groups
  }

  // The address with zero groups inserted at position z.
  function Insert(gs: seq<Group>, z: nat): (r: seq<Group>)
    requires z <= |gs| <= 8
    ensures |r| == 8
  {
    gs[..z] + Zeros(8 - |gs|) + gs[z..]
  }

  lemma {:induction false} ScanBounds(s: Scan, text: string)
    requires s.Scan? ==> |s.groups| <= 7 && (s.zero.Some? ==> s.zero.value <= |s.groups|)
    ensures var t := ScanText(s, text);
            t.Scan? ==> |t.groups| <= 7 && (t.zero.Some? ==> t.zero.value <= |t.groups|)
    decreases |text|
  {
    if text != [] { ScanBounds(Step(s, text[0]), text[1..]); }
  }

  // A leading colon must be the first of two and is skipped.
  function Parse(text: string): Option<seq<Group>> {
    if text != [] && text[0] == ':' && (|text| == 1 || text[1] != ':') then None
    else
      var rest := if text != [] && text[0] == ':' then text[1..] else text;
      ScanBounds(START, rest);
      Finish(ScanText(START, rest))
  }

  // ----------------------------------------------------------------- the C function

  method Ipv6AddressParse(str: string, ipv6ip: array<Byte>) returns (r: int)
    requires ipv6ip.Length == 16
    modifies ipv6ip
    ensures match Parse(CString(str))
            case None => r == -1 && ipv6ip[..] == old(ipv6ip[..])
            case Some(gs) => r == 0 && ipv6ip[..] == BytesOf(gs)
  {
    var text := CString(str);
    var t := 0;
    if t < |text| && text[t] == ':' {
      t := t + 1;
      if t == |text| || text[t] != ':' {
        return -1;
      }
    }
    assert text[0..] == text;
    ScanBounds(START, text[t..]);
    var ok, tmp, i, value, hexDigit, zeroCompressPos := ScanLoop(text[t..]);
    if !ok {
      return -1;
    }
    ok := FinishAddress(tmp, i, value, hexDigit, zeroCompressPos, ScanText(START, text[t..]));
    if !ok {
      return -1;
    }
    Copy(tmp, ipv6ip);
    return 0;
  }

  // The scanning loop, from its first character on; not ok stands for the return
  // of -1 out of it.
  method ScanLoop(text: string)
    returns (ok: bool, tmp: array<Byte>, i: nat, value: Group, hexDigit: bool, zeroCompressPos: int)
    ensures fresh(tmp) && tmp.Length == 16
    ensures !ok ==> ScanText(START, text).Malformed?
    ensures ok ==> Represents(ScanText(START, text), tmp[..], i, value, hexDigit, zeroCompressPos)
  {
    ok := true;
    tmp := new Byte[16](_ => 0);
    i, value, hexDigit, zeroCompressPos := 0, 0, false, -1;
    ghost var s := START;
    InitialTmp(tmp[..]);
    var t := 0;
    while t < |text| && i < 16
      invariant 0 <= t <= |text|
      invariant ScanText(s, text[t..]) == ScanText(START, text)
      invariant Represents(s, tmp[..], i, value, hexDigit, zeroCompressPos)
    {
      ScanOne(s, text, t);
      ok, i, value, hexDigit, zeroCompressPos := ScanChar(text[t], tmp, i, value, hexDigit, zeroCompressPos, s);
      s := Step(s, text[t]);
      if !ok {
        MalformedStays(text[t + 1..]);
        return;
      }
      t := t + 1;
    }
    assert text[t..] == [];
  }

  lemma {:induction false} ScanOne(s: Scan, text: string, t: nat)
    requires t < |text|
    ensures ScanText(s, text[t..]) == ScanText(Step(s, text[t]), text[t + 1..])
  {
    assert text[t..][0] == text[t] && text[t..][1..] == text[t + 1..];
  }

  // The body of the scanning loop.
  method ScanChar(c: char, tmp: array<Byte>, i0: nat, value0: Group, hexDigit0: bool, zero0: int, ghost s: Scan)
    returns (ok: bool, i: nat, value: Group, hexDigit: bool, zeroCompressPos: int)
    requires tmp.Length == 16 && Represents(s, tmp[..], i0, value0, hexDigit0, zero0)
    modifies tmp
    ensures ok <==> Step(s, c).Scan?
    ensures ok ==> Represents(Step(s, c), tmp[..], i, value, hexDigit, zeroCompressPos)
  {
    ok, i, value, hexDigit, zeroCompressPos := true, i0, value0, hexDigit0, zero0;
    if IsHex(c) {
      value := (value * 16 + HexDigit(c)) % 0x1_0000;
      hexDigit := true;
    } else if c == ':' && i < 14 {
      if hexDigit {
        StoreGroup(tmp, i, value, s.groups);
        i := i + 2;
        hexDigit := false;
        value := 0;
      } else if zeroCompressPos < 0 {
        zeroCompressPos := i;
      } else {
        ok := false;
      }
    }
  }

  // The tests after the loop, on the local variables.
  predicate Rejected(i: nat, hexDigit: bool, zeroCompressPos: int) {
    || i > 15
    || (hexDigit && zeroCompressPos < 0 && i < 14)
    || (!hexDigit && zeroCompressPos < 0)
    || (!hexDigit && zeroCompressPos != i)
    || (zeroCompressPos >= 0 && i >= 14)
  }

  lemma {:induction false} RejectedIff(s: Scan, tmp: seq<Byte>, i: nat, value: Group, hexDigit: bool, zeroCompressPos: int)
    requires Represents(s, tmp, i, value, hexDigit, zeroCompressPos)
    ensures Rejected(i, hexDigit, zeroCompressPos) <==> Finish(s).None?
    ensures Finish(s).Some? ==>
              Finish(s).value == if s.zero.Some? then Insert(AllGroups(s), s.zero.value) else AllGroups(s)
    ensures Finish(s).Some? && s.zero.Some? ==> |AllGroups(s)| <= 7
  {
  }

  // From the end of the text to the finished address; not ok stands for a return of -1.
  method FinishAddress(tmp: array<Byte>, i0: nat, value: Group, hexDigit: bool, zeroCompressPos: int, ghost s: Scan)
    returns (ok: bool)
    requires tmp.Length == 16 && Represents(s, tmp[..], i0, value, hexDigit, zeroCompressPos)
    modifies tmp
    ensures ok <==> Finish(s).Some?
    ensures ok ==> tmp[..] == BytesOf(Finish(s).value)
  {
    RejectedIff(s, tmp[..], i0, value, hexDigit, zeroCompressPos);
    if Rejected(i0, hexDigit, zeroCompressPos) {
      return false;
    }
    var i := StoreLast(tmp, i0, value, hexDigit, s);
    if zeroCompressPos >= 0 {
      ExpandZeros(tmp, i, zeroCompressPos, AllGroups(s), s.zero.value);
    } else {
      PaddedFull(AllGroups(s));
    }
    return true;
  }

  lemma {:induction false} PaddedFull(gs: seq<Group>)
    requires |gs| == 8
    ensures Padded(gs) == BytesOf(gs)
  {
    assert BytesOf(Zeros(0)) == [];
  }

  // The group that the end of the text completes.
  method StoreLast(tmp: array<Byte>, i0: nat, value: Group, hexDigit: bool, ghost s: Scan) returns (i: nat)
    requires tmp.Length == 16 && s.Scan? && |s.groups| <= 7 && i0 == 2 * |s.groups|
    requires value == s.value && hexDigit == s.digit && tmp[..] == Padded(s.groups)
    modifies tmp
    ensures i == 2 * |AllGroups(s)| && tmp[..] == Padded(AllGroups(s))
  {
    i := i0;
    if hexDigit && i < 15 {
      StoreGroup(tmp, i, value, s.groups);
      i := i + 2;
    }
  }

  lemma InitialTmp(tmp: seq<Byte>)
    requires |tmp| == 16 && forall j | 0 <= j < 16 :: tmp[j] == 0
    ensures tmp == Padded([])
  {
    BytesOfZeros(8);
  }

  // The groups in order and zero bytes after them.
  function Padded(gs: seq<Group>): (bs: seq<Byte>)
    requires |gs| <= 8
    ensures |bs| == 16
  {
    BytesOf(gs) + BytesOf(Zeros(8 - |gs|))
  }

  // The local variables of the parser hold the scanned groups.
  predicate Represents(s: Scan, tmp: seq<Byte>, i: nat, value: Group, hexDigit: bool, zeroCompressPos: int) {
    && s.Scan? && |tmp| == 16
    && |s.groups| <= 7 && i == 2 * |s.groups|
    && tmp == Padded(s.groups)
    && value == s.value && hexDigit == s.digit
    && zeroCompressPos == (if s.zero.None? then -1 else 2 * s.zero.value)
    && (s.zero.Some? ==> s.zero.value <= |s.groups|)
  }

  lemma {:induction false} MalformedStays(text: string)
    ensures ScanText(Malformed, text) == Malformed
  {
    if text != [] { MalformedStays(text[1..]); }
  }

  // ------------------------------------------------------------- bytes and groups

  lemma {:induction false} BytesAppend(xs: seq<Group>, ys: seq<Group>)
    ensures BytesOf(xs + ys) == BytesOf(xs) + BytesOf(ys)
  {
    if ys == [] {
      assert xs + ys == xs;
    } else {
      assert (xs + ys)[..|xs + ys| - 1] == xs + ys[..|ys| - 1];
      BytesAppend(xs, ys[..|ys| - 1]);
    }
  }

  lemma {:induction false} BytesOfZeros(n: nat)
    ensures forall j | 0 <= j < 2 * n :: BytesOf(Zeros(n))[j] == 0
  {
    if n > 0 {
      BytesOfZeros(n - 1);
      assert Zeros(n)[..n - 1] == Zeros(n - 1);
    }
  }

  lemma {:induction false} BytesOfOne(v: Group)
    ensures BytesOf([v]) == [v / 256, v % 256]
  {
    assert [v][..0] == [];
    assert BytesOf([]) == [];
  }

  lemma {:induction false} ZerosSplit(n: nat)
    requires n > 0
    ensures Zeros(n) == [0] + Zeros(n - 1)
  {
  }

  // Two of the zero bytes replaced by a group.
  lemma {:induction false} StoreBytes(gs: seq<Group>, value: Group)
    requires |gs| <= 7
    ensures var before := Padded(gs);
            before[..2 * |gs|] + [value / 256, value % 256] + before[2 * |gs| + 2..]
            == Padded(gs + [value])
  {
    ZerosSplit(8 - |gs|);
    BytesAppend([0], Zeros(7 - |gs|));
    BytesOfOne(0);
    BytesAppend(gs, [value]);
    BytesOfOne(value);
    ReplaceTwo(BytesOf(gs), [0, 0], [value / 256, value % 256], BytesOf(Zeros(7 - |gs|)));
  }

  lemma ReplaceTwo(a: seq<Byte>, two: seq<Byte>, two': seq<Byte>, b: seq<Byte>)
    requires |two| == 2 == |two'|
    ensures (a + (two + b))[..|a|] + two' + (a + (two + b))[|a| + 2..] == a + two' + b
  {
  }

  // The two bytes of a group go into the buffer, the high byte first.
  method StoreGroup(tmp: array<Byte>, i: nat, value: Group, ghost gs: seq<Group>)
    requires tmp.Length == 16 && i == 2 * |gs| && |gs| <= 7
    requires tmp[..] == Padded(gs)
    modifies tmp
    ensures tmp[..] == Padded(gs + [value])
  {
    StoreBytes(gs, value);
    StoreTwo(tmp, i, value / 256, value % 256);
  }

  method StoreTwo(tmp: array<Byte>, i: nat, high: Byte, low: Byte)
    requires i + 2 <= tmp.Length
    modifies tmp
    ensures tmp[..] == old(tmp[..])[..i] + [high, low] + old(tmp[..])[i + 2..]
  {
    tmp[i] := high;
    tmp[i + 1] := low;
  }

  // The in-place shift that expands "::": bytes zeroCompressPos..n move to the end,
  // the last one first, and leave zeros behind.  Source and target stay 16 - n >= 2
  // apart, so no byte is overwritten before it has moved.
  method ShiftToEnd(tmp: array<Byte>, n: nat, zeroCompressPos: nat)
    requires tmp.Length == 16 && zeroCompressPos <= n <= 14
    requires forall j | n <= j < 16 :: tmp[j] == 0
    modifies tmp
    ensures tmp[..zeroCompressPos] == old(tmp[..zeroCompressPos])
    ensures tmp[zeroCompressPos + 16 - n..] == old(tmp[zeroCompressPos..n])
    ensures forall j | zeroCompressPos <= j < zeroCompressPos + 16 - n :: tmp[j] == 0
  {
    var i, l := n - 1, 15;
    while i >= zeroCompressPos
      invariant zeroCompressPos - 1 <= i < n && l - i == 16 - n
      invariant forall j | 0 <= j <= i :: tmp[j] == old(tmp[j])
      invariant forall j | i < j <= l :: tmp[j] == 0
      invariant forall j | l < j < 16 :: tmp[j] == old(tmp[j - 16 + n])
      decreases i - zeroCompressPos
    {
      if l >= 0 && i >= 0 {
        tmp[l] := tmp[i];
        tmp[i] := 0;
        l := l - 1;
        i := i - 1;
      }
    }
  }

  // The same on bytes: what was between the two parts of the address goes to the end.
  lemma {:induction false} ExpandBytes(gs: seq<Group>, z: nat)
    requires z <= |gs| <= 7
    ensures var before := Padded(gs);
            && before[..2 * z] == BytesOf(gs[..z]) && before[2 * z..2 * |gs|] == BytesOf(gs[z..])
            && forall j | 2 * |gs| <= j < 16 :: before[j] == 0
  {
    BytesOfZeros(8 - |gs|);
    BytesAppend(gs[..z], gs[z..]);
    assert gs == gs[..z] + gs[z..];
  }

  lemma {:induction false} ThreeParts(x: seq<Byte>, a: seq<Byte>, b: seq<Byte>, c: seq<Byte>)
    requires |x| == |a| + |b| + |c|
    requires x[..|a|] == a && x[|a|..|a| + |b|] == b && x[|a| + |b|..] == c
    ensures x == a + b + c
  {
  }

  lemma {:induction false} SameZeros(x: seq<Byte>, y: seq<Byte>)
    requires |x| == |y| && forall j | 0 <= j < |x| :: x[j] == 0 && y[j] == 0
    ensures x == y
  {
  }

  lemma {:induction false} ExpandedBytes(bytes: seq<Byte>, gs: seq<Group>, z: nat, m: nat)
    requires |bytes| == 16 && z <= |gs| <= 7 && m == 2 * z + 16 - 2 * |gs|
    requires bytes[..2 * z] == BytesOf(gs[..z]) && bytes[m..] == BytesOf(gs[z..])
    requires forall j | 2 * z <= j < m :: bytes[j] == 0
    ensures bytes == BytesOf(Insert(gs, z))
  {
    InsertBytes(gs, z);
    BytesOfZeros(8 - |gs|);
    WithZeros(bytes, BytesOf(gs[..z]), BytesOf(Zeros(8 - |gs|)), BytesOf(gs[z..]));
  }

  lemma {:induction false} WithZeros(x: seq<Byte>, a: seq<Byte>, zeros: seq<Byte>, c: seq<Byte>)
    requires |x| == |a| + |zeros| + |c| && x[..|a|] == a && x[|a| + |zeros|..] == c
    requires forall j | |a| <= j < |a| + |zeros| :: x[j] == 0
    requires forall j | 0 <= j < |zeros| :: zeros[j] == 0
    ensures x == a + zeros + c
  {
    SameZeros(x[|a|..|a| + |zeros|], zeros);
    ThreeParts(x, a, zeros, c);
  }

  lemma {:induction false} InsertBytes(gs: seq<Group>, z: nat)
    requires z <= |gs| <= 7
    ensures BytesOf(Insert(gs, z)) == BytesOf(gs[..z]) + BytesOf(Zeros(8 - |gs|)) + BytesOf(gs[z..])
  {
    BytesAppend(gs[..z], Zeros(8 - |gs|));
    BytesAppend(gs[..z] + Zeros(8 - |gs|), gs[z..]);
  }

  method ExpandZeros(tmp: array<Byte>, n: nat, zeroCompressPos: nat, ghost gs: seq<Group>, ghost z: nat)
    requires tmp.Length == 16 && n == 2 * |gs| && zeroCompressPos == 2 * z && z <= |gs| <= 7
    requires tmp[..] == Padded(gs)
    modifies tmp
    ensures tmp[..] == BytesOf(Insert(gs, z))
  {
    ExpandBytes(gs, z);
    ghost var before := tmp[..];
    assert forall j | 0 <= j < 16 :: tmp[j] == before[j];
    assert tmp[..zeroCompressPos] == before[..2 * z] && tmp[zeroCompressPos..n] == before[2 * z..n];
    ShiftToEnd(tmp, n, zeroCompressPos);
    ghost var after := tmp[..];
    assert after[..2 * z] == tmp[..zeroCompressPos] && after[2 * z + 16 - 2 * |gs|..] == tmp[zeroCompressPos + 16 - n..];
    ExpandedBytes(after, gs, z, 2 * z + 16 - 2 * |gs|);
  }

  // The finished address goes to the caller's buffer.
  method Copy(from: array<Byte>, to: array<Byte>)
    requires from.Length == to.Length && from != to
    modifies to
    ensures to[..] == from[..]
  {
    var i := 0;
    while i < from.Length
      invariant 0 <= i <= from.Length && to[..i] == from[..i]
    {
      to[i] := from[i];
      i := i + 1;
    }
  }
}
