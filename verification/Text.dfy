// The text operations of the C and Python libraries that the boards and the
// server use on each other's messages.
module Text {
  import opened Options

  const TWO32: int := 0x1_0000_0000
  type U32 = x: int | 0 <= x < 0x1_0000_0000
  type I32 = x: int | -0x8000_0000 <= x < 0x8000_0000

  // ------------------------------------------------------------ decimal numbers

  predicate IsDigit(c: char) { '0' <= c <= '9' }

  function DigitChar(d: nat): (c: char)
    requires d < 10
    ensures IsDigit(c)
  {
    ('0' as int + d) as char
  }

  function DigitValue(c: char): nat
    requires IsDigit(c)
  {
    c as int - '0' as int
  }

  predicate AllDigits(s: string) { forall i | 0 <= i < |s| :: IsDigit(s[i]) }

  // sprintf "%u" and Python's str() of a natural number.
  function Dec(n: nat): (s: string)
    ensures s != [] && AllDigits(s)
  {
    if n < 10 then [DigitChar(n)] else Dec(n / 10) + [DigitChar(n % 10)]
  }

  // sprintf "%i".
  function Int(n: int): string {
    if n < 0 then "-" + Dec(-n) else Dec(n)
  }

  function DecValue(s: string): nat
    requires AllDigits(s)
  {
    if s == [] then 0 else DecValue(s[..|s| - 1]) * 10 + DigitValue(s[|s| - 1])
  }

  lemma {:induction false} DecRoundTrip(n: nat)
    ensures DecValue(Dec(n)) == n
  {
    if n < 10 {
      assert DecValue(Dec(n)[..0]) == 0;
    } else {
      DecRoundTrip(n / 10);
      assert Dec(n)[..|Dec(n)| - 1] == Dec(n / 10);
    }
  }

  // The number of digits: a value below 10^k prints in at most k characters.
  lemma {:induction false} DecLength(n: nat, k: nat)
    requires k > 0 && n < Pow10(k)
    ensures |Dec(n)| <= k
  {
    if n >= 10 {
      assert k > 1;
      DecLength(n / 10, k - 1);
    }
  }

  function Pow10(k: nat): nat { if k == 0 then 1 else 10 * Pow10(k - 1) }

  lemma DecLength32(n: U32)
    ensures |Dec(n)| <= 10
  {
    assert Pow10(10) == 10000000000 by {
      assert Pow10(5) == 100000;
    }
    DecLength(n, 10);
  }

  // ----------------------------------------------------------- Python's int(str)

  // isspace() in C, and what str.strip() and int() take for white space.
  predicate IsSpace(c: char) { c == ' ' || '\t' <= c <= '\r' }

  predicate IsPySpace(c: char) { IsSpace(c) || 0x1C <= c as int <= 0x1F || IsWideSpace(c as int) }

  predicate IsWideSpace(n: int) {
    || n == 0x85 || n == 0xA0 || n == 0x1680 || 0x2000 <= n <= 0x200A
    || n == 0x2028 || n == 0x2029 || n == 0x202F || n == 0x205F || n == 0x3000
  }

  // str.strip()
  function Strip(s: string): string
    decreases |s|
  {
    if s == [] then []
    else if IsPySpace(s[0]) then Strip(s[1..])
    else if IsPySpace(s[|s| - 1]) then Strip(s[..|s| - 1])
    else s
  }

  // Digits, with single underscores allowed between them.
  predicate GroupedDigits(s: string) {
    && s != [] && IsDigit(s[0]) && IsDigit(s[|s| - 1])
    && forall i | 0 <= i < |s| :: IsDigit(s[i]) || (s[i] == '_' && i + 1 < |s| && s[i + 1] != '_')
  }

  function DropUnderscores(s: string): (r: string)
    requires forall i | 0 <= i < |s| :: IsDigit(s[i]) || s[i] == '_'
    ensures AllDigits(r)
    ensures AllDigits(s) ==> r == s
  {
    if s == [] then [] else if s[0] == '_' then DropUnderscores(s[1..]) else [s[0]] + DropUnderscores(s[1..])
  }

  function PyNat(s: string): Option<nat> {
    if GroupedDigits(s) then Some(DecValue(DropUnderscores(s))) else None
  }

  // None stands for the ValueError that int() raises.
  function PyInt(s: string): Option<int> { StrippedInt(Strip(s)) }

  function StrippedInt(t: string): Option<int> {
    if t == [] then None
    else
      var body := PyNat(if t[0] == '-' || t[0] == '+' then t[1..] else t);
      if body.None? then None
      else
        var magnitude: int := body.value;
        Some(if t[0] == '-' then -magnitude else magnitude)
  }

  lemma {:induction false} PyNatOfDigits(s: string)
    requires s != [] && AllDigits(s)
    ensures PyNat(s) == Some(DecValue(s))
  {
  }

  lemma {:induction false} StripNothing(s: string)
    requires s != [] && !IsPySpace(s[0]) && !IsPySpace(s[|s| - 1])
    ensures Strip(s) == s
  {
  }

  // int() reads back what "%u" and "%i" print.
  lemma {:induction false} PyIntOfDec(n: nat)
    ensures PyInt(Dec(n)) == Some(n)
  {
    var s := Dec(n);
    assert IsDigit(s[0]);
    StripNothing(s);
    PyNatOfDigits(s);
    DecRoundTrip(n);
  }

  lemma {:induction false} PyIntOfInt(n: int)
    ensures PyInt(Int(n)) == Some(n)
  {
    if n >= 0 {
      PyIntOfDec(n);
    } else {
      var s, d := Int(n), Dec(-n);
      assert s[1..] == d && s[|s| - 1] == d[|d| - 1];
      StripNothing(s);
      PyNatOfDigits(d);
      DecRoundTrip(-n);
    }
  }

  // --------------------------------------------------------- splitting and joining

  // Position of the first occurrence, or the length of the text.
  function IndexOf(s: string, c: char): (k: nat)
    ensures k <= |s|
    ensures forall i | 0 <= i < k :: s[i] != c
    ensures k < |s| ==> s[k] == c
  {
    if s == [] || s[0] == c then 0 else 1 + IndexOf(s[1..], c)
  }

  // The characters before the first NUL, which is where C stops reading.
  function CString(s: string): string { s[..IndexOf(s, '\0')] }

  // str.split(sep) for a one-character separator.
  function Split(s: string, sep: char): (r: seq<string>)
    ensures r != []
    decreases |s|
  {
    var k := IndexOf(s, sep);
    if k == |s| then [s] else [s[..k]] + Split(s[k + 1..], sep)
  }

  // sep.join(parts)
  function Join(parts: seq<string>, sep: char): string {
    if parts == [] then []
    else if |parts| == 1 then parts[0]
    else parts[0] + [sep] + Join(parts[1..], sep)
  }

  predicate Without(s: string, c: char) { forall i | 0 <= i < |s| :: s[i] != c }

  lemma SplitStep(head: string, sep: char, rest: string)
    requires Without(head, sep)
    ensures Split(head + [sep] + rest, sep) == [head] + Split(rest, sep)
  {
    var s := head + [sep] + rest;
    var k := IndexOf(s, sep);
    assert s[|head|] == sep;
    assert forall i | 0 <= i < |head| :: s[i] == head[i];
    assert s[..k] == head && s[k + 1..] == rest;
  }

  lemma SplitNone(s: string, sep: char)
    requires Without(s, sep)
    ensures Split(s, sep) == [s]
  {
  }

  lemma {:induction false} SplitJoin(parts: seq<string>, sep: char)
    requires parts != [] && forall i | 0 <= i < |parts| :: Without(parts[i], sep)
    ensures Split(Join(parts, sep), sep) == parts
  {
    if |parts| == 1 {
      SplitNone(parts[0], sep);
    } else {
      SplitJoin(parts[1..], sep);
      SplitStep(parts[0], sep, Join(parts[1..], sep));
    }
  }

  // Every part followed by the terminator.
  function Terminated(parts: seq<string>, end: char): string {
    if parts == [] then [] else parts[0] + [end] + Terminated(parts[1..], end)
  }

  lemma {:induction false} SplitTerminated(parts: seq<string>, end: char)
    requires forall i | 0 <= i < |parts| :: Without(parts[i], end)
    ensures Split(Terminated(parts, end), end) == parts + [""]
  {
    if parts == [] {
      SplitNone("", end);
    } else {
      SplitTerminated(parts[1..], end);
      SplitStep(parts[0], end, Terminated(parts[1..], end));
      HeadAndTail(parts, "");
    }
  }

  lemma HeadAndTail<T>(s: seq<T>, x: T)
    requires s != []
    ensures [s[0]] + (s[1..] + [x]) == s + [x]
  {
  }

  lemma {:induction false} TerminatedAppend(xs: seq<string>, ys: seq<string>, end: char)
    ensures Terminated(xs + ys, end) == Terminated(xs, end) + Terminated(ys, end)
  {
    if xs == [] {
      assert xs + ys == ys;
    } else {
      assert (xs + ys)[1..] == xs[1..] + ys;
      TerminatedAppend(xs[1..], ys, end);
    }
  }

  // ------------------------------------------------- printing parts into a C buffer

  // strcpy(&buf[at], s)
  method StrCpy(buf: array<char>, at: nat, s: string)
    requires at + |s| < buf.Length
    modifies buf
    ensures buf[..at] == old(buf[..at]) && buf[at..at + |s|] == s && buf[at + |s|] == '\0'
  {
    var i := 0;
    while i < |s|
      invariant 0 <= i <= |s|
      invariant buf[..at] == old(buf[..at]) && buf[at..at + i] == s[..i]
    {
      buf[at + i] := s[i];
      i := i + 1;
    }
    buf[at + |s|] := '\0';
  }

  // The buffer holds the first k parts, each followed by a bar and in at most `width`
  // bytes each; from the first part on it is NUL-terminated.
  ghost predicate Printed(buf: array<char>, bufI: nat, parts: seq<string>, k: nat, width: nat)
    reads buf
  {
    && k <= |parts| && bufI < buf.Length
    && bufI == |Terminated(parts[..k], '|')| <= width * k
    && buf[..bufI] == Terminated(parts[..k], '|') && (k > 0 ==> buf[bufI] == '\0')
  }

  lemma PrintedAll(buf: array<char>, bufI: nat, parts: seq<string>, width: nat)
    requires Printed(buf, bufI, parts, |parts|, width)
    ensures bufI == |Terminated(parts, '|')| < buf.Length
    ensures buf[..bufI] == Terminated(parts, '|') && (parts != [] ==> buf[bufI] == '\0')
  {
    assert parts[..|parts|] == parts;
  }

  lemma PrintedNone(buf: array<char>, parts: seq<string>, width: nat)
    requires buf.Length > 0
    ensures Printed(buf, 0, parts, 0, width)
  {
    assert parts[..0] == [];
  }

  lemma WidthStep(width: nat, k: nat, n: nat)
    requires k < n
    ensures width * k + width == width * (k + 1) <= width * n
  {
  }

  // One sprintf, strcpy and advance of the buffer index.
  method PrintPart(buf: array<char>, bufI: nat, part: string, ghost parts: seq<string>, ghost k: nat, ghost width: nat)
    returns (next: nat)
    requires k < |parts| && part == parts[k] && |part| < width && buf.Length > width * |parts|
    requires Printed(buf, bufI, parts, k, width)
    modifies buf
    ensures Printed(buf, next, parts, k + 1, width)
  {
    TerminatedStep(parts, k);
    WidthStep(width, k, |parts|);
    var reading := part + "|";
    ghost var before := buf[..bufI];
    StrCpy(buf, bufI, reading);
    next := bufI + |reading|;
    assert buf[..next] == before + reading by {
      assert buf[..next] == buf[..bufI] + buf[bufI..next];
    }
  }

  lemma {:induction false} TerminatedStep(parts: seq<string>, k: nat)
    requires k < |parts|
    ensures Terminated(parts[..k + 1], '|') == Terminated(parts[..k], '|') + (parts[k] + "|")
  {
    assert parts[..k + 1] == parts[..k] + [parts[k]];
    TerminatedAppend(parts[..k], [parts[k]], '|');
    assert [parts[k]][1..] == [];
    assert Terminated([], '|') == "";
  }

  // ------------------------------------------------------------ Python's str(bytes)

  function HexLower(d: nat): char
    requires d < 16
  {
    "0123456789abcdef"[d]
  }

  function EscapeByte(c: char, quote: char): string {
    if c == quote || c == '\\' then ['\\', c]
    else if c == '\t' then "\\t"
    else if c == '\n' then "\\n"
    else if c == '\r' then "\\r"
    else if c < ' ' || c >= 0x7F as char then "\\x" + [HexLower(c as int / 16 % 16), HexLower(c as int % 16)]
    else [c]
  }

  function EscapeBytes(s: string, quote: char): string {
    if s == [] then [] else EscapeByte(s[0], quote) + EscapeBytes(s[1..], quote)
  }

  // str(data) of a bytes object, one character standing for one byte.
  function BytesRepr(s: string): string {
    var quote := if '\'' in s && '\"' !in s then '\"' else '\'';
    "b" + [quote] + EscapeBytes(s, quote) + [quote]
  }

  // str.replace(pat, "")
  function Remove(s: string, pat: string): string
    requires pat != []
    decreases |s|
  {
    if |s| < |pat| then s
    else if s[..|pat|] == pat then Remove(s[|pat|..], pat)
    else [s[0]] + Remove(s[1..], pat)
  }

  // How parse_mcu_msg gets its text from the received bytes.
  function Received(payload: string): string {
    Remove(Remove(BytesRepr(payload), "b'"), "'")
  }

  // The characters the boards print.
  predicate Plain(s: string) {
    forall i | 0 <= i < |s| :: IsDigit(s[i]) || s[i] == ',' || s[i] == '|' || s[i] == '-'
  }

  lemma {:induction false} EscapePlain(s: string)
    requires Plain(s)
    ensures EscapeBytes(s, '\'') == s
  {
    if s != [] { EscapePlain(s[1..]); }
  }

  lemma {:induction false} RemoveAbsent(s: string, pat: string)
    requires pat != [] && Without(s, pat[0])
    ensures Remove(s, pat) == s
  {
    if |s| >= |pat| {
      assert s[..|pat|][0] == s[0];
      RemoveAbsent(s[1..], pat);
    }
  }

  lemma {:induction false} RemoveFinalQuote(s: string)
    requires Without(s, '\'')
    ensures Remove(s + "'", "'") == s
  {
    if s == [] {
      assert (s + "'")[..1] == "'" && (s + "'")[1..] == "";
    } else {
      assert (s + "'")[..1] == [s[0]] && (s + "'")[1..] == s[1..] + "'";
      RemoveFinalQuote(s[1..]);
    }
  }

  // The detour through str() and replace() gives back what the board sent.
  lemma ReceivedPlain(s: string)
    requires Plain(s)
    ensures Received(s) == s
  {
    EscapePlain(s);
    var r := BytesRepr(s);
    assert r == "b'" + (s + "'");
    assert r[..2] == "b'" && r[2..] == s + "'";
    RemoveAbsent(s + "'", "b'");
    RemoveFinalQuote(s);
  }
}
