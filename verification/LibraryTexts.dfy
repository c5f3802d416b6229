// What the models of the C and Python text operations in Text do, stated apart from
// their definitions.
module LibraryTexts {
  import opened Options
  import opened Text
  import opened Ipv6

  // -------------------------------------------------------------------- C strings

  // A C string ends before its first NUL, and only there.
  lemma {:induction false} CStringExact(s: string, after: string)
    requires Without(s, '\0')
    ensures CString(s) == s && CString(s + ['\0'] + after) == s
  {
    var t := s + ['\0'] + after;
    assert t[|s|] == '\0' && forall i | 0 <= i < |s| :: t[i] == s[i];
    assert IndexOf(t, '\0') == |s|;
    assert t[..|s|] == s;
  }

  // -------------------------------------------------------------- decimal numbers

  // The i-th decimal digit of a number, the lowest first.
  function Digit(n: nat, i: nat): nat { if i == 0 then n % 10 else Digit(n / 10, i - 1) }

  // Every character of the decimal text is the code of its digit.
  lemma {:induction false} DecAt(n: nat, i: nat)
    requires i < |Dec(n)|
    ensures Dec(n)[|Dec(n)| - 1 - i] as int == 48 + Digit(n, i)
  {
    if n >= 10 && i > 0 { DecAt(n / 10, i - 1); }
  }

  // There is no leading zero.
  lemma {:induction false} DecStart(n: nat)
    requires n > 0
    ensures Dec(n)[0] != '0'
  {
    if n >= 10 { DecStart(n / 10); }
  }

  // ----------------------------------------------------------------- Python's int()

  predicate AllSpaces(s: string) { forall i | 0 <= i < |s| :: IsPySpace(s[i]) }

  lemma {:induction false} StripEnd(t: string, after: string)
    requires t != [] && !IsPySpace(t[0]) && !IsPySpace(t[|t| - 1]) && AllSpaces(after)
    ensures Strip(t + after) == t
    decreases |after|
  {
    if after == [] {
      assert t + after == t;
      StripNothing(t);
    } else {
      var k := |after| - 1;
      assert (t + after)[0] == t[0] && (t + after)[|t + after| - 1] == after[k];
      assert (t + after)[..|t + after| - 1] == t + after[..k];
      StripEnd(t, after[..k]);
    }
  }

  // Surrounding white space is stripped.
  lemma {:induction false} StripBoth(before: string, t: string, after: string)
    requires t != [] && !IsPySpace(t[0]) && !IsPySpace(t[|t| - 1]) && AllSpaces(before) && AllSpaces(after)
    ensures Strip(before + (t + after)) == t
    decreases |before|
  {
    if before == [] {
      assert before + (t + after) == t + after;
      StripEnd(t, after);
    } else {
      assert (before + (t + after))[0] == before[0] && (before + (t + after))[1..] == before[1..] + (t + after);
      StripBoth(before[1..], t, after);
    }
  }

  // int() of a text that needs no stripping, with and without a sign.
  lemma {:induction false} SignedDigits(before: string, t: string, after: string)
    requires t != [] && !IsPySpace(t[0]) && !IsPySpace(t[|t| - 1]) && AllSpaces(before) && AllSpaces(after)
    ensures PyInt(before + (t + after)) == PyInt(t)
  {
    StripBoth(before, t, after);
    StripNothing(t);
    SameStrip(before + (t + after), t);
  }

  lemma SameStrip(s: string, t: string)
    requires Strip(s) == Strip(t)
    ensures PyInt(s) == PyInt(t)
  {
  }

  lemma {:induction false} SignThenDigits(sign: char, d: string)
    requires (sign == '+' || sign == '-') && d != [] && AllDigits(d)
    ensures var t := [sign] + d;
            && !IsPySpace(t[0]) && !IsPySpace(t[|t| - 1])
            && PyInt(t) == Some(if sign == '-' then -(DecValue(d) as int) else DecValue(d))
  {
    var t := [sign] + d;
    assert t[|t| - 1] == d[|d| - 1] && t[1..] == d;
    StripNothing(t);
    PyNatOfDigits(d);
  }

  lemma {:induction false} SignedAround(before: string, sign: char, n: nat, after: string)
    requires AllSpaces(before) && AllSpaces(after) && (sign == '+' || sign == '-')
    ensures PyInt(before + ([sign] + Dec(n) + after)) == Some(if sign == '-' then -(n as int) else n)
  {
    SignThenDigits(sign, Dec(n));
    SignedDigits(before, [sign] + Dec(n), after);
    DecRoundTrip(n);
  }

  // White space around a number and a sign before it are allowed.
  lemma {:induction false} PyIntAround(before: string, n: nat, after: string)
    requires AllSpaces(before) && AllSpaces(after)
    ensures PyInt(before + (Dec(n) + after)) == PyInt(before + (['+'] + Dec(n) + after)) == Some(n)
    ensures PyInt(before + (['-'] + Dec(n) + after)) == Some(-(n as int))
  {
    assert IsDigit(Dec(n)[0]) && IsDigit(Dec(n)[|Dec(n)| - 1]);
    PyIntOfDec(n);
    SignedDigits(before, Dec(n), after);
    SignedAround(before, '+', n, after);
    SignedAround(before, '-', n, after);
  }

  lemma {:induction false} DropOne(a: string, b: string)
    requires AllDigits(a) && AllDigits(b)
    ensures DropUnderscores(a + ['_'] + b) == a + b
  {
    if a == [] {
      assert (a + ['_'] + b)[1..] == b && a + b == b;
    } else {
      assert (a + ['_'] + b)[1..] == a[1..] + ['_'] + b;
      DropOne(a[1..], b);
      assert [a[0]] + (a[1..] + b) == a + b;
    }
  }

  lemma {:induction false} GroupedOne(a: string, b: string)
    requires a != [] && b != [] && AllDigits(a) && AllDigits(b)
    ensures GroupedDigits(a + ['_'] + b)
  {
    var s := a + ['_'] + b;
    assert s[0] == a[0] && s[|s| - 1] == b[|b| - 1] && s[|a| + 1] == b[0];
    forall i | 0 <= i < |s| ensures IsDigit(s[i]) || (s[i] == '_' && i + 1 < |s| && s[i + 1] != '_') {
      if i < |a| { assert s[i] == a[i]; } else if i > |a| { assert s[i] == b[i - |a| - 1]; }
    }
  }

  lemma {:induction false} PlainInt(t: string)
    requires t != [] && IsDigit(t[0]) && IsDigit(t[|t| - 1]) && PyNat(t).Some?
    ensures PyInt(t) == Some(PyNat(t).value)
  {
    StripNothing(t);
  }

  // An underscore between two digits does not count.
  lemma {:induction false} PyIntUnderscore(a: string, b: string)
    requires a != [] && b != [] && AllDigits(a) && AllDigits(b)
    ensures PyInt(a + ['_'] + b) == PyInt(a + b) == Some(DecValue(a + b))
  {
    GroupedOne(a, b);
    DropOne(a, b);
    PlainInt(a + ['_'] + b);
    PyNatOfDigits(a + b);
    PlainInt(a + b);
  }

  // Only digits, underscores, a sign and white space can make up a number.
  lemma {:induction false} StripKeeps(s: string, i: nat)
    requires i < |s| && !IsPySpace(s[i])
    ensures s[i] in Strip(s)
    decreases |s|
  {
    if IsPySpace(s[0]) {
      assert s[1..][i - 1] == s[i];
      StripKeeps(s[1..], i - 1);
    } else if IsPySpace(s[|s| - 1]) {
      assert s[..|s| - 1][i] == s[i];
      StripKeeps(s[..|s| - 1], i);
    }
  }

  lemma {:induction false} NotANumber(s: string, i: nat)
    requires i < |s| && !IsDigit(s[i]) && s[i] != '_' && s[i] != '+' && s[i] != '-' && !IsPySpace(s[i])
    ensures PyInt(s) == None
  {
    StripKeeps(s, i);
    var t := Strip(s);
    var j :| 0 <= j < |t| && t[j] == s[i];
    if t[0] == '-' || t[0] == '+' { assert t[1..][j - 1] == s[i]; }
  }

  // White space alone is no number.
  lemma {:induction false} SpacesAreNoNumber(s: string)
    requires AllSpaces(s)
    ensures Strip(s) == [] && PyInt(s) == None
  {
    if s != [] { SpacesAreNoNumber(s[1..]); }
  }

  // ------------------------------------------------------ what int() accepts at all

  // Digits in groups: every piece between underscores is a number of its own.
  predicate AreDigitTexts(parts: seq<string>) { forall i | 0 <= i < |parts| :: parts[i] != "" && AllDigits(parts[i]) }

  lemma {:induction false} AllTexts(head: string, rest: seq<string>)
    ensures AreDigitTexts([head] + rest) <==> head != "" && AllDigits(head) && AreDigitTexts(rest)
  {
    var all := [head] + rest;
    assert all[0] == head;
    assert forall i | 0 <= i < |rest| :: all[i + 1] == rest[i];
  }

  lemma {:induction false} GroupedFirst(s: string, k: nat)
    requires k < |s| && s[k] == '_' && Without(s[..k], '_')
    ensures GroupedDigits(s) <==> k > 0 && AllDigits(s[..k]) && GroupedDigits(s[k + 1..])
  {
    var head, rest := s[..k], s[k + 1..];
    assert forall i | 0 <= i < |rest| :: rest[i] == s[k + 1 + i];
    assert forall i | 0 <= i < k :: head[i] == s[i];
    if GroupedDigits(s) {
      assert rest != [] && rest[0] == s[k + 1] && rest[|rest| - 1] == s[|s| - 1];
    }
    if k > 0 && AllDigits(head) && GroupedDigits(rest) {
      assert s[k + 1] == rest[0] && s[|s| - 1] == rest[|rest| - 1];
      forall i | 0 <= i < |s| ensures IsDigit(s[i]) || (s[i] == '_' && i + 1 < |s| && s[i + 1] != '_') {
        if i > k { assert s[i] == rest[i - k - 1]; }
      }
    }
  }

  // Underscores may stand between digits only, and one at a time.
  lemma {:induction false} GroupedIff(s: string)
    ensures GroupedDigits(s) <==> AreDigitTexts(Split(s, '_'))
    decreases |s|
  {
    var k := IndexOf(s, '_');
    if k == |s| {
      AllTexts(s, []);
      assert [s] + [] == [s];
      if GroupedDigits(s) { assert forall i | 0 <= i < |s| :: s[i] != '_'; }
    } else {
      GroupedFirst(s, k);
      GroupedIff(s[k + 1..]);
      AllTexts(s[..k], Split(s[k + 1..], '_'));
    }
  }

  lemma {:induction false} StripShape(s: string) returns (before: string, after: string)
    ensures AllSpaces(before) && AllSpaces(after) && s == before + (Strip(s) + after)
    ensures Strip(s) != [] ==> !IsPySpace(Strip(s)[0])
    decreases |s|
  {
    if s == [] {
      before, after := [], [];
    } else if IsPySpace(s[0]) {
      before, after := StripShape(s[1..]);
      before := [s[0]] + before;
    } else if IsPySpace(s[|s| - 1]) {
      before, after := StripShape(s[..|s| - 1]);
      after := after + [s[|s| - 1]];
      assert s == s[..|s| - 1] + [s[|s| - 1]];
    } else {
      before, after := [], [];
    }
  }

  // Every text int() accepts: white space, at most one sign, grouped digits and white
  // space.
  lemma {:induction false} PyIntShape(s: string) returns (before: string, sign: string, digits: string, after: string)
    requires PyInt(s).Some?
    ensures AllSpaces(before) && AllSpaces(after) && (sign == "" || sign == "+" || sign == "-")
    ensures s == before + (sign + digits + after) && AreDigitTexts(Split(digits, '_'))
  {
    before, after := StripShape(s);
    var t := Strip(s);
    if t[0] == '-' || t[0] == '+' {
      sign, digits := [t[0]], t[1..];
    } else {
      sign, digits := "", t;
    }
    assert t == sign + digits;
    GroupedIff(digits);
  }

  // ------------------------------------------------------------------ str.replace

  lemma {:induction false} RemoveHere(pat: string, b: string)
    requires pat != []
    ensures Remove(pat + b, pat) == Remove(b, pat)
  {
    assert (pat + b)[..|pat|] == pat && (pat + b)[|pat|..] == b;
  }

  lemma {:induction false} RemoveSkips(c: char, s: string, pat: string)
    requires pat != [] && c != pat[0] && |s| >= |pat|
    ensures Remove([c] + s, pat) == [c] + Remove(s, pat)
  {
    assert ([c] + s)[..|pat|][0] == c && ([c] + s)[1..] == s;
  }

  // The first occurrence goes, and the rest is treated the same way.
  lemma {:induction false} RemoveOne(a: string, pat: string, b: string)
    requires pat != [] && Without(a, pat[0])
    ensures Remove(a + (pat + b), pat) == a + Remove(b, pat)
  {
    if a == [] {
      assert a + (pat + b) == pat + b;
      RemoveHere(pat, b);
    } else {
      assert a + (pat + b) == [a[0]] + (a[1..] + (pat + b));
      RemoveSkips(a[0], a[1..] + (pat + b), pat);
      RemoveOne(a[1..], pat, b);
    }
  }

  // ------------------------------------------------------------------- str of bytes

  // Reading the escapes of a bytes literal back.
  function Unescape(t: string): string
    decreases |t|
  {
    if t == [] then []
    else if t[0] != '\\' || |t| == 1 then [t[0]] + Unescape(t[1..])
    else if t[1] == 't' then [9 as char] + Unescape(t[2..])
    else if t[1] == 'n' then [10 as char] + Unescape(t[2..])
    else if t[1] == 'r' then [13 as char] + Unescape(t[2..])
    else if t[1] == 'x' && |t| >= 4 && IsHex(t[2]) && IsHex(t[3])
    then [(16 * HexDigit(t[2]) + HexDigit(t[3])) as char] + Unescape(t[4..])
    else [t[1]] + Unescape(t[2..])
  }

  predicate AreBytes(s: string) { forall i | 0 <= i < |s| :: s[i] as int < 256 }

  lemma {:induction false} UnescapeTwo(c: char, rest: string)
    requires c != 'x'
    ensures Unescape(['\\', c] + rest)
            == [if c == 't' then 9 as char else if c == 'n' then 10 as char else if c == 'r' then 13 as char else c] + Unescape(rest)
  {
    assert (['\\', c] + rest)[2..] == rest;
  }

  lemma {:induction false} UnescapeHex(h: nat, l: nat, rest: string)
    requires h < 16 && l < 16
    ensures Unescape(['\\', 'x', HexLower(h), HexLower(l)] + rest) == [(16 * h + l) as char] + Unescape(rest)
  {
    HexLowerValue(h);
    HexLowerValue(l);
    assert (['\\', 'x', HexLower(h), HexLower(l)] + rest)[4..] == rest;
  }

  lemma {:induction false} UnescapeSpecial(c: char, quote: char, rest: string)
    requires c == '\t' || c == '\n' || c == '\r' || c == quote || c == '\\'
    requires quote == '\'' || quote == '\"'
    ensures Unescape(EscapeByte(c, quote) + rest) == [c] + Unescape(rest)
  {
    var t := EscapeByte(c, quote);
    assert t == ['\\', t[1]];
    UnescapeTwo(t[1], rest);
  }

  lemma {:induction false} UnescapeOther(c: char, rest: string)
    requires c as int < 256
    ensures Unescape("\\x" + [HexLower(c as int / 16 % 16), HexLower(c as int % 16)] + rest) == [c] + Unescape(rest)
  {
    var h, l := c as int / 16 % 16, c as int % 16;
    assert 16 * h + l == c as int;
    UnescapeHex(h, l, rest);
    assert "\\x" + [HexLower(h), HexLower(l)] == ['\\', 'x', HexLower(h), HexLower(l)];
  }

  lemma {:induction false} UnescapeByte(c: char, quote: char, rest: string)
    requires c as int < 256 && (quote == '\'' || quote == '\"')
    ensures Unescape(EscapeByte(c, quote) + rest) == [c] + Unescape(rest)
  {
    if c == quote || c == '\\' || c == '\t' || c == '\n' || c == '\r' {
      UnescapeSpecial(c, quote, rest);
    } else if c < ' ' || c >= 0x7F as char {
      UnescapeOther(c, rest);
    } else {
      assert ([c] + rest)[1..] == rest;
    }
  }

  // The text of a bytes object says what the bytes are, and it is printable.
  lemma {:induction false} UnescapeBytes(s: string, quote: char)
    requires AreBytes(s) && (quote == '\'' || quote == '\"')
    ensures Unescape(EscapeBytes(s, quote)) == s
  {
    if s != [] {
      UnescapeBytes(s[1..], quote);
      UnescapeByte(s[0], quote, EscapeBytes(s[1..], quote));
    }
  }

  lemma {:induction false} BytePrintable(c: char, quote: char)
    requires c as int < 256 && (quote == '\'' || quote == '\"')
    ensures forall i | 0 <= i < |EscapeByte(c, quote)| :: 32 <= EscapeByte(c, quote)[i] as int < 127
  {
  }

  lemma {:induction false} EscapePrintable(s: string, quote: char)
    requires AreBytes(s) && (quote == '\'' || quote == '\"')
    ensures forall i | 0 <= i < |EscapeBytes(s, quote)| :: 32 <= EscapeBytes(s, quote)[i] as int < 127
  {
    if s != [] {
      BytePrintable(s[0], quote);
      EscapePrintable(s[1..], quote);
    }
  }

  // Only the quote, backslashes and what is not printable are escaped, with a letter
  // where there is one.
  lemma {:induction false} EscapeLength(c: char, quote: char)
    requires quote == '\'' || quote == '\"'
    ensures |EscapeByte(c, quote)|
            == if c == quote || c == '\\' || c as int == 9 || c as int == 10 || c as int == 13 then 2
               else if 32 <= c as int < 127 then 1
               else 4
  {
  }

  // str() of a bytes object: b, quotes that are double exactly when the bytes have a
  // single quote and no double one, and between them text that means the bytes.
  lemma {:induction false} ReprMeans(s: string)
    requires AreBytes(s)
    ensures var r := BytesRepr(s);
            && |r| >= 3 && r[0] == 'b' && r[1] == r[|r| - 1]
            && r[1] == (if '\'' in s && '\"' !in s then '\"' else '\'')
            && Unescape(r[2..|r| - 1]) == s
  {
    var quote := if '\'' in s && '\"' !in s then '\"' else '\'';
    var r := BytesRepr(s);
    assert r == ['b', quote] + (EscapeBytes(s, quote) + [quote]);
    assert r[2..|r| - 1] == EscapeBytes(s, quote);
    UnescapeBytes(s, quote);
  }
}
