// What ipv6AddressParse makes of texts beyond the well-formed addresses: upper case,
// misplaced colons, long groups and characters that mean nothing to it.
module Ipv6Texts {
  import opened Arithmetic
  import opened Options
  import opened Text
  import opened Ipv6
  import opened Ipv6Theorems

  // ----------------------------------------------------------------- upper and lower case

  // The letters A to F in lower case.
  function LowerChar(c: char): char { if 'A' <= c <= 'F' then (c as int + 32) as char else c }

  function Lower(text: string): (r: string)
    ensures |r| == |text| && forall i | 0 <= i < |text| :: r[i] == LowerChar(text[i])
  {
    if text == [] then [] else [LowerChar(text[0])] + Lower(text[1..])
  }

  lemma LowerDigit(c: char)
    ensures IsHex(LowerChar(c)) <==> IsHex(c)
    ensures IsHex(c) ==> HexDigit(LowerChar(c)) == HexDigit(c)
    ensures LowerChar(c) == ':' <==> c == ':'
  {
  }

  lemma {:induction false} ScanLower(s: Scan, text: string)
    ensures ScanText(s, Lower(text)) == ScanText(s, text)
    decreases |text|
  {
    if text != [] {
      LowerDigit(text[0]);
      assert Lower(text)[1..] == Lower(text[1..]);
      ScanLower(Step(s, text[0]), text[1..]);
    }
  }

  // Upper and lower case digits mean the same.
  lemma {:induction false} ParseLower(text: string)
    ensures Parse(Lower(text)) == Parse(text)
  {
    if text != [] {
      LowerDigit(text[0]);
      if |text| > 1 { LowerDigit(text[1]); }
      assert Lower(text)[1..] == Lower(text[1..]);
      ScanLower(START, text[1..]);
    }
    ScanLower(START, text);
  }

  // The digits the boards print, by their character codes.
  lemma HexLowerChars(d: nat)
    requires d < 16
    ensures HexLower(d) as int == if d < 10 then 48 + d else 87 + d
  {
  }

  // ------------------------------------------------------------------- misplaced colons

  // A text that starts with a single colon is refused.
  lemma SingleColonFirst(rest: string)
    requires rest == [] || rest[0] != ':'
    ensures Parse(":" + rest) == None
  {
  }

  // What the parse of a text of groups, "::" and more depends on.
  lemma {:induction false} ParseFromCompressed(left: seq<string>, rest: string)
    requires AreGroups(left) && |left| <= 6
    ensures var t := ScanText(Scan(Values(left), 0, false, Some(|left|)), rest);
            && (t.Scan? ==> |t.groups| <= 7 && (t.zero.Some? ==> t.zero.value <= |t.groups|))
            && Parse(Join(left, ':') + "::" + rest) == Finish(t)
  {
    var text := Join(left, ':') + "::" + rest;
    ScanBounds(Scan(Values(left), 0, false, Some(|left|)), rest);
    if left == [] {
      assert text[..2] == "::" && text[1..] == ":" + rest;
      ScanConcat(START, ":", rest);
      ScanOneChar(START, ':');
    } else {
      HexIsNoColon(left);
      ScanLeft(left);
      ScanConcat(START, Join(left, ':') + "::", rest);
    }
  }

  // The state after some groups on the right of "::" and a colon.
  lemma {:induction false} ScanRightColon(left: seq<string>, mid: seq<string>)
    requires AreGroups(left) && AreGroups(mid) && mid != [] && |left| + |mid| <= 7
    ensures ScanText(Scan(Values(left), 0, false, Some(|left|)), Join(mid, ':') + ":")
            == Scan(Values(left) + Values(mid), 0, false, Some(|left|))
  {
    var s := Scan(Values(left), 0, false, Some(|left|));
    ScanJoined(s, mid);
    AllAfterJoined(s, Values(mid));
    ScanConcat(s, Join(mid, ':'), ":");
    ScanOneChar(AfterJoined(s, Values(mid)), ':');
  }

  // A second "::" is refused while there is room for another group.
  lemma {:induction false} SecondCompressionRejected(left: seq<string>, mid: seq<string>, rest: string)
    requires AreGroups(left) && AreGroups(mid) && |left| + |mid| <= 6
    ensures Parse(Join(left, ':') + "::" + (Join(mid, ':') + "::" + rest)) == None
  {
    var s := Scan(Values(left), 0, false, Some(|left|));
    ParseFromCompressed(left, Join(mid, ':') + "::" + rest);
    var colon := if mid == [] then "" else ":";
    var before := Join(mid, ':') + colon;
    var t := Scan(Values(left) + Values(mid), 0, false, Some(|left|));
    if mid == [] {
      assert Values(left) + Values(mid) == Values(left);
      assert before == "";
    } else {
      ScanRightColon(left, mid);
    }
    var after := if mid == [] then ":" + rest else rest;
    SplitColons(Join(mid, ':'), rest);
    assert Join(mid, ':') + "::" + rest == before + (":" + after);
    ScanConcat(s, before, ":" + after);
    ScanConcat(t, ":", after);
    ScanOneChar(t, ':');
    MalformedStays(after);
  }

  lemma SplitColons(a: string, b: string)
    ensures a + "::" + b == a + ":" + (":" + b) && (a == "" ==> a + "::" + b == ":" + (":" + b))
  {
    assert "::" == ":" + ":";
  }

  // A colon at the end of a text without "::" is refused, unless it comes after the
  // eighth group, where it is skipped.
  lemma {:induction false} FinalColon(gs: seq<string>)
    requires AreGroups(gs) && gs != []
    ensures Parse(Join(gs, ':') + ":") == if |gs| <= 7 then None else Parse(Join(gs, ':'))
  {
    HexIsNoColon(gs);
    ScanConcat(START, Join(gs, ':'), ":");
    if |gs| <= 7 {
      ScanJoined(START, gs);
      ColonStores(Values(gs));
      ScanOneChar(AfterJoined(START, Values(gs)), ':');
    } else {
      ScanOverfull(START, gs);
      ScanOneChar(ScanText(START, Join(gs, ':')), ':');
    }
  }

  // A colon at the end of a text with groups on the right of "::" is refused.
  lemma {:induction false} FinalColonCompressed(left: seq<string>, right: seq<string>)
    requires AreGroups(left) && AreGroups(right) && |left| <= 6 && right != []
    ensures Parse(CompressedText(left, right) + ":") == None
  {
    var s := Scan(Values(left), 0, false, Some(|left|));
    ParseFromCompressed(left, Join(right, ':') + ":");
    assert CompressedText(left, right) + ":" == Join(left, ':') + "::" + (Join(right, ':') + ":");
    if |left| + |right| <= 7 {
      ScanRightColon(left, right);
    } else {
      ScanOverfull(s, right);
      ScanConcat(s, Join(right, ':'), ":");
      ScanOneChar(ScanText(s, Join(right, ':')), ':');
    }
  }

  // --------------------------------------------------------- long groups, other characters

  // A value with more digits shifted in.
  function Onto(v: Group, g: string): Group
    requires forall i | 0 <= i < |g| :: IsHex(g[i])
  {
    if g == [] then v else (Onto(v, g[..|g| - 1]) * 16 + HexDigit(g[|g| - 1])) % 0x1_0000
  }

  lemma {:induction false} ScanOnto(s: Scan, g: string)
    requires s.Scan? && forall i | 0 <= i < |g| :: IsHex(g[i])
    ensures ScanText(s, g) == s.(value := Onto(s.value, g), digit := s.digit || g != [])
  {
    if g != [] {
      var k := |g| - 1;
      ScanOnto(s, g[..k]);
      assert g == g[..k] + [g[k]];
      ScanConcat(s, g[..k], [g[k]]);
      ScanOneChar(ScanText(s, g[..k]), g[k]);
    }
  }

  function Scaled(v: nat, k: nat): nat { if k == 0 then v else 16 * Scaled(v, k - 1) }

  // Every digit multiplies what came before by sixteen.
  lemma {:induction false} OntoShift(v: Group, g: string)
    requires forall i | 0 <= i < |g| :: IsHex(g[i])
    ensures Onto(v, g) == (Scaled(v, |g|) + HexValue(g)) % 0x1_0000
  {
    if g != [] {
      var k := |g| - 1;
      OntoShift(v, g[..k]);
      ModOfShifted(Scaled(v, k) + HexValue(g[..k]), HexDigit(g[k]));
    }
  }

  // Four digits decide the value, whatever came before them.
  lemma {:induction false} FourDigits(v: Group, g: string)
    requires |g| == 4 && forall i | 0 <= i < 4 :: IsHex(g[i])
    ensures Onto(v, g) == HexValue(g)
  {
    HexBound(g, 4);
    OntoShift(v, g);
    SixteenBits(v, HexValue(g));
  }

  lemma {:induction false} SixteenBits(v: nat, low: nat)
    requires low < 0x1_0000
    ensures (Scaled(v, 4) + low) % 0x1_0000 == low
  {
    assert Scaled(v, 4) == 16 * Scaled(v, 3) && Scaled(v, 2) == 16 * Scaled(v, 1);
    DivModUnique(Scaled(v, 4) + low, 0x1_0000, v, low);
  }

  // Of a group of more than four digits the last four count.
  lemma {:induction false} LongGroup(before: string, digits: string, last: string, after: string)
    requires |last| == 4 && forall i | 0 <= i < 4 :: IsHex(last[i])
    requires forall i | 0 <= i < |digits| :: IsHex(digits[i])
    ensures Parse(before + digits + last + after) == Parse(before + last + after)
  {
    var long, short := before + digits + last + after, before + last + after;
    LongGroupScan(before, digits, last, after);
    if before != [] {
      assert long[1..] == before[1..] + digits + last + after && short[1..] == before[1..] + last + after;
      LongGroupScan(before[1..], digits, last, after);
    }
  }

  lemma {:induction false} LongGroupScan(before: string, digits: string, last: string, after: string)
    requires |last| == 4 && forall i | 0 <= i < 4 :: IsHex(last[i])
    requires forall i | 0 <= i < |digits| :: IsHex(digits[i])
    ensures ScanText(START, before + digits + last + after) == ScanText(START, before + last + after)
  {
    var s := ScanText(START, before);
    ScanThree(before, digits, last);
    ScanConcat(START, before + digits + last, after);
    ScanConcat(START, before, last);
    ScanConcat(START, before + last, after);
    if s.Scan? {
      ScanOnto(s, digits);
      ScanOnto(s, last);
      ScanOnto(ScanText(s, digits), last);
      FourDigits(s.value, last);
      FourDigits(Onto(s.value, digits), last);
    } else {
      MalformedStays(digits);
      MalformedStays(last);
    }
  }

  lemma {:induction false} ScanThree(a: string, b: string, c: string)
    ensures ScanText(START, a + b + c) == ScanText(ScanText(ScanText(START, a), b), c)
  {
    ScanConcat(START, a + b, c);
    ScanConcat(START, a, b);
  }

  predicate Counts(c: char) { IsHex(c) || c == ':' }

  // The digits and colons of a text.
  function Counting(text: string): string {
    if text == [] then [] else (if Counts(text[0]) then [text[0]] else []) + Counting(text[1..])
  }

  lemma {:induction false} ScanCounting(s: Scan, text: string)
    ensures ScanText(s, Counting(text)) == ScanText(s, text)
    decreases |text|
  {
    if text != [] {
      ScanCounting(Step(s, text[0]), text[1..]);
      if Counts(text[0]) {
        assert Counting(text)[0] == text[0] && Counting(text)[1..] == Counting(text[1..]);
      } else {
        assert Counting(text) == Counting(text[1..]) && Step(s, text[0]) == s;
      }
    }
  }

  // All other characters are skipped; only the test for a leading colon sees them.
  lemma {:induction false} OthersSkipped(text: string)
    requires text != [] ==> Counts(text[0])
    requires |text| > 1 && text[0] == ':' ==> Counts(text[1])
    ensures Parse(Counting(text)) == Parse(text)
  {
    ScanCounting(START, text);
    if text != [] {
      ScanCounting(START, text[1..]);
      assert Counting(text) == [text[0]] + Counting(text[1..]);
      if |text| > 1 && text[0] == ':' { assert Counting(text[1..])[0] == text[1]; }
      if |text| == 1 { assert Counting(text[1..]) == []; }
    }
  }
}
