// What ipv6AddressParse makes of well-formed addresses (section 2.2 of RFC 4291),
// and the round trip through PrintIPAddress.
module Ipv6Theorems {
  import opened Arithmetic
  import opened Options
  import opened Text
  import opened Ipv6

  lemma {:induction false} ScanConcat(s: Scan, a: string, b: string)
    ensures ScanText(s, a + b) == ScanText(ScanText(s, a), b)
    decreases |a|
  {
    if a == [] {
      assert a + b == b;
    } else {
      assert (a + b)[1..] == a[1..] + b;
      ScanConcat(Step(s, a[0]), a[1..], b);
    }
  }

  lemma ScanOneChar(s: Scan, c: char)
    ensures ScanText(s, [c]) == Step(s, c)
  {
    assert [c][1..] == [];
  }

  // Reading the digits of one group.
  lemma {:induction false} ScanGroup(s: Scan, g: string)
    requires s.Scan? && !s.digit && s.value == 0 && IsGroup(g)
    ensures HexValue(g) < 0x1_0000
    ensures ScanText(s, g) == s.(value := HexValue(g), digit := true)
  {
    GroupBound(g);
    ScanDigits(s, g);
  }

  lemma {:induction false} ScanDigits(s: Scan, g: string)
    requires s.Scan? && !s.digit && s.value == 0
    requires |g| <= 4 && forall i | 0 <= i < |g| :: IsHex(g[i])
    ensures HexValue(g) < 0x1_0000
    ensures ScanText(s, g) == s.(value := HexValue(g), digit := g != [])
  {
    HexBound(g, 4);
    if g != [] {
      var k := |g| - 1;
      ScanDigits(s, g[..k]);
      assert g == g[..k] + [g[k]];
      ScanConcat(s, g[..k], [g[k]]);
      ScanOneChar(ScanText(s, g[..k]), g[k]);
      assert HexValue(g) == HexValue(g[..k]) * 16 + HexDigit(g[k]);
    }
  }

  // A group and the colon after it, while there is room.
  lemma {:induction false} ScanGroupColon(s: Scan, g: string)
    requires s.Scan? && !s.digit && s.value == 0 && IsGroup(g) && |s.groups| < 7
    ensures HexValue(g) < 0x1_0000
    ensures ScanText(s, g + ":") == s.(groups := s.groups + [HexValue(g)])
  {
    ScanGroup(s, g);
    ScanConcat(s, g, ":");
    ScanOneChar(ScanText(s, g), ':');
  }

  // Groups joined by colons: all but the last are stored, the last is pending.
  function AfterJoined(s: Scan, vs: seq<Group>): Scan
    requires s.Scan? && vs != []
  {
    s.(groups := s.groups + vs[..|vs| - 1], value := vs[|vs| - 1], digit := true)
  }

  lemma {:induction false} AfterJoinedStep(s: Scan, vs: seq<Group>)
    requires s.Scan? && |vs| > 1
    ensures AfterJoined(s.(groups := s.groups + [vs[0]]), vs[1..]) == AfterJoined(s, vs)
  {
    assert s.groups + [vs[0]] + vs[1..][..|vs| - 2] == s.groups + vs[..|vs| - 1];
  }

  lemma {:induction false} ScanJoined(s: Scan, gs: seq<string>)
    requires s.Scan? && !s.digit && s.value == 0 && AreGroups(gs) && gs != []
    requires |s.groups| + |gs| <= 8
    ensures ScanText(s, Join(gs, ':')) == AfterJoined(s, Values(gs))
    decreases |gs|
  {
    if |gs| == 1 {
      ScanGroup(s, gs[0]);
      assert s.groups + Values(gs)[..0] == s.groups;
    } else {
      ScanGroupColon(s, gs[0]);
      var s' := ScanText(s, gs[0] + ":");
      ScanJoined(s', gs[1..]);
      ScanConcat(s, gs[0] + ":", Join(gs[1..], ':'));
      assert Values(gs)[1..] == Values(gs[1..]);
      AfterJoinedStep(s, Values(gs));
    }
  }

  lemma {:induction false} JoinStart(gs: seq<string>, sep: char)
    requires gs != [] && gs[0] != ""
    ensures Join(gs, sep) != "" && Join(gs, sep)[0] == gs[0][0]
  {
  }

  lemma HexIsNoColon(gs: seq<string>)
    requires AreGroups(gs) && gs != []
    ensures Join(gs, ':') != "" && Join(gs, ':')[0] != ':'
  {
    assert IsGroup(gs[0]);
    JoinStart(gs, ':');
  }

  // ------------------------------------------------------------------ full addresses

  // A text of fewer than eight groups without "::" is refused.
  lemma {:induction false} TooFewGroupsRejected(gs: seq<string>)
    requires AreGroups(gs) && |gs| < 8
    ensures Parse(Join(gs, ':')) == None
  {
    if gs != [] {
      HexIsNoColon(gs);
      ScanJoined(START, gs);
      var vs := Values(gs);
      assert [] + vs[..|gs| - 1] == vs[..|gs| - 1];
    }
  }

  // The hexadecimal digits of a text.
  function HexOf(text: string): (d: string)
    ensures forall i | 0 <= i < |d| :: IsHex(d[i])
  {
    if text == [] then []
    else HexOf(text[..|text| - 1]) + if IsHex(text[|text| - 1]) then [text[|text| - 1]] else []
  }

  lemma {:induction false} HexOfAppend(a: string, b: string)
    ensures HexOf(a + b) == HexOf(a) + HexOf(b)
  {
    if b == [] {
      assert a + b == a;
    } else {
      var n := |b| - 1;
      HexOfAppend(a, b[..n]);
      assert (a + b)[..|a + b| - 1] == a + b[..n];
    }
  }

  lemma {:induction false} HexOfGroup(g: string)
    requires forall i | 0 <= i < |g| :: IsHex(g[i])
    ensures HexOf(g) == g
  {
    if g != [] {
      HexOfGroup(g[..|g| - 1]);
      assert g == g[..|g| - 1] + [g[|g| - 1]];
    }
  }

  lemma {:induction false} HexOfColons(c: string)
    requires c == ":" || c == "::"
    ensures HexOf(c) == []
  {
    if c == "::" {
      assert c[..1] == ":";
      HexOfColons(":");
    } else {
      assert c[..0] == [];
    }
  }

  // The digits of all groups, one after the other.
  function Concat(gs: seq<string>): string { if gs == [] then [] else gs[0] + Concat(gs[1..]) }

  lemma {:induction false} ConcatAppend(a: seq<string>, b: seq<string>)
    ensures Concat(a + b) == Concat(a) + Concat(b)
  {
    if a == [] {
      assert a + b == b;
    } else {
      assert (a + b)[1..] == a[1..] + b;
      ConcatAppend(a[1..], b);
    }
  }

  lemma {:induction false} HexOfJoined(gs: seq<string>)
    requires AreGroups(gs)
    ensures HexOf(Join(gs, ':')) == Concat(gs)
  {
    if gs != [] {
      assert IsGroup(gs[0]);
      HexOfGroup(gs[0]);
      if |gs| == 1 {
        assert gs[1..] == [];
      } else {
        HexOfJoined(gs[1..]);
        HexOfParts(gs[0], ":", Join(gs[1..], ':'));
      }
    }
  }

  lemma {:induction false} HexOfParts(a: string, c: string, b: string)
    requires c == ":" || c == "::"
    ensures HexOf(a + c + b) == HexOf(a) + HexOf(b)
  {
    HexOfColons(c);
    HexOfAppend(a, c);
    HexOfAppend(a + c, b);
    assert HexOf(a) + [] == HexOf(a);
  }

  // Once seven groups are stored, all further digits go into the last one, which
  // keeps the lowest sixteen bits, and every other character is skipped.
  lemma {:induction false} ScanWhenFull(s: Scan, text: string)
    requires s.Scan? && |s.groups| == 7 && !s.digit && s.value == 0
    ensures ScanText(s, text) == s.(value := HexValue(HexOf(text)) % 0x1_0000, digit := HexOf(text) != [])
  {
    if text != [] {
      var n := |text| - 1;
      ScanWhenFull(s, text[..n]);
      assert text == text[..n] + [text[n]];
      ScanConcat(s, text[..n], [text[n]]);
      ScanOneChar(ScanText(s, text[..n]), text[n]);
      StepWhenFull(s, HexOf(text[..n]), text[n]);
      assert HexOf(text) == HexOf(text[..n]) + if IsHex(text[n]) then [text[n]] else [];
    }
  }

  // One more character when seven groups are stored and digits d came after them.
  lemma {:induction false} StepWhenFull(s: Scan, d: string, c: char)
    requires s.Scan? && |s.groups| == 7 && forall i | 0 <= i < |d| :: IsHex(d[i])
    ensures var d' := d + if IsHex(c) then [c] else [];
            Step(s.(value := HexValue(d) % 0x1_0000, digit := d != []), c)
            == s.(value := HexValue(d') % 0x1_0000, digit := d' != [])
  {
    if IsHex(c) {
      ShiftDigit(d, c);
    } else {
      assert d + [] == d;
    }
  }

  lemma {:induction false} ShiftDigit(d: string, c: char)
    requires (forall i | 0 <= i < |d| :: IsHex(d[i])) && IsHex(c)
    ensures HexValue(d + [c]) == HexValue(d) * 16 + HexDigit(c)
    ensures HexValue(d + [c]) % 0x1_0000 == (HexValue(d) % 0x1_0000 * 16 + HexDigit(c)) % 0x1_0000
  {
    assert (d + [c])[..|d|] == d;
    ModOfShifted(HexValue(d), HexDigit(c));
  }

  lemma {:induction false} ModOfShifted(v: nat, d: nat)
    ensures (v * 16 + d) % 0x1_0000 == (v % 0x1_0000 * 16 + d) % 0x1_0000
  {
    var q: int := v / 0x1_0000;
    DivModShift(v * 16 + d, 0x1_0000, 16 * q);
    assert v * 16 + d - 16 * q * 0x1_0000 == v % 0x1_0000 * 16 + d;
  }

  // The address that seven groups and the digits after them make.
  function Overfull(first: seq<string>, digits: string): (r: seq<Group>)
    requires AreGroups(first) && forall i | 0 <= i < |digits| :: IsHex(digits[i])
    ensures |r| == |first| + 1
  {
    Values(first) + [HexValue(digits) % 0x1_0000]
  }

  // Seven groups, a colon and anything after it.
  lemma {:induction false} ParseAfterSeven(first: seq<string>, rest: string)
    requires AreGroups(first) && |first| == 7
    ensures Parse(Join(first, ':') + ":" + rest)
            == if HexOf(rest) == [] then None else Some(Overfull(first, HexOf(rest)))
  {
    var joined := Join(first, ':');
    var s := SevenStored(first);
    HexIsNoColon(first);
    ScanConcat(START, joined + ":", rest);
    ScanWhenFull(s, rest);
  }

  lemma {:induction false} SevenStored(first: seq<string>) returns (s: Scan)
    requires AreGroups(first) && |first| == 7
    ensures s == Scan(Values(first), 0, false, None) && ScanText(START, Join(first, ':') + ":") == s
  {
    s := Scan(Values(first), 0, false, None);
    ScanJoined(START, first);
    ColonStores(Values(first));
    ScanConcat(START, Join(first, ':'), ":");
    ScanOneChar(AfterJoined(START, Values(first)), ':');
  }

  lemma {:induction false} JoinAppend(a: seq<string>, b: seq<string>)
    requires a != [] && b != []
    ensures Join(a + b, ':') == Join(a, ':') + ":" + Join(b, ':')
  {
    assert (a + b)[1..] == a[1..] + b;
    if |a| > 1 { JoinAppend(a[1..], b); }
  }

  // A text of groups without "::" is accepted if and only if there are at least
  // eight.  Eight keep their values; with more, the digits from the eighth group on
  // are read as one number modulo 65536.
  lemma {:induction false} ParseFull(gs: seq<string>)
    requires AreGroups(gs)
    ensures Parse(Join(gs, ':'))
            == if |gs| < 8 then None
               else if |gs| == 8 then Some(Values(gs))
               else OverfullAddress(gs)
  {
    if |gs| < 8 {
      TooFewGroupsRejected(gs);
    } else {
      var first, rest := gs[..7], gs[7..];
      assert gs == first + rest;
      JoinAppend(first, rest);
      ParseAfterSeven(first, Join(rest, ':'));
      HexOfJoined(rest);
      ConcatShape(rest);
      if |gs| == 8 { EightGroups(gs); }
    }
  }

  function OverfullAddress(gs: seq<string>): Option<seq<Group>>
    requires AreGroups(gs) && |gs| >= 7
  {
    ConcatShape(gs[7..]);
    Some(Overfull(gs[..7], Concat(gs[7..])))
  }

  lemma {:induction false} ConcatShape(gs: seq<string>)
    requires AreGroups(gs)
    ensures forall i | 0 <= i < |Concat(gs)| :: IsHex(Concat(gs)[i])
    ensures gs != [] ==> Concat(gs) != []
  {
    if gs != [] {
      assert IsGroup(gs[0]);
      ConcatShape(gs[1..]);
    }
  }

  lemma {:induction false} EightGroups(gs: seq<string>)
    requires AreGroups(gs) && |gs| == 8
    ensures OverfullAddress(gs) == Some(Values(gs))
  {
    var last := gs[7..];
    assert last == [gs[7]] && last[1..] == [];
    assert Concat(last) == gs[7];
    GroupBound(gs[7]);
    assert Values(gs) == Values(gs[..7]) + [Values(gs)[7]];
  }

  // -------------------------------------------------------------- compressed addresses

  // The left part and the two colons after it.
  lemma {:induction false} ScanLeft(left: seq<string>)
    requires AreGroups(left) && 1 <= |left| <= 6
    ensures ScanText(START, Join(left, ':') + "::") == Scan(Values(left), 0, false, Some(|left|))
  {
    ScanJoined(START, left);
    ColonStores(Values(left));
    ScanConcat(START, Join(left, ':'), "::");
    ScanTwoChars(AfterJoined(START, Values(left)), ':', ':');
  }

  // The colon after joined groups stores the last of them.
  lemma {:induction false} ColonStores(vs: seq<Group>)
    requires 1 <= |vs| <= 7
    ensures Step(AfterJoined(START, vs), ':') == Scan(vs, 0, false, None)
  {
    assert [] + vs[..|vs| - 1] + [vs[|vs| - 1]] == vs;
  }

  lemma {:induction false} ScanTwoChars(s: Scan, c: char, d: char)
    ensures ScanText(s, [c, d]) == Step(Step(s, c), d)
  {
    assert [c, d][1..] == [d];
    ScanOneChar(Step(s, c), d);
  }

  lemma {:induction false} InsertBetween(lv: seq<Group>, rv: seq<Group>)
    requires |lv| + |rv| <= 8
    ensures Insert(lv + rv, |lv|) == lv + Zeros(8 - |lv| - |rv|) + rv
  {
    assert (lv + rv)[..|lv|] == lv && (lv + rv)[|lv|..] == rv;
  }

  lemma {:induction false} AllAfterJoined(s: Scan, vs: seq<Group>)
    requires s.Scan? && vs != []
    ensures AllGroups(AfterJoined(s, vs)) == s.groups + vs
  {
    assert vs == vs[..|vs| - 1] + [vs[|vs| - 1]];
  }

  // What is left to do once "::" has been read at position |left|.
  lemma {:induction false} FinishRight(left: seq<string>, right: seq<string>)
    requires AreGroups(left) && AreGroups(right) && |left| + |right| <= 7 && |left| <= 6
    ensures var s := ScanText(Scan(Values(left), 0, false, Some(|left|)), Join(right, ':'));
            && s.Scan? && s.zero == Some(|left|) && |left| <= |s.groups| <= 7
            && Finish(s) == Some(Expanded(left, right))
  {
    var s0 := Scan(Values(left), 0, false, Some(|left|));
    if right != [] {
      ScanJoined(s0, right);
      AllAfterJoined(s0, Values(right));
    }
    FinishInsert(ScanText(s0, Join(right, ':')), Values(left), Values(right));
  }

  lemma {:induction false} FinishInsert(s: Scan, lv: seq<Group>, rv: seq<Group>)
    requires s.Scan? && s.zero == Some(|lv|) && |lv| + |rv| <= 7 && |lv| <= 6
    requires s.digit <==> rv != []
    requires AllGroups(s) == lv + rv && |lv| <= |s.groups| < 7
    ensures Finish(s) == Some(lv + Zeros(8 - |lv| - |rv|) + rv)
  {
    InsertBetween(lv, rv);
  }

  // The left groups, zero groups and the right groups, eight in all.
  function Expanded(left: seq<string>, right: seq<string>): seq<Group>
    requires AreGroups(left) && AreGroups(right) && |left| + |right| <= 8
  {
    Values(left) + Zeros(8 - |left| - |right|) + Values(right)
  }

  function CompressedText(left: seq<string>, right: seq<string>): string {
    Join(left, ':') + "::" + Join(right, ':')
  }

  // The text `left::right` of at most seven groups stands for the left groups, zero
  // groups and the right groups.
  lemma {:induction false} ParseCompressed(left: seq<string>, right: seq<string>)
    requires AreGroups(left) && AreGroups(right) && |left| + |right| <= 7 && |left| <= 6
    ensures Parse(CompressedText(left, right)) == Some(Expanded(left, right))
  {
    var text := CompressedText(left, right);
    FinishRight(left, right);
    if left == [] {
      assert text[..2] == "::" && text[1..] == ":" + Join(right, ':');
      ScanConcat(START, ":", Join(right, ':'));
      ScanOneChar(START, ':');
    } else {
      HexIsNoColon(left);
      ScanLeft(left);
      ScanConcat(START, Join(left, ':') + "::", Join(right, ':'));
    }
  }

  // Seven groups and a final "::", a valid way to write a single zero group, are
  // rejected: the second colon is skipped, as there is room for one more group only.
  lemma {:induction false} SevenThenZeroRejected(left: seq<string>)
    requires AreGroups(left) && |left| == 7
    ensures Parse(CompressedText(left, [])) == None
  {
    HexOfColons(":");
    assert CompressedText(left, []) == Join(left, ':') + ":" + ":";
    ParseAfterSeven(left, ":");
  }

  // Seven or more groups on the left: the "::" is no more than a separator.
  lemma {:induction false} ManyOnTheLeft(left: seq<string>, right: seq<string>)
    requires AreGroups(left) && AreGroups(right) && |left| >= 7 && |left| + |right| >= 8
    ensures Parse(CompressedText(left, right)) == OverfullAddress(left + right)
  {
    var first, more := left[..7], left[7..];
    assert left == first + more;
    var rest := AfterSeven(first, more, right);
    ConcatAppend(more, right);
    assert (left + right)[..7] == first && (left + right)[7..] == more + right;
    ConcatShape(more + right);
    ParseAfterSeven(first, rest);
  }

  // The text after seven groups and a colon, and its digits.
  lemma {:induction false} AfterSeven(first: seq<string>, more: seq<string>, right: seq<string>) returns (rest: string)
    requires AreGroups(first) && AreGroups(more) && AreGroups(right) && first != []
    ensures CompressedText(first + more, right) == Join(first, ':') + ":" + rest
    ensures HexOf(rest) == Concat(more) + Concat(right)
  {
    HexOfJoined(more);
    HexOfJoined(right);
    if more == [] {
      rest := ":" + Join(right, ':');
      assert first + more == first;
      RegroupOne(Join(first, ':'), Join(right, ':'));
      HexOfParts("", ":", Join(right, ':'));
    } else {
      rest := Join(more, ':') + "::" + Join(right, ':');
      JoinAppend(first, more);
      RegroupMore(Join(first, ':'), Join(more, ':'), Join(right, ':'));
      HexOfParts(Join(more, ':'), "::", Join(right, ':'));
    }
  }

  lemma {:induction false} RegroupOne(a: string, b: string)
    ensures a + "::" + b == a + ":" + (":" + b)
    ensures "" + ":" + b == ":" + b && HexOf("") == []
  {
    assert "::" == ":" + ":";
  }

  lemma {:induction false} RegroupMore(a: string, b: string, c: string)
    ensures a + ":" + b + "::" + c == a + ":" + (b + "::" + c)
  {
  }

  // An ill-formed address that is accepted: seven groups, "::" and one more group.
  lemma {:induction false} SevenThenOneAccepted(left: seq<string>, g: string)
    requires AreGroups(left) && |left| == 7 && IsGroup(g)
    ensures HexValue(g) < 0x1_0000
    ensures Parse(CompressedText(left, [g])) == Some(Values(left) + [HexValue(g)])
  {
    GroupBound(g);
    ManyOnTheLeft(left, [g]);
    assert AreGroups(left + [g]);
    EightGroups(left + [g]);
    assert Values(left + [g]) == Values(left) + [HexValue(g)];
  }

  lemma {:induction false} FullStaysFull(s: Scan, text: string)
    requires s.Scan? && |s.groups| == 7
    ensures ScanText(s, text).Scan? && |ScanText(s, text).groups| == 7 && ScanText(s, text).zero == s.zero
    decreases |text|
  {
    if text != [] { FullStaysFull(Step(s, text[0]), text[1..]); }
  }

  lemma {:induction false} ScanOverfull(s: Scan, gs: seq<string>)
    requires s.Scan? && !s.digit && s.value == 0 && AreGroups(gs) && |s.groups| <= 7 && |s.groups| + |gs| >= 8
    ensures var t := ScanText(s, Join(gs, ':')); t.Scan? && |t.groups| == 7 && t.zero == s.zero
    decreases |gs|
  {
    if |s.groups| == 7 {
      FullStaysFull(s, Join(gs, ':'));
    } else {
      ScanGroupColon(s, gs[0]);
      ScanOverfull(ScanText(s, gs[0] + ":"), gs[1..]);
      ScanConcat(s, gs[0] + ":", Join(gs[1..], ':'));
    }
  }

  lemma {:induction false} TooManyGroupsRejected(left: seq<string>, right: seq<string>)
    requires AreGroups(left) && AreGroups(right) && |left| <= 6 && |left| + |right| >= 8
    ensures Parse(CompressedText(left, right)) == None
  {
    var s := Scan(Values(left), 0, false, Some(|left|));
    ScanOverfull(s, right);
    var text := CompressedText(left, right);
    if left == [] {
      assert text[..2] == "::" && text[1..] == ":" + Join(right, ':');
      ScanConcat(START, ":", Join(right, ':'));
      ScanOneChar(START, ':');
    } else {
      HexIsNoColon(left);
      ScanLeft(left);
      ScanConcat(START, Join(left, ':') + "::", Join(right, ':'));
    }
  }

  // The texts `left::right` that are accepted.
  predicate Accepted(left: seq<string>, right: seq<string>) {
    (|left| <= 6 && |left| + |right| <= 7) || (|left| == 7 && right != []) || |left| >= 8
  }

  // What they are taken for.
  function Meaning(left: seq<string>, right: seq<string>): Option<seq<Group>>
    requires AreGroups(left) && AreGroups(right)
  {
    if !Accepted(left, right) then None
    else if |left| <= 6 then Some(Expanded(left, right))
    else OverfullAddress(left + right)
  }

  // Every text `left::right` of groups, with its value or its refusal.
  lemma ParseCompressedIff(left: seq<string>, right: seq<string>)
    requires AreGroups(left) && AreGroups(right)
    ensures Parse(CompressedText(left, right)).Some?
            <==> (|left| <= 6 && |left| + |right| <= 7) || (|left| == 7 && right != []) || |left| >= 8
    ensures Parse(CompressedText(left, right)) == Meaning(left, right)
  {
    if |left| <= 6 && |left| + |right| <= 7 {
      ParseCompressed(left, right);
    } else if |left| <= 6 {
      TooManyGroupsRejected(left, right);
    } else if |left| == 7 && right == [] {
      SevenThenZeroRejected(left);
    } else {
      ManyOnTheLeft(left, right);
    }
  }

  // Section 2.2 of RFC 4291 allows at most seven groups beside a "::".  The parser
  // accepts exactly these if and only if at most six groups stand on the left.
  lemma AsSpecifiedIff(left: seq<string>, right: seq<string>)
    requires AreGroups(left) && AreGroups(right)
    ensures (Parse(CompressedText(left, right)).Some? <==> |left| + |right| <= 7) <==> |left| <= 6
  {
    ParseCompressedIff(left, right);
  }

  lemma {:induction false} GroupsHaveNoNul(gs: seq<string>)
    requires AreGroups(gs)
    ensures Without(Join(gs, ':'), '\0')
  {
    assert forall i | 0 <= i < |gs| :: IsGroup(gs[i]) && Without(gs[i], '\0');
    JoinNoNul(gs);
  }

  // The C function on any text `left::right` of groups: the bytes of its meaning, or
  // a refusal that leaves the output alone.
  method ParseCompressedText(left: seq<string>, right: seq<string>, ipv6ip: array<Byte>) returns (r: int)
    requires AreGroups(left) && AreGroups(right)
    requires ipv6ip.Length == 16
    modifies ipv6ip
    ensures r == if Accepted(left, right) then 0 else -1
    ensures r == 0 ==> ipv6ip[..] == BytesOf(Meaning(left, right).value)
    ensures r != 0 ==> ipv6ip[..] == old(ipv6ip[..])
  {
    var text := CompressedText(left, right);
    GroupsHaveNoNul(left);
    GroupsHaveNoNul(right);
    assert CString(text) == text;
    ParseCompressedIff(left, right);
    r := Ipv6AddressParse(text, ipv6ip);
  }

  // ---------------------------------------------------------------------- round trip

  function PrintedGroup(g: Group): string { Hex2(g / 256) + Hex2(g % 256) }

  lemma {:induction false} PrintedGroupValue(g: Group)
    ensures IsGroup(PrintedGroup(g)) && HexValue(PrintedGroup(g)) == g
  {
    var s := PrintedGroup(g);
    HexLowerValue(g / 256 / 16);
    HexLowerValue(g / 256 % 16);
    HexLowerValue(g % 256 / 16);
    HexLowerValue(g % 256 % 16);
    assert s[..3][..2] == s[..2] && s[..2][..1] == s[..1] && s[..1][..0] == [];
    assert HexValue(s[..1]) == HexDigit(s[0]);
    assert HexValue(s[..2]) == HexValue(s[..1]) * 16 + HexDigit(s[1]);
    assert HexValue(s[..3]) == HexValue(s[..2]) * 16 + HexDigit(s[2]);
  }

  // The eight groups that PrintIPAddress prints of sixteen bytes.
  function PrintedPairs(bs: seq<Byte>): (r: seq<string>)
    requires |bs| % 2 == 0
    ensures 2 * |r| == |bs|
    ensures forall i | 0 <= i < |r| :: r[i] == Hex2(bs[2 * i]) + Hex2(bs[2 * i + 1])
  {
    if bs == [] then [] else PrintedPairs(bs[..|bs| - 2]) + [Hex2(bs[|bs| - 2]) + Hex2(bs[|bs| - 1])]
  }

  // The IPv6 branch of PrintIPAddress on a 16-byte array.
  method PrintIPv6(ip: array<Byte>) returns (text: string)
    requires ip.Length == 16
    ensures text == Join(PrintedPairs(ip[..]), ':')
  {
    ghost var parts := PrintedPairs(ip[..]);
    ghost var k := 0;
    text := "";
    var i := 0;
    assert parts[0..] == parts;
    while i < 14
      invariant 0 <= i <= 14 && i == 2 * k
      invariant text + Join(parts[k..], ':') == Join(parts, ':')
    {
      JoinStep(parts, k);
      PrintStep(text, Hex2(ip[i]), Hex2(ip[i + 1]), Join(parts[k + 1..], ':'));
      text := text + Hex2(ip[i]) + Hex2(ip[i + 1]) + ":";
      i := i + 2;
      k := k + 1;
    }
    JoinLast(parts, 7);
    assert text + Hex2(ip[i]) + Hex2(ip[i + 1]) == text + parts[7];
    text := text + Hex2(ip[i]) + Hex2(ip[i + 1]);
  }

  lemma {:induction false} PrintStep(text: string, high: string, low: string, rest: string)
    ensures text + high + low + ":" + rest == text + (high + low + ":" + rest)
  {
  }

  lemma {:induction false} JoinLast(parts: seq<string>, k: nat)
    requires k + 1 == |parts|
    ensures Join(parts[k..], ':') == parts[k]
  {
    assert parts[k..] == [parts[k]];
  }

  lemma {:induction false} JoinStep(parts: seq<string>, k: nat)
    requires k + 1 < |parts|
    ensures Join(parts[k..], ':') == parts[k] + ":" + Join(parts[k + 1..], ':')
  {
    assert parts[k..][1..] == parts[k + 1..];
  }

  // Every sixteen bytes are the bytes of eight groups.
  lemma {:induction false} GroupsOfBytes(bs: seq<Byte>, n: nat) returns (gs: seq<Group>)
    requires |bs| == 2 * n
    ensures |gs| == n && BytesOf(gs) == bs
  {
    if n == 0 {
      gs := [];
    } else {
      var front := GroupsOfBytes(bs[..2 * n - 2], n - 1);
      var high: int, low: int := bs[2 * n - 2], bs[2 * n - 1];
      gs := front + [high * 256 + low];
      assert gs[..n - 1] == front;
      assert bs == bs[..2 * n - 2] + [bs[2 * n - 2], bs[2 * n - 1]];
    }
  }

  lemma {:induction false} PrintedPairsParse(bs: seq<Byte>) returns (gs: seq<Group>)
    requires |bs| == 16
    ensures Parse(Join(PrintedPairs(bs), ':')) == Some(gs) && BytesOf(gs) == bs
  {
    gs := GroupsOfBytes(bs, 8);
    var parts := PrintedPairs(bs);
    forall i | 0 <= i < 8 ensures IsGroup(parts[i]) && HexValue(parts[i]) == gs[i] {
      BytesAt(gs, i);
      PrintedGroupValue(gs[i]);
    }
    ParseFull(parts);
    assert Values(parts) == gs;
  }

  // Printing any sixteen bytes and parsing the text gives the same bytes.
  method RoundTrip(ip: array<Byte>, parsed: array<Byte>) returns (r: int)
    requires ip.Length == 16 && parsed.Length == 16 && ip != parsed
    modifies parsed
    ensures r == 0 && parsed[..] == ip[..]
  {
    var text := PrintIPv6(ip);
    ghost var gs := PrintedPairsParse(ip[..]);
    PrintedHasNoNul(ip[..]);
    r := Ipv6AddressParse(text, parsed);
  }

  lemma {:induction false} JoinNoNul(parts: seq<string>)
    requires forall i | 0 <= i < |parts| :: Without(parts[i], '\0')
    ensures Without(Join(parts, ':'), '\0')
  {
    if |parts| > 1 { JoinNoNul(parts[1..]); }
  }

  lemma {:induction false} PrintedHasNoNul(bs: seq<Byte>)
    requires |bs| % 2 == 0
    ensures CString(Join(PrintedPairs(bs), ':')) == Join(PrintedPairs(bs), ':')
  {
    forall i | 0 <= i < |PrintedPairs(bs)| ensures Without(PrintedPairs(bs)[i], '\0') {
      HexLowerValue(bs[2 * i] / 16);
      HexLowerValue(bs[2 * i] % 16);
      HexLowerValue(bs[2 * i + 1] / 16);
      HexLowerValue(bs[2 * i + 1] % 16);
    }
    JoinNoNul(PrintedPairs(bs));
  }
}
