// What the server stores of any message, in terms of its pieces.
module BeaconMessages {
  import opened Options
  import opened Sequences
  import opened Text
  import opened LibraryTexts
  import opened BeaconLog

  lemma {:induction false} SplitTwo(a: string, b: string)
    requires Without(a, ',')
    ensures Split(a + [','] + b, ',') == [a] + Split(b, ',')
  {
    SplitStep(a, ',', b);
  }

  // The fields after the second one do not matter.
  predicate More(more: string) { more == "" || more[0] == ',' }

  lemma {:induction false} FirstField(b: string, more: string)
    requires Without(b, ',') && More(more)
    ensures Split(b + more, ',')[0] == b
  {
    if more == "" {
      assert b + more == b;
      SplitNone(b, ',');
    } else {
      assert b + more == b + [','] + more[1..];
      SplitTwo(b, more[1..]);
    }
  }

  lemma {:induction false} TwoFields(a: string, b: string, more: string)
    requires Without(a, ',') && Without(b, ',') && More(more)
    ensures var f := Split(a + [','] + (b + more), ','); |f| >= 2 && f[0] == a && f[1] == b
  {
    SplitTwo(a, b + more);
    FirstField(b, more);
  }

  // A piece with two fields: a first field that is no number ends the message, and so
  // does a second one unless the first is the fill value; a fill value in either
  // field drops the piece, and anything else is stored as it was sent.
  lemma {:induction false} PieceDecoded(a: string, b: string, more: string, rest: seq<string>)
    requires Without(a, ',') && Without(b, ',') && More(more)
    ensures Decode([a + [','] + (b + more)] + rest)
            == if PyInt(a) == None then []
               else if PyInt(a) == Some(3200171710) then Decode(rest)
               else if PyInt(b) == None then []
               else if PyInt(b) == Some(3200171710) then Decode(rest)
               else [(a, b)] + Decode(rest)
  {
    HandleTwo(a, b, more);
    DecodeFirst(a + [','] + (b + more), rest);
  }

  lemma {:induction false} HandleTwo(a: string, b: string, more: string)
    requires Without(a, ',') && Without(b, ',') && More(more)
    ensures Handle(a + [','] + (b + more))
            == if PyInt(a) == None then GiveUp
               else if PyInt(a) == Some(3200171710) then Skip
               else if PyInt(b) == None then GiveUp
               else if PyInt(b) == Some(3200171710) then Skip
               else Store(a, b)
  {
    TwoFields(a, b, more);
  }

  lemma {:induction false} DecodeFirst(piece: string, rest: seq<string>)
    ensures Decode([piece] + rest)
            == match Handle(piece)
               case Skip => Decode(rest)
               case GiveUp => []
               case Store(beacon, local) => [(beacon, local)] + Decode(rest)
  {
    assert ([piece] + rest)[1..] == rest;
  }

  // A piece without a comma is skipped.
  lemma {:induction false} JunkSkipped(junk: string, rest: seq<string>)
    requires Without(junk, ',')
    ensures Decode([junk] + rest) == Decode(rest)
  {
    SplitNone(junk, ',');
    assert ([junk] + rest)[1..] == rest;
  }

  lemma {:induction false} FrontField(rs: seq<Reading>, rest: seq<string>)
    requires rs != []
    ensures Fields(rs) + rest == [Field(rs[0])] + (Fields(rs[1..]) + rest)
  {
    assert Fields(rs) == [Field(rs[0])] + Fields(rs[1..]);
  }

  // Readings at the front of a message are stored, whatever comes after them.
  lemma {:induction false} ReadingsFirst(rs: seq<Reading>, rest: seq<string>)
    ensures Decode(Fields(rs) + rest) == Records(Kept(rs)) + Decode(rest)
  {
    if rs == [] {
      assert Fields(rs) + rest == rest && [] + Decode(rest) == Decode(rest);
    } else {
      ReadingsFirst(rs[1..], rest);
      DecodeOne(rs[0], Fields(rs[1..]) + rest);
      RecordsOfKept(rs);
      FrontField(rs, rest);
      Grouped(if HasFill(rs[0]) then [] else [(Dec(rs[0].beacon), Dec(rs[0].local))], Records(Kept(rs[1..])), Decode(rest));
    }
  }

  // A piece whose first field has a character that no number has, say a letter, ends
  // the message: the readings before it are stored and nothing after it is.
  lemma {:induction false} BadPieceEnds(rs: seq<Reading>, a: string, i: nat, b: string, rest: seq<string>)
    requires Without(a, ',') && Without(b, ',') && i < |a|
    requires !IsDigit(a[i]) && a[i] != '_' && a[i] != '+' && a[i] != '-' && !IsPySpace(a[i])
    ensures Decode(Fields(rs) + ([a + [','] + b] + rest)) == Records(Kept(rs))
  {
    NotANumber(a, i);
    assert a + [','] + (b + "") == a + [','] + b by { assert b + "" == b; }
    PieceDecoded(a, b, "", rest);
    ReadingsFirst(rs, [a + [','] + b] + rest);
  }
}
