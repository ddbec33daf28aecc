/** snprintf of libc/stdio.c. Its EMIT evaluates the character only where it stores it, and a
    literal's character is *fmt++: from the limit on a literal is not passed over. The loop
    comes round to it again, and only the position and the count go on. */
module Snprintf {
  import opened Words
  import opened Memory
  import opened Printf
  import opened PrintfLoop

  /** A piece of the format as it is emitted. */
  datatype Item = Item(literal: bool, text: seq<byte>)

  function Items(pieces: seq<Piece>, args: seq<Arg>): (items: seq<Item>)
    requires Match(pieces, args)
    ensures |items| == |pieces|
    ensures forall k :: 0 <= k < |items| ==> items[k].literal == pieces[k].Literal?
    ensures forall k :: 0 <= k < |items| && items[k].literal ==> |items[k].text| == 1
  {
    if pieces == [] then []
    else if Needs(pieces[0]) == 1 then [Item(false, Print(pieces[0], Some(args[0])))] + Items(pieces[1..], args[1..])
    else [Item(pieces[0].Literal?, Print(pieces[0], None))] + Items(pieces[1..], args)
  }

  /** The texts of the items, one behind the other. */
  function Joined(items: seq<Item>): seq<byte> {
    if items == [] then [] else items[0].text + Joined(items[1..])
  }

  lemma {:induction false} JoinedItems(pieces: seq<Piece>, args: seq<Arg>)
    requires Match(pieces, args)
    ensures Joined(Items(pieces, args)) == Render(pieces, args)
    decreases |pieces|
  {
    hide Print;
    if pieces != [] {
      var rest := if Needs(pieces[0]) == 1 then args[1..] else args;
      JoinedItems(pieces[1..], rest);
      assert Items(pieces, args)[1..] == Items(pieces[1..], rest);
    }
  }

  lemma {:induction false} JoinedSplit(items: seq<Item>, k: nat)
    requires k <= |items|
    ensures Joined(items) == Joined(items[..k]) + Joined(items[k..])
    decreases k
  {
    if k == 0 {
      assert items[..0] == [] && items[0..] == items;
    } else {
      JoinedSplit(items[1..], k - 1);
      assert items[..k][1..] == items[1..][..k - 1] && items[1..][k - 1..] == items[k..];
      var x, y, z := items[0].text, Joined(items[1..][..k - 1]), Joined(items[k..]);
      assert x + (y + z) == (x + y) + z;
    }
  }

  lemma JoinedFrom(items: seq<Item>, k: nat)
    requires k < |items|
    ensures Joined(items[k..]) == items[k].text + Joined(items[k + 1..])
  {
    assert items[k..][1..] == items[k + 1..];
  }

  // The loop, round by round.

  /** Where the loop stands: at item k, with the position, the count and the buffer. */
  datatype Spot = Spot(k: nat, pos: word, count: s32, shown: seq<byte>)

  /** text stored from pos on, as far as the limit allows. */
  function Written(b: seq<byte>, limit: nat, pos: nat, text: seq<byte>): (n: seq<byte>)
    ensures |n| == |b|
  {
    seq(|b|, i requires 0 <= i < |b| => if pos <= i < pos + |text| && i < limit then text[i - pos] else b[i])
  }

  /** The literal at which the loop stays. */
  predicate Stuck(items: seq<Item>, limit: nat, s: Spot) {
    s.k < |items| && items[s.k].literal && s.pos >= limit
  }

  /** One round of the loop, when it is not at the end. */
  function Round(items: seq<Item>, limit: nat, s: Spot): Spot
    requires s.k < |items|
  {
    if Stuck(items, limit, s) then s.(pos := Wrap(s.pos + 1), count := Int32(s.count + 1))
    else
      var text := items[s.k].text;
      Spot(s.k + 1, Wrap(s.pos + |text|), Int32(s.count + |text|), Written(s.shown, limit, s.pos, text))
  }

  /** After n rounds; at the end nothing more happens. */
  function After(items: seq<Item>, limit: nat, s: Spot, n: nat): Spot
    decreases n
  {
    if n == 0 || s.k >= |items| then s else After(items, limit, Round(items, limit, s), n - 1)
  }

  function Start(b: seq<byte>): Spot { Spot(0, 0, 0, b) }

  lemma {:induction false} AfterAdd(items: seq<Item>, limit: nat, s: Spot, m: nat, n: nat)
    ensures After(items, limit, s, m + n) == After(items, limit, After(items, limit, s, m), n)
    decreases m
  {
    hide Round;
    if m > 0 && s.k < |items| {
      AfterAdd(items, limit, Round(items, limit, s), m - 1, n);
    }
  }

  lemma AfterOne(items: seq<Item>, limit: nat, s: Spot, n: nat)
    requires After(items, limit, s, n).k < |items|
    ensures After(items, limit, s, n + 1) == Round(items, limit, After(items, limit, s, n))
  {
    hide Round;
    AfterAdd(items, limit, s, n, 1);
    var t := After(items, limit, s, n);
    assert After(items, limit, t, 1) == After(items, limit, Round(items, limit, t), 0);
  }

  /** There is only one end. */
  lemma EndStays(items: seq<Item>, limit: nat, s: Spot, m: nat, n: nat)
    requires m <= n && After(items, limit, s, m).k >= |items|
    ensures After(items, limit, s, n) == After(items, limit, s, m)
  {
    AfterAdd(items, limit, s, m, n - m);
  }

  /** The count is the position, read as an int. */
  lemma {:induction false} CountIsPosition(items: seq<Item>, limit: nat, s: Spot, n: nat)
    requires s.count == Int32(s.pos)
    ensures var t := After(items, limit, s, n);
            t.count == Int32(t.pos) && |t.shown| == |s.shown| && t.k >= s.k
    decreases n
  {
    hide Written;
    if n > 0 && s.k < |items| {
      BothWrap(s.pos, if Stuck(items, limit, s) then 1 else |items[s.k].text|);
      CountIsPosition(items, limit, Round(items, limit, s), n - 1);
    }
  }

  lemma BothWrap(p: word, d: nat)
    ensures Int32(Int32(p) + d) == Int32(Wrap(p + d))
  {
  }

  /** Every literal from item k on is met before the limit. */
  ghost predicate PassesFrom(items: seq<Item>, limit: nat, k: nat, pos: nat) {
    forall j :: k <= j < |items| && items[j].literal ==> pos + |Joined(items[k..j])| < limit
  }

  /** Every literal is met before the limit. */
  ghost predicate Passes(items: seq<Item>, limit: nat) {
    forall j :: 0 <= j < |items| && items[j].literal ==> |Joined(items[..j])| < limit
  }

  lemma PassesStart(items: seq<Item>, limit: nat)
    ensures Passes(items, limit) <==> PassesFrom(items, limit, 0, 0)
  {
    hide Joined;
    assert forall j :: 0 <= j <= |items| ==> items[0..j] == items[..j];
  }

  /** Passing from item k on is meeting item k in time and passing from the next one on. */
  lemma PassesNext(items: seq<Item>, limit: nat, k: nat, pos: nat)
    requires k < |items|
    ensures PassesFrom(items, limit, k, pos) <==>
              (items[k].literal ==> pos < limit) && PassesFrom(items, limit, k + 1, pos + |items[k].text|)
  {
    assert Joined(items[k..k]) == [];
    forall j | k < j < |items|
      ensures |Joined(items[k..j])| == |items[k].text| + |Joined(items[k + 1..j])|
    {
      assert items[k..j][1..] == items[k + 1..j];
    }
  }

  lemma WrittenMore(b: seq<byte>, limit: nat, pos: nat, x: seq<byte>, y: seq<byte>)
    ensures Written(Written(b, limit, pos, x), limit, pos + |x|, y) == Written(b, limit, pos, x + y)
  {
  }

  /** Where the loop is once it has gone through the rest of the items from s without stopping. */
  function Through(items: seq<Item>, limit: nat, s: Spot): Spot
    requires s.k <= |items|
  {
    var rest := Joined(items[s.k..]);
    Spot(|items|, Wrap(s.pos + |rest|), Int32(s.pos + |rest|), Written(s.shown, limit, s.pos, rest))
  }

  /** When every literal is met in time, one round for each item does it. */
  lemma {:induction false} PassesThrough(items: seq<Item>, limit: nat, s: Spot)
    requires s.k <= |items| && s.count == Int32(s.pos) && s.pos + |Joined(items[s.k..])| < W32
    requires PassesFrom(items, limit, s.k, s.pos)
    ensures After(items, limit, s, |items| - s.k) == Through(items, limit, s)
    decreases |items| - s.k
  {
    hide PassesFrom, Written, Int32;
    if s.k < |items| {
      PassesNext(items, limit, s.k, s.pos);
      JoinedFrom(items, s.k);
      CountIsPosition(items, limit, s, 1);
      var t := Round(items, limit, s);
      assert After(items, limit, t, 0) == t;
      PassesThrough(items, limit, t);
      WrittenMore(s.shown, limit, s.pos, items[s.k].text, Joined(items[s.k + 1..]));
    } else {
      NothingLeft(items, limit, s);
    }
  }

  lemma NothingLeft(items: seq<Item>, limit: nat, s: Spot)
    requires s.k == |items| && s.count == Int32(s.pos)
    ensures Through(items, limit, s) == s && Joined(items[s.k..]) == []
  {
    assert Written(s.shown, limit, s.pos, []) == s.shown;
  }

  /** Rounds at a literal that is not passed over. */
  lemma {:induction false} Spins(items: seq<Item>, limit: nat, s: Spot, n: nat)
    requires Stuck(items, limit, s) && s.count == Int32(s.pos)
    requires limit == 0 || s.pos + n <= W32
    ensures After(items, limit, s, n) == s.(pos := Wrap(s.pos + n), count := Int32(s.pos + n))
    decreases n
  {
    if n > 0 {
      var t := Round(items, limit, s);
      hide Round, Int32;
      NextSpin(items, limit, s, n);
      if t.pos >= limit {
        Spins(items, limit, t, n - 1);
      }
    }
  }

  lemma NextSpin(items: seq<Item>, limit: nat, s: Spot, n: nat)
    requires Stuck(items, limit, s) && s.count == Int32(s.pos) && n > 0 && (limit == 0 || s.pos + n <= W32)
    ensures var t := Round(items, limit, s);
            && t == s.(pos := Wrap(s.pos + 1), count := Int32(s.pos + 1)) && t.count == Int32(t.pos)
            && Wrap(t.pos + (n - 1)) == Wrap(s.pos + n) && Int32(t.pos + (n - 1)) == Int32(s.pos + n)
            && (limit > 0 ==> (t.pos < limit ==> n == 1) && (n > 1 ==> t.pos + (n - 1) <= W32))
  {
    BothWrap(s.pos, 1);
    WrapOn(s.pos, n - 1);
    hide Int32, Wrap;
    if n > 1 && limit > 0 {
      WrapSmall(s.pos + 1);
    }
  }

  lemma WrapOn(p: word, d: nat)
    ensures Wrap(Wrap(p + 1) + d) == Wrap(p + (d + 1)) && Int32(Wrap(p + 1) + d) == Int32(p + (d + 1))
  {
  }

  lemma WrapSmall(x: nat)
    requires x < W32
    ensures Wrap(x) == x
  {
  }

  /** With a limit above zero the loop always ends: the position wraps to 0, where the literal
      is stored. What it ends with counts everything only if it never had to wait. */
  lemma {:induction false} Ends(items: seq<Item>, limit: nat, s: Spot) returns (n: nat)
    requires 0 < limit < W32 && s.k <= |items| && s.count == Int32(s.pos)
    requires forall k :: 0 <= k < |items| && items[k].literal ==> |items[k].text| == 1
    requires s.pos + |Joined(items[s.k..])| < W32
    ensures var t := After(items, limit, s, n);
            && t.k == |items| && t.pos <= s.pos + |Joined(items[s.k..])|
            && (t.pos == s.pos + |Joined(items[s.k..])| <==> PassesFrom(items, limit, s.k, s.pos))
    decreases |items| - s.k
  {
    hide PassesFrom, Written, Int32, After, Joined;
    if s.k == |items| {
      n := 0;
      AtEnd(items, limit, s);
    } else {
      JoinedFrom(items, s.k);
      PassesNext(items, limit, s.k, s.pos);
      if Stuck(items, limit, s) {
        var m := W32 - s.pos;
        Spins(items, limit, s, m);
        var z := s.(pos := 0, count := Int32(W32));
        var t := StepOn(items, limit, z);
        n := Ends(items, limit, t);
        AfterStep(items, limit, z, n);
        AfterAdd(items, limit, s, m, n + 1);
        n := m + (n + 1);
      } else {
        var t := StepOn(items, limit, s);
        n := Ends(items, limit, t);
        AfterStep(items, limit, s, n);
        n := n + 1;
      }
    }
  }

  lemma AtEnd(items: seq<Item>, limit: nat, s: Spot)
    requires s.k == |items|
    ensures After(items, limit, s, 0) == s && Joined(items[s.k..]) == [] && PassesFrom(items, limit, s.k, s.pos)
  {
  }

  lemma AfterStep(items: seq<Item>, limit: nat, s: Spot, n: nat)
    requires s.k < |items|
    ensures After(items, limit, s, n + 1) == After(items, limit, Round(items, limit, s), n)
  {
    hide Round;
  }

  /** A round that goes on to the next item. */
  lemma StepOn(items: seq<Item>, limit: nat, s: Spot) returns (t: Spot)
    requires s.k < |items| && !Stuck(items, limit, s) && s.pos + |items[s.k].text| < W32
    requires s.count == Int32(s.pos) || (s.pos == 0 && s.count == Int32(W32))
    ensures t == Round(items, limit, s) && t.k == s.k + 1 && t.pos == s.pos + |items[s.k].text|
            && t.count == Int32(t.pos)
  {
    hide Written;
    t := Round(items, limit, s);
    BothWrap(s.pos, |items[s.k].text|);
    assert Int32(W32) == Int32(0);
  }

  /** At limit zero a literal is never passed. */
  lemma {:induction false} Never(items: seq<Item>, s: Spot, j: nat, n: nat)
    requires s.k <= j < |items| && items[j].literal
    ensures After(items, 0, s, n).k <= j
    decreases n
  {
    hide Written;
    if n > 0 {
      Never(items, Round(items, 0, s), j, n - 1);
    }
  }

  /** The loop ends if and only if the limit is above zero or the format has no literal. */
  lemma EndsExactly(items: seq<Item>, limit: nat, b: seq<byte>)
    requires limit < W32 && |Joined(items)| < W32
    requires forall k :: 0 <= k < |items| && items[k].literal ==> |items[k].text| == 1
    ensures (exists n :: After(items, limit, Start(b), n).k == |items|)
       <==> limit > 0 || forall k :: 0 <= k < |items| ==> !items[k].literal
  {
    hide After, Joined, PassesFrom;
    assert items[0..] == items;
    if limit > 0 {
      var n := Ends(items, limit, Start(b));
    } else if forall k :: 0 <= k < |items| ==> !items[k].literal {
      NoLiteral(items, 0);
      PassesThrough(items, 0, Start(b));
    } else {
      var j :| 0 <= j < |items| && items[j].literal;
      forall n: nat
        ensures After(items, 0, Start(b), n).k != |items|
      {
        Never(items, Start(b), j, n);
      }
    }
  }

  lemma NoLiteral(items: seq<Item>, limit: nat)
    requires forall k :: 0 <= k < |items| ==> !items[k].literal
    ensures Passes(items, limit) && PassesFrom(items, limit, 0, 0)
  {
  }

  /** It ends with the untruncated length counted if and only if every literal is met before
      the limit, and then with the whole output written as far as the limit allows. */
  lemma CountsExactly(items: seq<Item>, limit: nat, b: seq<byte>)
    requires limit < W32 && |Joined(items)| < W32
    requires forall k :: 0 <= k < |items| && items[k].literal ==> |items[k].text| == 1
    ensures (exists n :: var t := After(items, limit, Start(b), n); t.k == |items| && t.count == Int32(|Joined(items)|))
       <==> Passes(items, limit)
    ensures Passes(items, limit) ==> After(items, limit, Start(b), |items|) == Through(items, limit, Start(b))
  {
    hide After, Joined, PassesFrom, Passes;
    assert items[0..] == items;
    PassesStart(items, limit);
    if Passes(items, limit) {
      PassesThrough(items, limit, Start(b));
    } else {
      forall n: nat | After(items, limit, Start(b), n).k == |items|
        ensures After(items, limit, Start(b), n).count != Int32(|Joined(items)|)
      {
        CountsLess(items, limit, b, n);
      }
    }
  }

  /** What the loop ends with after waiting anywhere is less than the whole. */
  lemma CountsLess(items: seq<Item>, limit: nat, b: seq<byte>, n: nat)
    requires limit < W32 && |Joined(items)| < W32 && !Passes(items, limit)
    requires forall k :: 0 <= k < |items| && items[k].literal ==> |items[k].text| == 1
    requires After(items, limit, Start(b), n).k == |items|
    ensures limit > 0 && After(items, limit, Start(b), n).pos < |Joined(items)|
    ensures After(items, limit, Start(b), n).count != Int32(|Joined(items)|)
  {
    hide After, Joined, PassesFrom, Passes;
    assert items[0..] == items;
    PassesStart(items, limit);
    var start := Start(b);
    if limit == 0 {
      var j := SomeLiteral(items);
      Never(items, start, j, n);
    } else {
      var m := Ends(items, limit, start);
      if m <= n {
        EndStays(items, limit, start, m, n);
      } else {
        EndStays(items, limit, start, n, m);
      }
      CountIsPosition(items, limit, start, n);
      IntsDiffer(After(items, limit, start, n).pos, |Joined(items)|);
    }
  }

  lemma SomeLiteral(items: seq<Item>) returns (j: nat)
    requires !Passes(items, 0)
    ensures j < |items| && items[j].literal
  {
    j :| 0 <= j < |items| && items[j].literal;
  }

  lemma IntsDiffer(p: word, q: word)
    requires p != q
    ensures Int32(p) != Int32(q)
  {
  }

  // Two inputs.

  /** snprintf(buf, 0, "a"), and the same with size 1: at limit 0 the loop stays at the a for
      ever, and only position and count go round. */
  lemma LetterHangs(b: seq<byte>, n: nat)
    ensures Scan([0x61, 0]) == Some(Scanned([Literal(0x61)], 1))
    ensures After(Items([Literal(0x61)], []), 0, Start(b), n) == Spot(0, Wrap(n), Int32(n), b)
  {
    var text: seq<byte> := [0x61, 0];
    ScanLiteral(text);
    EndsHere(text[1..], []);
    assert [Literal(0x61)] + [] == [Literal(0x61)];
    hide Scan;
    var items := Items([Literal(0x61)], []);
    hide Items;
    Spins(items, 0, Start(b), n);
  }

  /** The format abcd. */
  const ABCD: seq<byte> := [0x61, 0x62, 0x63, 0x64, 0]

  function Abcd(): seq<Item> { [Item(true, [0x61]), Item(true, [0x62]), Item(true, [0x63]), Item(true, [0x64])] }

  lemma AbcdItems()
    ensures Scan(ABCD).Some? && Match(Scan(ABCD).value.pieces, []) && Items(Scan(ABCD).value.pieces, []) == Abcd()
  {
    EndsHere(ABCD[4..], []);
    LiteralItem(ABCD, 3);
    LiteralItem(ABCD, 2);
    LiteralItem(ABCD, 1);
    LiteralItem(ABCD, 0);
    hide Scan, Match, Items;
    assert ABCD[0..] == ABCD;
  }

  lemma LiteralItem(text: seq<byte>, i: nat)
    requires i < |text| && text[i] != 0 && text[i] != PERCENT
    requires Scan(text[i + 1..]).Some? && Match(Scan(text[i + 1..]).value.pieces, [])
    ensures Scan(text[i..]).Some? && Match(Scan(text[i..]).value.pieces, [])
    ensures Items(Scan(text[i..]).value.pieces, [])
         == [Item(true, [text[i]])] + Items(Scan(text[i + 1..]).value.pieces, [])
  {
    ScanLiteral(text[i..]);
    assert text[i..][1..] == text[i + 1..];
    hide Scan;
    var pieces := Scan(text[i..]).value.pieces;
    assert pieces[0] == Literal(text[i]) && pieces[1..] == Scan(text[i + 1..]).value.pieces;
  }

  /** snprintf(buf, 4, "abcd"): the loop waits 2^32 - 3 rounds at the d and then stores it at
      the front, where the NUL goes behind it; the count is 1. */
  lemma FourthGoesFirst(b: seq<byte>)
    requires |b| >= 4
    ensures var s := After(Abcd(), Limit(4), Start(b), W32 + 1);
            && s == Spot(4, 1, 1, b[0 := 0x64][1 := 0x62][2 := 0x63])
            && Closed(s, 4) == b[0 := 0x64][1 := 0][2 := 0x63]
  {
    var items := Abcd();
    var s := Spot(3, 3, 3, b[0 := 0x61][1 := 0x62][2 := 0x63]);
    ThreeFit(b);
    Spins(items, 3, s, W32 - 3);
    var z := s.(pos := 0, count := 0);
    LastWraps(z);
    hide After;
    AfterAdd(items, 3, s, W32 - 3, 1);
    AfterAdd(items, 3, Start(b), 3, W32 - 3 + 1);
    var n := W32 - 3 + 1;
    assert 3 + n == W32 + 1;
  }

  lemma ThreeFit(b: seq<byte>)
    requires |b| >= 4
    ensures After(Abcd(), 3, Start(b), 3) == Spot(3, 3, 3, b[0 := 0x61][1 := 0x62][2 := 0x63])
  {
    var items := Abcd();
    var s1 := Spot(1, 1, 1, b[0 := 0x61]);
    var s2 := Spot(2, 2, 2, s1.shown[1 := 0x62]);
    var s3 := Spot(3, 3, 3, s2.shown[2 := 0x63]);
    OneByte(b, 3, 0, 0x61);
    OneByte(s1.shown, 3, 1, 0x62);
    OneByte(s2.shown, 3, 2, 0x63);
    hide Written;
    assert Round(items, 3, Start(b)) == s1 && Round(items, 3, s1) == s2 && Round(items, 3, s2) == s3;
    hide Round;
    assert After(items, 3, s3, 0) == s3;
    assert After(items, 3, s2, 1) == s3;
    assert After(items, 3, s1, 2) == s3;
  }

  lemma OneByte(b: seq<byte>, limit: nat, pos: nat, c: byte)
    requires pos < limit <= |b|
    ensures Written(b, limit, pos, [c]) == b[pos := c]
  {
  }

  lemma LastWraps(z: Spot)
    requires z.k == 3 && z.pos == 0 && z.count == 0 && |z.shown| >= 4
    ensures After(Abcd(), 3, z, 1) == Spot(4, 1, 1, z.shown[0 := 0x64])
  {
    OneByte(z.shown, 3, 0, 0x64);
    var t := Round(Abcd(), 3, z);
    assert After(Abcd(), 3, t, 0) == t;
  }

  // The loop as it runs.

  /** The first pos bytes of what is shown, whatever lies behind the limit. */
  ghost function Front(b: seq<byte>, limit: nat, pos: nat): (f: seq<byte>)
    ensures |f| == pos
  {
    seq(pos, i requires 0 <= i < pos => if i < |b| && i < limit then b[i] else 0)
  }

  lemma FrontShows(b: seq<byte>, limit: nat, pos: nat)
    ensures Shows(b, b, limit, Front(b, limit, pos))
  {
  }

  lemma ShowsWritten(b: seq<byte>, n: seq<byte>, limit: nat, pos: nat, text: seq<byte>)
    requires Shows(b, n, limit, Front(b, limit, pos) + text)
    ensures n == Written(b, limit, pos, text)
  {
  }

  /** The item at k is the piece at hand, and the rest of the items are the rest of the pieces. */
  lemma ItemsHere(items: seq<Item>, k: nat, pieces: seq<Piece>, args: seq<Arg>, a: nat, arg: Option<Arg>)
    requires a <= |args| && pieces != [] && Match(pieces, args[a..]) && k <= |items|
    requires Items(pieces, args[a..]) == items[k..]
    requires if Needs(pieces[0]) == 1 then a < |args| && arg == Some(args[a]) else arg == None
    ensures TakesWord(pieces[0]) ==> arg.value.Word?
    ensures TakesText(pieces[0]) ==> arg.value.Text?
    ensures k < |items| && items[k] == Item(pieces[0].Literal?, Print(pieces[0], arg))
    ensures a + Needs(pieces[0]) <= |args| && Match(pieces[1..], args[a + Needs(pieces[0])..])
    ensures Items(pieces[1..], args[a + Needs(pieces[0])..]) == items[k + 1..]
  {
    hide Print, Match, Render, Items, Needs, TakesWord, TakesText;
    RenderNext(pieces, args[a..], arg);
    ItemsNext(pieces, args[a..], arg);
    DropDrop(args, a, Needs(pieces[0]));
    Shorter(items, k);
  }

  lemma Shorter(items: seq<Item>, k: nat)
    requires k <= |items| && items[k..] != []
    ensures k < |items| && items[k..][0] == items[k] && items[k..][1..] == items[k + 1..]
  {
  }

  lemma ItemsNext(pieces: seq<Piece>, args: seq<Arg>, arg: Option<Arg>)
    requires pieces != [] && Match(pieces, args)
    requires if Needs(pieces[0]) == 1 then args != [] && arg == Some(args[0]) else arg == None
    ensures Needs(pieces[0]) <= |args| && Match(pieces[1..], args[Needs(pieces[0])..])
    ensures TakesWord(pieces[0]) ==> arg.value.Word?
    ensures TakesText(pieces[0]) ==> arg.value.Text?
    ensures Items(pieces, args)
         == [Item(pieces[0].Literal?, Print(pieces[0], arg))] + Items(pieces[1..], args[Needs(pieces[0])..])
  {
    hide Print;
    assert args[0..] == args;
  }

  /** Between rounds: the loop over the memory is where the loop over the items is. */
  ghost predicate Along(items: seq<Item>, text: seq<byte>, args: seq<Arg>, i: nat, a: nat, rest: Scanned,
                        out: seq<byte>, total: seq<byte>, k: nat) {
    Formatting(text, args, i, a, rest, out, total) && k <= |items| && Items(rest.pieces, args[a..]) == items[k..]
  }

  lemma AlongStarts(text: seq<byte>, args: seq<Arg>)
    requires Scan(text).Some? && Match(Scan(text).value.pieces, args)
    ensures var rest := Scan(text).value;
            Along(Items(rest.pieces, args), text, args, 0, 0, rest, [], Render(rest.pieces, args), 0)
  {
    var rest := Scan(text).value;
    Starts(text, args, rest, Render(rest.pieces, args), [], 0);
    assert args[0..] == args;
  }

  /** The character of a literal. */
  lemma AtLiteral(items: seq<Item>, text: seq<byte>, args: seq<Arg>, i: nat, a: nat, rest: Scanned, out: seq<byte>,
                  total: seq<byte>, k: nat)
    requires Along(items, text, args, i, a, rest, out, total, k) && i < |text| && text[i] != 0 && text[i] != PERCENT
    ensures k < |items| && items[k] == Item(true, [text[i]]) && rest.pieces != [] && rest.stop > 0 && |out| < |total|
    ensures Along(items, text, args, i + 1, a, Scanned(rest.pieces[1..], rest.stop - 1), out + [text[i]], total, k + 1)
  {
    LiteralPiece(text, args, i, a, rest, out, total);
    assert Print(Literal(text[i]), None) == [text[i]];
    hide Print, Match, Render, Items, Scan;
    LiteralNext(text, args, i, a, rest, out, total);
    ItemsHere(items, k, rest.pieces, args, a, None);
  }

  lemma LiteralPiece(text: seq<byte>, args: seq<Arg>, i: nat, a: nat, rest: Scanned, out: seq<byte>, total: seq<byte>)
    requires Formatting(text, args, i, a, rest, out, total) && i < |text| && text[i] != 0 && text[i] != PERCENT
    ensures rest.pieces != [] && rest.pieces[0] == Literal(text[i])
  {
    assert text[i..][0] == text[i];
  }

  /** VFORMAT_BODY with EMIT_BOUNDED, for at most `rounds` rounds: it is where the loop over the
      items is after as many. */
  method VFormatBounded(buf: array<byte>, limit: nat, text: seq<byte>, args: seq<Arg>, rounds: nat)
    returns (done: bool, count: s32, pos: word, end: nat)
    requires Scan(text).Some? && Match(Scan(text).value.pieces, args) && limit <= buf.Length
    requires |Render(Scan(text).value.pieces, args)| < W32
    modifies buf
    ensures var items := Items(Scan(text).value.pieces, args);
            var s := After(items, limit, Start(old(buf[..])), rounds);
            && done == (s.k == |items|) && pos == s.pos && count == s.count && buf[..] == s.shown
    ensures done ==> end == Scan(text).value.stop
  {
    hide Shows, Scan, Match, Render, Print, Along, Formatting, Parse, Int32, Items, After, Round, Written;
    ghost var rest, out, k := Scan(text).value, [], 0;
    ghost var items, total, start := Items(rest.pieces, args), Render(rest.pieces, args), Start(buf[..]);
    var i: nat, a: nat, used: nat := 0, 0, 0;
    count, pos := 0, 0;
    AlongStarts(text, args);
    NoRounds(items, limit, start);
    ScanEndsAtNul(text);
    while text[i] != 0
      invariant i < |text| && Along(items, text, args, i, a, rest, out, total, k)
                && i + rest.stop == Scan(text).value.stop
      invariant used <= rounds && After(items, limit, start, used) == Spot(k, pos, count, buf[..])
      invariant Stuck(items, limit, Spot(k, pos, count, buf[..])) || pos + |total| - |out| < W32
      decreases rounds - used
    {
      AlongEnds(items, text, args, i, a, rest, out, total, k);
      if text[i] != PERCENT {
        AtLiteral(items, text, args, i, a, rest, out, total, k);
        if used == rounds {
          return false, count, pos, i;
        }
        AfterOne(items, limit, start, used);
        LiteralRound(items, limit, Spot(k, pos, count, buf[..]), text[i]);
        if pos < limit {
          buf[pos] := text[i];
          out, rest, k := out + [text[i]], Scanned(rest.pieces[1..], rest.stop - 1), k + 1;
          i := i + 1;
        }
        pos := Wrap(pos + 1);
        count := Int32(count + 1);
        used := used + 1;
        continue;
      }
      i := i + 1;
      if text[i] == 0 {
        EndStays(items, limit, start, used, rounds);
        return true, count, pos, i;
      }
      AtDirective(items, text, args, i - 1, a, rest, out, total, k);
      if used == rounds {
        return false, count, pos, i;
      }
      var p, j := ParseDirective(text, i);
      var arg := if Needs(p) == 1 then Some(args[a]) else None;
      PastDirective(items, text, args, i - 1, a, rest, out, total, k, j, arg);
      ghost var b := buf[..];
      FrontShows(b, limit, pos);
      var more: s32;
      ghost var before := pos;
      pos, more := EmitDirective(buf, true, limit, p, arg, pos, b, Front(b, limit, pos));
      ShowsWritten(b, buf[..], limit, before, Print(p, arg));
      AfterOne(items, limit, start, used);
      DirectiveRound(items, limit, Spot(k, before, count, b));
      count := Int32(count + more);
      out, rest, k := out + Print(p, arg), Scanned(rest.pieces[1..], rest.stop - (j - (i - 1))), k + 1;
      a := a + Needs(p);
      i := j;
      used := used + 1;
    }
    AlongEnds(items, text, args, i, a, rest, out, total, k);
    EndStays(items, limit, start, used, rounds);
    done, end := true, i;
  }

  lemma NoRounds(items: seq<Item>, limit: nat, s: Spot)
    ensures After(items, limit, s, 0) == s
  {
  }

  /** The end of the format is the end of the items. */
  lemma AlongEnds(items: seq<Item>, text: seq<byte>, args: seq<Arg>, i: nat, a: nat, rest: Scanned, out: seq<byte>,
                  total: seq<byte>, k: nat)
    requires Along(items, text, args, i, a, rest, out, total, k) && i < |text|
    ensures text[i] == 0 ==> k == |items| && rest.stop == 0
    ensures text[i] == PERCENT ==> i + 1 < |text| && (text[i + 1] == 0 ==> k == |items| && rest.stop == 1)
  {
    LoopEnds(text, args, i, a, rest, out, total);
    assert |items[k..]| == |items| - k;
  }

  lemma LiteralRound(items: seq<Item>, limit: nat, s: Spot, c: byte)
    requires s.k < |items| && items[s.k] == Item(true, [c]) && limit <= |s.shown|
    ensures Round(items, limit, s)
         == if s.pos < limit then Spot(s.k + 1, Wrap(s.pos + 1), Int32(s.count + 1), s.shown[s.pos := c])
            else s.(pos := Wrap(s.pos + 1), count := Int32(s.count + 1))
  {
    if s.pos < limit {
      OneByte(s.shown, limit, s.pos, c);
    }
  }

  lemma DirectiveRound(items: seq<Item>, limit: nat, s: Spot)
    requires s.k < |items| && !items[s.k].literal && s.pos + |items[s.k].text| < W32
    ensures var text := items[s.k].text;
            Round(items, limit, s)
            == Spot(s.k + 1, s.pos + |text|, Int32(s.count + Int32(|text|)), Written(s.shown, limit, s.pos, text))
  {
    hide Written;
    IntSum(s.count, |items[s.k].text|);
  }

  lemma IntSum(x: s32, n: nat)
    ensures Int32(x + Int32(n)) == Int32(x + n)
  {
  }

  lemma AtDirective(items: seq<Item>, text: seq<byte>, args: seq<Arg>, i: nat, a: nat, rest: Scanned, out: seq<byte>,
                    total: seq<byte>, k: nat)
    requires Along(items, text, args, i, a, rest, out, total, k)
    requires i + 1 < |text| && text[i] == PERCENT && text[i + 1] != 0
    ensures Parse(text[i + 1..]).Some? && rest.pieces != [] && rest.pieces[0] == Parse(text[i + 1..]).value.0
    ensures var after := Parse(text[i + 1..]).value.1;
            && |after| < |text| - i && rest.stop >= |text| - i - |after|
            && Scan(after) == Some(Scanned(rest.pieces[1..], rest.stop - (|text| - i - |after|)))
    ensures Needs(rest.pieces[0]) == 1 ==> a < |args|
    ensures k < |items|
  {
    hide Parse;
    DirectiveHere(text, args, i, a, rest, out, total);
    assert |items[k..]| == |items| - k;
  }

  lemma PastDirective(items: seq<Item>, text: seq<byte>, args: seq<Arg>, i: nat, a: nat, rest: Scanned, out: seq<byte>,
                      total: seq<byte>, k: nat, j: nat, arg: Option<Arg>)
    requires Along(items, text, args, i, a, rest, out, total, k) && rest.pieces != [] && rest.pieces[0].Directive?
    requires j <= |text| && rest.stop >= j - i
    requires Scan(text[j..]) == Some(Scanned(rest.pieces[1..], rest.stop - (j - i)))
    requires if Needs(rest.pieces[0]) == 1 then a < |args| && arg == Some(args[a]) else arg == None
    ensures TakesWord(rest.pieces[0]) ==> arg.value.Word?
    ensures TakesText(rest.pieces[0]) ==> arg.value.Text?
    ensures var p, rest' := rest.pieces[0], Scanned(rest.pieces[1..], rest.stop - (j - i));
            && |out| + |Print(p, arg)| <= |total| && k < |items| && items[k] == Item(false, Print(p, arg))
            && Along(items, text, args, j, a + Needs(p), rest', out + Print(p, arg), total, k + 1)
  {
    hide Scan, Print, Match, Render, Items, Needs, TakesWord, TakesText;
    DirectiveNext(text, args, i, a, rest, out, total, j, arg);
    ItemsHere(items, k, rest.pieces, args, a, arg);
  }

  /** What snprintf should leave: as much of the output as fits before a NUL, nothing at all in
      an empty buffer. */
  function Cut(b: seq<byte>, size: nat, out: seq<byte>): seq<byte>
    requires size <= |b|
  {
    if size == 0 then b
    else
      var cut := if |out| < size then out else out[..size - 1];
      cut + [0] + b[|cut| + 1..]
  }

  function Limit(size: nat): nat { if size > 0 then size - 1 else 0 }

  /** The NUL that is stored behind the loop. */
  function Closed(s: Spot, size: nat): (b: seq<byte>)
    requires size <= |s.shown|
  {
    if size == 0 then s.shown else s.shown[if s.pos < size - 1 then s.pos else size - 1 := 0]
  }

  lemma ClosedIsCut(items: seq<Item>, b: seq<byte>, size: nat)
    requires size <= |b| && |Joined(items)| < W32
    ensures |Through(items, Limit(size), Start(b)).shown| == |b|
    ensures Closed(Through(items, Limit(size), Start(b)), size) == Cut(b, size, Joined(items))
  {
    hide Joined;
    assert items[0..] == items;
  }

  /** snprintf, for at most `rounds` rounds of its loop. Whether it is done by then, its result
      and the buffer are those of the loop over the items, closed with a NUL. It returns the
      untruncated length only when every literal is met before the last place, and then leaves
      the output cut to the buffer; and when they all are, one round for each item is enough. */
  method Snprintf(buf: array<byte>, size: word, text: seq<byte>, args: seq<Arg>, rounds: nat)
    returns (done: bool, count: s32)
    requires Scan(text).Some? && Match(Scan(text).value.pieces, args)
    requires |Render(Scan(text).value.pieces, args)| < W32 && size <= buf.Length
    modifies buf
    ensures var items := Items(Scan(text).value.pieces, args);
            var s := After(items, Limit(size), Start(old(buf[..])), rounds);
            && |s.shown| == buf.Length && done == (s.k == |items|) && count == s.count
            && buf[..] == if done then Closed(s, size) else s.shown
    ensures var items, out := Items(Scan(text).value.pieces, args), Render(Scan(text).value.pieces, args);
            && (done && count == Int32(|out|) ==> Passes(items, Limit(size)) && buf[..] == Cut(old(buf[..]), size, out))
            && (Passes(items, Limit(size)) && rounds >= |items| ==> done && count == Int32(|out|))
  {
    hide Scan, Match, Render, Items, After, Joined, Passes, Through, Cut, Int32;
    ghost var b := buf[..];
    ghost var items := Items(Scan(text).value.pieces, args);
    var limit := if size > 0 then size - 1 else 0;
    var pos, end;
    done, count, pos, end := VFormatBounded(buf, limit, text, args, rounds);
    if done && size > 0 {
      buf[if pos < limit then pos else limit] := 0;
    }
    JoinedItems(Scan(text).value.pieces, args);
    Rightly(items, b, size, rounds);
  }

  lemma Rightly(items: seq<Item>, b: seq<byte>, size: word, rounds: nat)
    requires size <= |b| && |Joined(items)| < W32
    requires forall k :: 0 <= k < |items| && items[k].literal ==> |items[k].text| == 1
    ensures var s := After(items, Limit(size), Start(b), rounds);
            var right := s.k == |items| && s.count == Int32(|Joined(items)|);
            && |s.shown| == |b|
            && (right ==> Passes(items, Limit(size)) && Closed(s, size) == Cut(b, size, Joined(items)))
            && (Passes(items, Limit(size)) && rounds >= |items| ==> right)
  {
    assert Int32(0) == 0;
    hide After, Joined, Passes, Cut, Closed, Int32, Through;
    CountIsPosition(items, Limit(size), Start(b), rounds);
    CountsExactly(items, Limit(size), b);
    if Passes(items, Limit(size)) {
      ThroughEnds(items, Limit(size), b);
      ClosedIsCut(items, b, size);
      if |items| <= rounds {
        EndStays(items, Limit(size), Start(b), |items|, rounds);
      } else if After(items, Limit(size), Start(b), rounds).k == |items| {
        EndStays(items, Limit(size), Start(b), rounds, |items|);
      }
    }
  }

  lemma ThroughEnds(items: seq<Item>, limit: nat, b: seq<byte>)
    ensures var t := Through(items, limit, Start(b)); t.k == |items| && t.count == Int32(|Joined(items)|)
  {
    assert items[0..] == items;
  }
}
