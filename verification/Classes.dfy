/** What each field of the ten classes carries, which tag and has-bit it has, and which
    guard it is under, in numbers. */
module Classes {
  import opened Wire
  import opened Digits
  import opened Words
  import opened Records
  import opened Layouts
  import opened Messages
  import opened RoundTrip
  import opened Stepping
  import opened WrittenForm
  import opened GameMessages

  predicate IsUint32(v: int)
  {
    0 <= v <= 4294967295
  }

  predicate IsInt32(v: int)
  {
    -2147483648 <= v <= 2147483647
  }

  predicate IsInt64(v: int)
  {
    -9223372036854775808 <= v <= 9223372036854775807
  }

  predicate AreUint32(vals: seq<int>)
  {
    forall i :: 0 <= i < |vals| ==> IsUint32(vals[i])
  }

  predicate AreInt32(vals: seq<int>)
  {
    forall i :: 0 <= i < |vals| ==> IsInt32(vals[i])
  }

  predicate AreInt64(vals: seq<int>)
  {
    forall i :: 0 <= i < |vals| ==> IsInt64(vals[i])
  }

  /** Field `k` of the class can hold `s`, and `s` survives writing and reading. */
  ghost predicate Carries(d: Layout, k: nat, s: Slot)
  {
    && k < |d.fields|
    && MsgOk(d, Alone(d, k, s))
    && Parse(d, Empty(d), Serialize(d, Alone(d, k, s))) == Parsed(Alone(d, k, s), Complete)
  }

  // -------------------------------------------------- what decides it in general

  lemma {:induction false} AloneSize(d: Layout, k: nat, s: Slot, n: nat)
    requires k < |d.fields| && SlotOk(d.fields[k], s) && MsgOk(d, Alone(d, k, s)) && n <= |d.fields|
    ensures FieldsSize(d, Alone(d, k, s), n) == if k < n then SlotSize(d.fields[k], s) else 0
    decreases n
  {
    if n > 0 {
      AloneSize(d, k, s, n - 1);
      NoSize(d.fields[n - 1]);
    }
  }

  lemma NoSize(f: Field)
    ensures SlotOk(f, EmptySlot(f)) && SlotSize(f, EmptySlot(f)) == 0
  {
    match f
    case Single(_, _, _) =>
    case Repeated(_, _) =>
    case SubMessages(_, _) =>
  }

  lemma SmallIsCarried(d: Layout, k: nat, s: Slot)
    requires Numbered(d) && k < |d.fields| && (SlotOk(d.fields[k], s) ==> SlotSize(d.fields[k], s) < TWO_31)
    ensures Carries(d, k, s) <==> SlotOk(d.fields[k], s)
  {
    AloneOk(d, k, s);
    if SlotOk(d.fields[k], s) {
      AloneSize(d, k, s, |d.fields|);
      ParseInvertsSerialize(d, Alone(d, k, s));
    }
  }

  lemma {:induction false} IntsBound(ty: IntType, vals: seq<int>)
    requires forall i :: 0 <= i < |vals| ==> InRange(ty, vals[i])
    ensures IntsSize(ty, vals) <= 10 * |vals|
  {
    if vals != [] {
      IntsBound(ty, vals[..|vals| - 1]);
    }
  }

  function One(v: int): Slot
  {
    Opt(Present(v))
  }

  lemma ScalarCarried(d: Layout, k: nat, v: int)
    requires Numbered(d) && k < |d.fields| && d.fields[k].Single?
    ensures Carries(d, k, One(v)) <==> InRange(d.fields[k].ty, v)
  {
    SmallIsCarried(d, k, One(v));
  }

  /** Whether a list is carried; eleven bytes a value have to fit an `int`. */
  lemma ListCarried(d: Layout, k: nat, vals: seq<int>)
    requires Numbered(d) && k < |d.fields| && d.fields[k].Repeated? && 11 * |vals| < 0x8000_0000
    ensures Carries(d, k, Ints(vals)) <==> match d.fields[k].ty
                                           case UInt32 => AreUint32(vals)
                                           case Int32 => AreInt32(vals)
                                           case Int64 => AreInt64(vals)
  {
    if SlotOk(d.fields[k], Ints(vals)) {
      IntsBound(d.fields[k].ty, vals);
    }
    SmallIsCarried(d, k, Ints(vals));
  }

  /** An element that has one list. */
  function Element(vals: seq<int>): Msg
  {
    Msg([Ints(vals)], [])
  }

  const ElementLayout := Layout([Repeated(1, UInt32)], [])

  lemma ElementOk(vals: seq<int>)
    ensures MsgOk(ElementLayout, Element(vals)) <==> AreUint32(vals)
    ensures AreUint32(vals) ==> Size(ElementLayout, Element(vals)) <= 11 * |vals|
  {
    var d, e := ElementLayout, Element(vals);
    assert SlotOk(d.fields[0], e.slots[0]) <==> AreUint32(vals);
    if AreUint32(vals) {
      IntsBound(UInt32, vals);
      assert FieldsSize(d, e, 1) == |vals| + IntsSize(UInt32, vals);
    }
  }

  lemma OneElementSize(d: Layout, e: Msg)
    requires MsgOk(d, e)
    ensures MsgsSize(d, [e]) <= Size(d, e) + 5
  {
    assert [e][..0] == [];
    assert MsgsSize(d, [e][..0]) == 0;
  }

  lemma OneElementCarried(d: Layout, k: nat, e: Msg)
    requires Numbered(d) && k < |d.fields| && d.fields[k].SubMessages?
    requires MsgOk(d.fields[k].sub, e) ==> Size(d.fields[k].sub, e) < 0x7fff_0000
    ensures Carries(d, k, Msgs([e])) <==> MsgOk(d.fields[k].sub, e)
  {
    if MsgOk(d.fields[k].sub, e) {
      OneElementSize(d.fields[k].sub, e);
    }
    SmallIsCarried(d, k, Msgs([e]));
    assert SlotOk(d.fields[k], Msgs([e])) <==> MsgOk(d.fields[k].sub, e);
  }

  lemma ElementCarried(d: Layout, k: nat, vals: seq<int>)
    requires Numbered(d) && k < |d.fields| && d.fields[k].SubMessages?
    requires d.fields[k].sub == ElementLayout && 11 * |vals| < 0x7fff_0000
    ensures Carries(d, k, Msgs([Element(vals)])) <==> AreUint32(vals)
  {
    ElementOk(vals);
    OneElementCarried(d, k, Element(vals));
  }

  // ------------------------------------------------------------ class by class

  lemma GameEndLists(ty: IntType, k: nat, vals: seq<int>)
    requires k in {2, 7, 8} && 11 * |vals| < 0x8000_0000
    ensures Carries(GameEnd(ty), k, Ints(vals)) <==> match if k == 2 then UInt32 else if k == 7 then Int64 else ty
                                                     case UInt32 => AreUint32(vals)
                                                     case Int32 => AreInt32(vals)
                                                     case Int64 => AreInt64(vals)
  {
    GameEndWellFormed(ty);
    assert GameEnd(ty).fields[8] == Repeated(9, ty);
    ListCarried(GameEnd(ty), k, vals);
  }

  /** bainiu's game_end: eleven fields, win_multiple the only signed 32-bit one. */
  lemma BainiuGameEndCarries(k: nat, v: int, vals: seq<int>)
    requires 11 * |vals| < 0x7fff_0000
    ensures |BainiuGameEnd.fields| == 11
    ensures k in {0, 5, 9, 10} ==> (Carries(BainiuGameEnd, k, One(v)) <==> IsUint32(v))
    ensures k in {3, 4, 6} ==> (Carries(BainiuGameEnd, k, One(v)) <==> IsInt64(v))
    ensures k == 1 ==> (Carries(BainiuGameEnd, k, Msgs([Element(vals)])) <==> AreUint32(vals))
    ensures k == 2 ==> (Carries(BainiuGameEnd, k, Ints(vals)) <==> AreUint32(vals))
    ensures k == 7 ==> (Carries(BainiuGameEnd, k, Ints(vals)) <==> AreInt64(vals))
    ensures k == 8 ==> (Carries(BainiuGameEnd, k, Ints(vals)) <==> AreInt32(vals))
  {
    GameEndWellFormed(Int32);
    if k in {0, 3, 4, 5, 6, 9, 10} {
      ScalarCarried(BainiuGameEnd, k, v);
    } else if k in {2, 7, 8} {
      GameEndLists(Int32, k, vals);
    } else if k == 1 {
      ElementCarried(BainiuGameEnd, k, vals);
    }
  }

  /** baccarat's: the same with unsigned win_types in its place. */
  lemma BaccaratGameEndCarries(k: nat, v: int, vals: seq<int>)
    requires 11 * |vals| < 0x7fff_0000
    ensures |BaccaratGameEnd.fields| == 11
    ensures k in {0, 5, 9, 10} ==> (Carries(BaccaratGameEnd, k, One(v)) <==> IsUint32(v))
    ensures k in {3, 4, 6} ==> (Carries(BaccaratGameEnd, k, One(v)) <==> IsInt64(v))
    ensures k == 1 ==> (Carries(BaccaratGameEnd, k, Msgs([Element(vals)])) <==> AreUint32(vals))
    ensures k in {2, 8} ==> (Carries(BaccaratGameEnd, k, Ints(vals)) <==> AreUint32(vals))
    ensures k == 7 ==> (Carries(BaccaratGameEnd, k, Ints(vals)) <==> AreInt64(vals))
  {
    GameEndWellFormed(UInt32);
    if k in {0, 3, 4, 5, 6, 9, 10} {
      ScalarCarried(BaccaratGameEnd, k, v);
    } else if k in {2, 7, 8} {
      GameEndLists(UInt32, k, vals);
    } else if k == 1 {
      ElementCarried(BaccaratGameEnd, k, vals);
    }
  }

  /** bainiu's play_rep. */
  lemma BainiuPlayRepCarries(k: nat, v: int, vals: seq<int>)
    requires 11 * |vals| < 0x7fff_0000
    ensures |BainiuPlayRep.fields| == 12
    ensures k in {2, 3, 6, 7, 11} ==> (Carries(BainiuPlayRep, k, One(v)) <==> IsUint32(v))
    ensures k in {4, 5, 9, 10} ==> (Carries(BainiuPlayRep, k, One(v)) <==> IsInt64(v))
    ensures k in {0, 8} ==> (Carries(BainiuPlayRep, k, Ints(vals)) <==> AreInt64(vals))
    ensures k == 1 ==> (Carries(BainiuPlayRep, k, Msgs([Element(vals)])) <==> AreUint32(vals))
  {
    BainiuPlayRepWellFormed();
    if k in {2, 3, 4, 5, 6, 7, 9, 10, 11} {
      ScalarCarried(BainiuPlayRep, k, v);
    } else if k in {0, 8} {
      ListCarried(BainiuPlayRep, k, vals);
    } else if k == 1 {
      ElementCarried(BainiuPlayRep, k, vals);
    }
  }

  /** baccarat's play_rep. */
  lemma BaccaratPlayRepCarries(k: nat, v: int, vals: seq<int>)
    requires 11 * |vals| < 0x7fff_0000
    ensures |BaccaratPlayRep.fields| == 11
    ensures k in {2, 3, 6, 7, 10} ==> (Carries(BaccaratPlayRep, k, One(v)) <==> IsUint32(v))
    ensures k in {4, 5, 9} ==> (Carries(BaccaratPlayRep, k, One(v)) <==> IsInt64(v))
    ensures k in {0, 8} ==> (Carries(BaccaratPlayRep, k, Ints(vals)) <==> AreInt64(vals))
    ensures k == 1 ==> (Carries(BaccaratPlayRep, k, Msgs([Element(vals)])) <==> AreUint32(vals))
  {
    BaccaratPlayRepWellFormed();
    if k in {2, 3, 4, 5, 6, 7, 9, 10} {
      ScalarCarried(BaccaratPlayRep, k, v);
    } else if k in {0, 8} {
      ListCarried(BaccaratPlayRep, k, vals);
    } else if k == 1 {
      ElementCarried(BaccaratPlayRep, k, vals);
    }
  }

  /** The lists of one or two fields: cards, seat flags, applicants. */
  lemma ListsCarry(vals: seq<int>)
    requires 11 * |vals| < 0x7fff_0000
    ensures |MsgCards.fields| == |BainiuPlayLog.fields| == 1 && |BaccaratApplyList.fields| == 2
    ensures Carries(MsgCards, 0, Ints(vals)) <==> AreUint32(vals)
    ensures Carries(BainiuPlayLog, 0, Ints(vals)) <==> AreUint32(vals)
    ensures Carries(BaccaratApplyList, 0, Ints(vals)) <==> AreUint32(vals)
    ensures Carries(BaccaratApplyList, 1, Ints(vals)) <==> AreInt64(vals)
  {
    CardsWellFormed();
    LogsWellFormed();
    ApplyListWellFormed();
    ListCarried(MsgCards, 0, vals);
    ListCarried(BainiuPlayLog, 0, vals);
    ListCarried(BaccaratApplyList, 0, vals);
    ListCarried(BaccaratApplyList, 1, vals);
  }

  /** The logs: bainiu's rounds are lists, baccarat's six flags each. */
  lemma LogsCarry(k: nat, v: int, vals: seq<int>)
    requires 11 * |vals| < 0x7fff_0000
    ensures |BainiuPlayLogRep.fields| == |BaccaratPlayLogRep.fields| == 1 && |BaccaratPlayLog.fields| == 6
    ensures Carries(BainiuPlayLogRep, 0, Msgs([Element(vals)])) <==> AreUint32(vals)
    ensures k < 6 ==> (Carries(BaccaratPlayLog, k, One(v)) <==> IsUint32(v))
    ensures k < 6 ==> (Carries(BaccaratPlayLogRep, 0, Msgs([Alone(BaccaratPlayLog, k, One(v))])) <==> IsUint32(v))
  {
    LogsWellFormed();
    BaccaratLogsWellFormed();
    ElementCarried(BainiuPlayLogRep, 0, vals);
    if k < 6 {
      ScalarCarried(BaccaratPlayLog, k, v);
      FlagsCarried(k, v);
    }
  }

  lemma FlagsCarried(k: nat, v: int)
    requires k < |BaccaratPlayLog.fields| && BaccaratPlayLog.fields[k].Single?
    ensures Carries(BaccaratPlayLogRep, 0, Msgs([Alone(BaccaratPlayLog, k, One(v))]))
       <==> InRange(BaccaratPlayLog.fields[k].ty, v)
  {
    var e := Alone(BaccaratPlayLog, k, One(v));
    BaccaratLogsWellFormed();
    AloneOk(BaccaratPlayLog, k, One(v));
    if InRange(BaccaratPlayLog.fields[k].ty, v) {
      AloneSize(BaccaratPlayLog, k, One(v), 6);
    }
    OneElementCarried(BaccaratPlayLogRep, 0, e);
  }

  // ------------------------------------------------- numbers, has-bits and guards

  /** Field number and has-bit follow from the place in the declaration: the fields are
      numbered from 1, and the mask of field `k` is `1 << k`. */
  lemma NumbersAndMasks(d: Layout, k: nat, n: bv32)
    requires d in CLASSES && k < |d.fields| && n < 32 && n as nat == k
    ensures d.fields[k].number == k + 1
    ensures d.fields[k].Single? ==> BitsOf((1 as bv32) << n) == {d.fields[k].bit}
  {
    PlacesAre(d, k);
    OneBits(n, 0);
  }

  lemma PlacesAre(d: Layout, k: nat)
    requires d in CLASSES && k < |d.fields|
    ensures d.fields[k].number == k + 1 && (d.fields[k].Single? ==> d.fields[k].bit == k)
  {
  }

  /** Guard `g` tests the eight bits from its first field on, and has the optional ones
      among the fields from 8g to 8g + 7. */
  predicate EightsAt(d: Layout, g: nat, k: nat)
    requires g < |d.guards|
  {
    && d.guards[g].members != [] && d.guards[g].shift == d.guards[g].members[0]
    && (k in d.guards[g].members <==> k < |d.fields| && d.fields[k].Single? && k / 8 == g)
  }

  lemma GameEndEights(ty: IntType, g: nat, k: nat)
    requires g < |GameEnd(ty).guards|
    ensures EightsAt(GameEnd(ty), g, k)
  {
  }

  lemma BainiuPlayRepEights(g: nat, k: nat)
    requires g < |BainiuPlayRep.guards|
    ensures EightsAt(BainiuPlayRep, g, k)
  {
  }

  lemma BaccaratPlayRepEights(g: nat, k: nat)
    requires g < |BaccaratPlayRep.guards|
    ensures EightsAt(BaccaratPlayRep, g, k)
  {
  }

  lemma BaccaratPlayLogEights(g: nat, k: nat)
    requires g < |BaccaratPlayLog.guards|
    ensures EightsAt(BaccaratPlayLog, g, k)
  {
  }

  /** There is one guard for every eight fields that hold an optional one. */
  lemma GuardsByEights(d: Layout, g: nat, k: nat)
    requires d in CLASSES && g < |d.guards|
    ensures EightsAt(d, g, k)
  {
    if d == BainiuGameEnd {
      GameEndEights(Int32, g, k);
    } else if d == BaccaratGameEnd {
      GameEndEights(UInt32, g, k);
    } else if d == BainiuPlayRep {
      BainiuPlayRepEights(g, k);
    } else if d == BaccaratPlayRep {
      BaccaratPlayRepEights(g, k);
    } else if d == BaccaratPlayLog {
      BaccaratPlayLogEights(g, k);
    }
  }

  // ------------------------------------------------------------------ instances

  /** time_leave = 300 in a game_end is the bytes 8, 172, 2. */
  lemma TimeLeaveBytes(v: int, s: seq<byte>)
    requires v == 300 && s == [8, 172, 2]
    ensures var m := Alone(BainiuGameEnd, 0, One(v));
      && MsgOk(BainiuGameEnd, m) && Serialize(BainiuGameEnd, m) == s
      && Parse(BainiuGameEnd, Empty(BainiuGameEnd), s) == Parsed(m, Complete)
  {
    GameEndWellFormed(Int32);
    IntegerBytes(BainiuGameEnd, 0, v);
    ThreeHundred(v);
    assert [8] + [172, 2] == s;
    BainiuGameEndCarries(0, v, []);
  }

  /** A lost area's win_multiple = [-1] is tag 72 and ten bytes. */
  lemma WinMultipleBytes(v: int, s: seq<byte>)
    requires v == -1 && s == [72, 255, 255, 255, 255, 255, 255, 255, 255, 255, 1]
    ensures var m := Alone(BainiuGameEnd, 8, Ints([v]));
      && MsgOk(BainiuGameEnd, m) && Serialize(BainiuGameEnd, m) == s
      && Parse(BainiuGameEnd, Empty(BainiuGameEnd), s) == Parsed(m, Complete)
  {
    MinusOne(Int32, v);
    assert [72] + EncodeVarint(ToWire(Int32, v)) == s;
    WinMultiple(v);
  }

  lemma WinMultiple(v: int)
    requires InRange(Int32, v)
    ensures var m, s := Alone(BainiuGameEnd, 8, Ints([v])), [72] + EncodeVarint(ToWire(Int32, v));
      && MsgOk(BainiuGameEnd, m) && Serialize(BainiuGameEnd, m) == s
      && Parse(BainiuGameEnd, Empty(BainiuGameEnd), s) == Parsed(m, Complete)
  {
    GameEndWellFormed(Int32);
    assert BainiuGameEnd.fields[8] == Repeated(9, Int32);
    SignedBytes(BainiuGameEnd, v);
    GameEndLists(Int32, 8, [v]);
  }

  /** In a game_end of baccarat those bytes are the largest unsigned number. */
  lemma WinTypesBytes(s: seq<byte>)
    requires s == [72, 255, 255, 255, 255, 255, 255, 255, 255, 255, 1]
    ensures Parse(BaccaratGameEnd, Empty(BaccaratGameEnd), s)
         == Parsed(Alone(BaccaratGameEnd, 8, Ints([4294967295])), Complete)
  {
    var v := -1;
    MinusOne(Int32, v);
    var body := EncodeVarint(ToWire(Int32, v));
    assert [72] + body == s;
    WrittenSum(ToWire(Int32, v));
    GameEndWellFormed(UInt32);
    assert BaccaratGameEnd.fields[8] == Repeated(9, UInt32);
    UnsignedRead(BaccaratGameEnd, body, s);
  }

  lemma SignedBytes(d: Layout, v: int)
    requires Numbered(d) && |d.fields| > 8 && d.fields[8] == Repeated(9, Int32) && InRange(Int32, v)
    ensures var m := Alone(d, 8, Ints([v]));
      MsgOk(d, m) && Serialize(d, m) == [72] + EncodeVarint(ToWire(Int32, v))
  {
    ListBytes(d, 8, [], v);
    AloneBytes(d, 8, Ints([]));
    assert [] + [v] == [v];
    assert Serialize(d, Alone(d, 8, Ints([]))) == [];
  }

  lemma UnsignedRead(d: Layout, body: seq<byte>, s: seq<byte>)
    requires Numbered(d) && |d.fields| > 8 && d.fields[8] == Repeated(9, UInt32) && s == [72] + body
    requires IsVarint(body) && |body| <= 10 && Sum(body) == 0xffff_ffff_ffff_ffff
    ensures Parse(d, Empty(d), s) == Parsed(Alone(d, 8, Ints([4294967295])), Complete)
  {
    var w := IntegerRead(d, Empty(d), 8, body);
    LowHalf(Sum(body), w);
    assert Empty(d).slots[8] == Ints([]);
    assert [] + [w] == [w];
  }

  lemma LowHalf(n: nat, w: int)
    requires n == 0xffff_ffff_ffff_ffff && Represents(UInt32, n, w)
    ensures w == 4294967295
  {
  }

  /** ids [1] said to take three bytes: accepted, with what is there. */
  lemma CutShortApplyList(s: seq<byte>)
    requires s == [10, 3, 1]
    ensures Parse(BaccaratApplyList, Empty(BaccaratApplyList), s)
         == Parsed(Alone(BaccaratApplyList, 0, Ints([1])), Complete)
  {
    var d := BaccaratApplyList;
    ApplyListWellFormed();
    ParseReadsByte(d, Empty(d), s);
    assert s[1..] == [3, 1];
    CutShortId([3, 1], [1]);
    DelimitedStep(d, Empty(d), 0, [3, 1]);
    NothingLeft(d, Alone(d, 0, Ints([1])));
  }

  lemma CutShortId(rest: seq<byte>, data: seq<byte>)
    requires rest == [3] + data && data == [1]
    ensures Delimited(rest) == Stretch(data, [])
    ensures Store(Repeated(1, UInt32), Ints([]), Bytes(data)) == Stored(Ints([1]), true)
  {
    OneByteRead(rest);
    assert rest[1..] == data;
    assert data[1..] == [];
    assert ReadPacked(UInt32, data[1..]) == Packed([], true);
    assert ReadPacked(UInt32, data) == Packed([1] + [], true);
    assert [] + ([1] + []) == [1];
  }
}
