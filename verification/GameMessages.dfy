/** The message classes of the two games, with the field numbers, value types, has-bits and
    guards of their generated code.  Whatever is proved for a well-formed layout holds for
    each of them. */
module GameMessages {
  import opened Wire
  import opened Words
  import opened Layouts
  import opened Messages
  import opened RoundTrip
  import opened Stepping

  const MsgCards := Layout([Repeated(1, UInt32)], [])

  /** The two games' game_end messages differ in the type of field 9 alone: bainiu has the
      signed win_multiple, baccarat win_types. */
  function GameEnd(ty: IntType): Layout
  {
    Layout(
      [ Single(1, UInt32, 0),         // time_leave
        SubMessages(2, MsgCards),     // table_cards
        Repeated(3, UInt32),          // card_types
        Single(4, Int64, 3),          // banker_win_score
        Single(5, Int64, 4),          // banker_total_score
        Single(6, UInt32, 5),         // banker_time
        Single(7, Int64, 6),          // user_score
        Repeated(8, Int64),           // player_score
        Repeated(9, ty),
        Single(10, UInt32, 9),        // rand_card, remain_card
        Single(11, UInt32, 10) ],     // settle_accounts_type
      [ Guard(0, [0, 3, 4, 5, 6]), Guard(9, [9, 10]) ])
  }

  // ------------------------------------------------------------------ bainiu

  const BainiuPlayLog := Layout([Repeated(1, UInt32)], [])
  const BainiuPlayLogRep := Layout([SubMessages(1, BainiuPlayLog)], [])

  const BainiuGameEnd := GameEnd(Int32)

  const BainiuPlayRep := Layout(
    [ Repeated(1, Int64),           // all_jetton_score
      SubMessages(2, MsgCards),     // table_cards
      Single(3, UInt32, 2),         // banker_id
      Single(4, UInt32, 3),         // banker_time
      Single(5, Int64, 4),          // banker_win_score
      Single(6, Int64, 5),          // banker_score
      Single(7, UInt32, 6),         // time_leave
      Single(8, UInt32, 7),         // game_status
      Repeated(9, Int64),           // self_jetton_score
      Single(10, Int64, 9),         // banker_buyin_score
      Single(11, Int64, 10),        // banker_show_score
      Single(12, UInt32, 11) ],     // max_jetton_rate
    [ Guard(2, [2, 3, 4, 5, 6, 7]), Guard(9, [9, 10, 11]) ])

  // ---------------------------------------------------------------- baccarat

  const BaccaratApplyList := Layout(
    [ Repeated(1, UInt32),          // player_ids
      Repeated(2, Int64) ],         // apply_score
    [])

  const BaccaratPlayLog := Layout(
    [ Single(1, UInt32, 0),         // player_pair
      Single(2, UInt32, 1),         // banker_pair
      Single(3, UInt32, 2),         // player_count
      Single(4, UInt32, 3),         // banker_count
      Single(5, UInt32, 4),         // is_small
      Single(6, UInt32, 5) ],       // is_super_six
    [ Guard(0, [0, 1, 2, 3, 4, 5]) ])

  const BaccaratPlayLogRep := Layout([SubMessages(1, BaccaratPlayLog)], [])

  const BaccaratGameEnd := GameEnd(UInt32)

  const BaccaratPlayRep := Layout(
    [ Repeated(1, Int64),           // all_jetton_score
      SubMessages(2, MsgCards),     // table_cards
      Single(3, UInt32, 2),         // banker_id
      Single(4, UInt32, 3),         // banker_time
      Single(5, Int64, 4),          // banker_win_score
      Single(6, Int64, 5),          // banker_score
      Single(7, UInt32, 6),         // time_leave
      Single(8, UInt32, 7),         // game_status
      Repeated(9, Int64),           // self_jetton_score
      Single(10, Int64, 9),         // banker_buyin_score
      Single(11, UInt32, 10) ],     // need_leave_banker
    [ Guard(2, [2, 3, 4, 5, 6, 7]), Guard(9, [9, 10]) ])

  // ------------------------------------------------------------- well-formed

  lemma CardsWellFormed()
    ensures WellFormed(MsgCards)
  {
    assert Singles(MsgCards.fields, 1) == [];
  }

  lemma LogsWellFormed()
    ensures WellFormed(BainiuPlayLog) && WellFormed(BainiuPlayLogRep)
  {
    assert Singles(BainiuPlayLog.fields, 1) == [];
    assert Singles(BainiuPlayLogRep.fields, 1) == [];
  }

  // Which fields are optional decides the order in which the guarded groups list them.

  lemma SinglesStep(fields: seq<Field>, n: nat, before: seq<nat>)
    requires n < |fields| && Singles(fields, n) == before
    ensures Singles(fields, n + 1) == if fields[n].Single? then before + [n] else before
  {
  }

  lemma GameEndFirst(fields: seq<Field>)
    requires |fields| >= 6
    requires fields[0].Single? && !fields[1].Single? && !fields[2].Single?
    requires fields[3].Single? && fields[4].Single? && fields[5].Single?
    ensures Singles(fields, 6) == [0, 3, 4, 5]
  {
    SinglesStep(fields, 0, []);
    SinglesStep(fields, 1, [0]);
    SinglesStep(fields, 2, [0]);
    SinglesStep(fields, 3, [0]);
    SinglesStep(fields, 4, [0, 3]);
    SinglesStep(fields, 5, [0, 3, 4]);
  }

  lemma GameEndSecond(fields: seq<Field>)
    requires |fields| >= 11 && Singles(fields, 6) == [0, 3, 4, 5]
    requires fields[6].Single? && !fields[7].Single? && !fields[8].Single? && fields[9].Single? && fields[10].Single?
    ensures Singles(fields, 11) == [0, 3, 4, 5, 6, 9, 10]
  {
    SinglesStep(fields, 6, [0, 3, 4, 5]);
    SinglesStep(fields, 7, [0, 3, 4, 5, 6]);
    SinglesStep(fields, 8, [0, 3, 4, 5, 6]);
    SinglesStep(fields, 9, [0, 3, 4, 5, 6]);
    SinglesStep(fields, 10, [0, 3, 4, 5, 6, 9]);
  }

  lemma PlayRepFirst(fields: seq<Field>)
    requires |fields| >= 6
    requires !fields[0].Single? && !fields[1].Single? && fields[2].Single?
    requires fields[3].Single? && fields[4].Single? && fields[5].Single?
    ensures Singles(fields, 6) == [2, 3, 4, 5]
  {
    SinglesStep(fields, 0, []);
    SinglesStep(fields, 1, []);
    SinglesStep(fields, 2, []);
    SinglesStep(fields, 3, [2]);
    SinglesStep(fields, 4, [2, 3]);
    SinglesStep(fields, 5, [2, 3, 4]);
  }

  lemma PlayRepSecond(fields: seq<Field>)
    requires |fields| >= 11 && Singles(fields, 6) == [2, 3, 4, 5]
    requires fields[6].Single? && fields[7].Single? && !fields[8].Single? && fields[9].Single? && fields[10].Single?
    ensures Singles(fields, 11) == [2, 3, 4, 5, 6, 7, 9, 10]
  {
    SinglesStep(fields, 6, [2, 3, 4, 5]);
    SinglesStep(fields, 7, [2, 3, 4, 5, 6]);
    SinglesStep(fields, 8, [2, 3, 4, 5, 6, 7]);
    SinglesStep(fields, 9, [2, 3, 4, 5, 6, 7]);
    SinglesStep(fields, 10, [2, 3, 4, 5, 6, 7, 9]);
  }

  lemma GameEndGuards(ty: IntType)
    ensures forall g :: 0 <= g < |GameEnd(ty).guards| ==> GuardAt(GameEnd(ty), g)
  {
    var d := GameEnd(ty);
    assert d.guards[0] == Guard(0, [0, 3, 4, 5, 6]) && GuardCovers(d.fields, Guard(0, [0, 3, 4, 5, 6]));
    assert d.guards[1] == Guard(9, [9, 10]) && GuardCovers(d.fields, Guard(9, [9, 10]));
    assert GuardAt(d, 0) && GuardAt(d, 1);
  }

  lemma GameEndMembers(ty: IntType)
    ensures Members(GameEnd(ty).guards, 0) == Singles(GameEnd(ty).fields, |GameEnd(ty).fields|)
  {
    var d := GameEnd(ty);
    assert Members(d.guards, 2) == [];
    assert Members(d.guards, 1) == [9, 10];
    assert Members(d.guards, 0) == [0, 3, 4, 5, 6, 9, 10];
    GameEndFirst(d.fields);
    GameEndSecond(d.fields);
  }

  lemma GameEndWellFormed(ty: IntType)
    ensures WellFormed(GameEnd(ty))
  {
    CardsWellFormed();
    GameEndGuards(ty);
    GameEndMembers(ty);
    var d := GameEnd(ty);
    forall k | 0 <= k < |d.fields|
      ensures NumberAt(d, k) && HasBitAt(d, k) && ListAt(d, k)
    {
    }
    forall j, k | 0 <= j < k < |d.fields|
      ensures NumbersApart(d, j, k) && BitsApart(d, j, k) && ListsApart(d, j, k)
    {
    }
  }

  lemma BainiuPlayRepGuards()
    ensures forall g :: 0 <= g < |BainiuPlayRep.guards| ==> GuardAt(BainiuPlayRep, g)
  {
    var d := BainiuPlayRep;
    assert d.guards[0] == Guard(2, [2, 3, 4, 5, 6, 7]) && GuardCovers(d.fields, Guard(2, [2, 3, 4, 5, 6, 7]));
    assert d.guards[1] == Guard(9, [9, 10, 11]) && GuardCovers(d.fields, Guard(9, [9, 10, 11]));
    assert GuardAt(d, 0) && GuardAt(d, 1);
  }

  lemma BainiuPlayRepMembers()
    ensures Members(BainiuPlayRep.guards, 0) == Singles(BainiuPlayRep.fields, |BainiuPlayRep.fields|)
  {
    var d := BainiuPlayRep;
    assert Members(d.guards, 2) == [];
    assert Members(d.guards, 1) == [9, 10, 11];
    assert Members(d.guards, 0) == [2, 3, 4, 5, 6, 7, 9, 10, 11];
    PlayRepFirst(d.fields);
    PlayRepSecond(d.fields);
    SinglesStep(d.fields, 11, [2, 3, 4, 5, 6, 7, 9, 10]);
  }

  lemma BainiuPlayRepWellFormed()
    ensures WellFormed(BainiuPlayRep)
  {
    CardsWellFormed();
    BainiuPlayRepGuards();
    BainiuPlayRepMembers();
    var d := BainiuPlayRep;
    forall k | 0 <= k < |d.fields|
      ensures NumberAt(d, k) && HasBitAt(d, k) && ListAt(d, k)
    {
    }
    forall j, k | 0 <= j < k < |d.fields|
      ensures NumbersApart(d, j, k) && BitsApart(d, j, k) && ListsApart(d, j, k)
    {
    }
  }

  lemma BaccaratPlayRepGuards()
    ensures forall g :: 0 <= g < |BaccaratPlayRep.guards| ==> GuardAt(BaccaratPlayRep, g)
  {
    var d := BaccaratPlayRep;
    assert d.guards[0] == Guard(2, [2, 3, 4, 5, 6, 7]) && GuardCovers(d.fields, Guard(2, [2, 3, 4, 5, 6, 7]));
    assert d.guards[1] == Guard(9, [9, 10]) && GuardCovers(d.fields, Guard(9, [9, 10]));
    assert GuardAt(d, 0) && GuardAt(d, 1);
  }

  lemma BaccaratPlayRepMembers()
    ensures Members(BaccaratPlayRep.guards, 0) == Singles(BaccaratPlayRep.fields, |BaccaratPlayRep.fields|)
  {
    var d := BaccaratPlayRep;
    assert Members(d.guards, 2) == [];
    assert Members(d.guards, 1) == [9, 10];
    assert Members(d.guards, 0) == [2, 3, 4, 5, 6, 7, 9, 10];
    PlayRepFirst(d.fields);
    PlayRepSecond(d.fields);
  }

  lemma BaccaratPlayRepWellFormed()
    ensures WellFormed(BaccaratPlayRep)
  {
    CardsWellFormed();
    BaccaratPlayRepGuards();
    BaccaratPlayRepMembers();
    var d := BaccaratPlayRep;
    forall k | 0 <= k < |d.fields|
      ensures NumberAt(d, k) && HasBitAt(d, k) && ListAt(d, k)
    {
    }
    forall j, k | 0 <= j < k < |d.fields|
      ensures NumbersApart(d, j, k) && BitsApart(d, j, k) && ListsApart(d, j, k)
    {
    }
  }

  lemma BaccaratPlayLogGuards()
    ensures forall g :: 0 <= g < |BaccaratPlayLog.guards| ==> GuardAt(BaccaratPlayLog, g)
    ensures Members(BaccaratPlayLog.guards, 0) == Singles(BaccaratPlayLog.fields, |BaccaratPlayLog.fields|)
  {
    var d := BaccaratPlayLog;
    assert d.guards[0] == Guard(0, [0, 1, 2, 3, 4, 5]) && GuardCovers(d.fields, Guard(0, [0, 1, 2, 3, 4, 5]));
    assert GuardAt(d, 0);
    assert Members(d.guards, 1) == [];
    assert Members(d.guards, 0) == [0, 1, 2, 3, 4, 5];
    assert Singles(d.fields, 1) == [0];
    assert Singles(d.fields, 2) == [0, 1];
    assert Singles(d.fields, 3) == [0, 1, 2];
    assert Singles(d.fields, 4) == [0, 1, 2, 3];
    assert Singles(d.fields, 5) == [0, 1, 2, 3, 4];
    assert Singles(d.fields, 6) == [0, 1, 2, 3, 4, 5];
  }

  lemma BaccaratPlayLogWellFormed()
    ensures WellFormed(BaccaratPlayLog)
  {
    BaccaratPlayLogGuards();
    var d := BaccaratPlayLog;
    forall k | 0 <= k < |d.fields|
      ensures NumberAt(d, k) && HasBitAt(d, k) && ListAt(d, k)
    {
    }
    forall j, k | 0 <= j < k < |d.fields|
      ensures NumbersApart(d, j, k) && BitsApart(d, j, k) && ListsApart(d, j, k)
    {
    }
  }

  lemma BaccaratLogsWellFormed()
    ensures WellFormed(BaccaratPlayLog) && WellFormed(BaccaratPlayLogRep)
  {
    BaccaratPlayLogWellFormed();
    assert Members(BaccaratPlayLogRep.guards, 0) == [];
    assert Singles(BaccaratPlayLogRep.fields, 1) == [];
  }

  lemma ApplyListWellFormed()
    ensures WellFormed(BaccaratApplyList)
  {
    assert Singles(BaccaratApplyList.fields, 2) == [];
  }

  const CLASSES := [MsgCards, BainiuPlayLog, BainiuPlayLogRep, BainiuGameEnd, BainiuPlayRep,
                    BaccaratApplyList, BaccaratPlayLog, BaccaratPlayLogRep, BaccaratGameEnd, BaccaratPlayRep]

  lemma ClassesWellFormed(d: Layout)
    requires d in CLASSES
    ensures WellFormed(d)
  {
    if d == MsgCards {
      CardsWellFormed();
    } else if d == BainiuPlayLog || d == BainiuPlayLogRep {
      LogsWellFormed();
    } else if d == BainiuGameEnd {
      GameEndWellFormed(Int32);
    } else if d == BaccaratGameEnd {
      GameEndWellFormed(UInt32);
    } else if d == BainiuPlayRep {
      BainiuPlayRepWellFormed();
    } else if d == BaccaratPlayRep {
      BaccaratPlayRepWellFormed();
    } else if d == BaccaratApplyList {
      ApplyListWellFormed();
    } else {
      BaccaratLogsWellFormed();
    }
  }

  /** The tags the parser compares with and expects. */
  lemma PlayRepTags(k: nat)
    requires k < |BainiuPlayRep.fields|
    ensures PrimaryTag(BainiuPlayRep.fields[k]) == [8, 18, 24, 32, 40, 48, 56, 64, 72, 80, 88, 96][k]
  {
    assert BainiuPlayRep.fields[k].SubMessages? <==> k == 1;
    assert BainiuPlayRep.fields[k].number == k + 1;
  }

  lemma GameEndTags(ty: IntType, k: nat)
    requires k < |GameEnd(ty).fields|
    ensures PrimaryTag(GameEnd(ty).fields[k]) == [8, 18, 24, 32, 40, 48, 56, 64, 72, 80, 88][k]
  {
    assert GameEnd(ty).fields[k].SubMessages? <==> k == 1;
    assert GameEnd(ty).fields[k].number == k + 1;
  }

  /** Bit 9 (banker_buyin_score) is under both masks of play_rep, `0xff << 2` and
      `0xff << 9`, so it alone opens both groups; only the second one lists its field. */
  lemma PlayRepGuardsOverlap(word: Word, g: nat)
    requires 9 in word && g < |BainiuPlayRep.guards|
    ensures Touches(word, BainiuPlayRep.guards[g].shift)
    ensures (exists k :: k in BainiuPlayRep.guards[g].members && BainiuPlayRep.fields[k].bit == 9) <==> g == 1
  {
    TouchesIff(word, BainiuPlayRep.guards[g].shift);
    if g == 1 {
      assert 9 in BainiuPlayRep.guards[g].members && BainiuPlayRep.fields[9].bit == 9;
    }
  }

  // ------------------------------------------------------------- apply lists

  lemma {:induction false} IdsBound(ids: seq<int>)
    requires forall i :: 0 <= i < |ids| ==> InRange(UInt32, ids[i])
    ensures IntsSize(UInt32, ids) <= 5 * |ids|
    ensures IntsSize(UInt32, ids) == 5 * |ids| <==> forall i :: 0 <= i < |ids| ==> ids[i] >= 0x1000_0000
  {
    if ids != [] {
      var init := ids[..|ids| - 1];
      IdsBound(init);
      assert forall i :: 0 <= i < |init| ==> init[i] == ids[i];
      assert ids == init + [ids[|ids| - 1]];
    }
  }

  lemma {:induction false} ScoresBound(scores: seq<int>)
    requires forall i :: 0 <= i < |scores| ==> InRange(Int64, scores[i])
    ensures IntsSize(Int64, scores) <= 10 * |scores|
    ensures IntsSize(Int64, scores) == 10 * |scores| <==> forall i :: 0 <= i < |scores| ==> scores[i] < 0
  {
    if scores != [] {
      var init := scores[..|scores| - 1];
      ScoresBound(init);
      assert forall i :: 0 <= i < |init| ==> init[i] == scores[i];
      assert scores == init + [scores[|scores| - 1]];
    }
  }

  lemma ApplyListSize(ids: seq<int>, scores: seq<int>)
    requires forall i :: 0 <= i < |ids| ==> InRange(UInt32, ids[i])
    requires forall i :: 0 <= i < |scores| ==> InRange(Int64, scores[i])
    ensures var d, m := BaccaratApplyList, Msg([Ints(ids), Ints(scores)], []);
      && MsgOk(d, m)
      && Size(d, m) == |ids| + IntsSize(UInt32, ids) + |scores| + IntsSize(Int64, scores)
  {
    var d, m := BaccaratApplyList, Msg([Ints(ids), Ints(scores)], []);
    assert SlotOk(d.fields[0], m.slots[0]) && SlotOk(d.fields[1], m.slots[1]);
    assert MsgOk(d, m);
    assert FieldsSize(d, m, 1) == |ids| + IntsSize(UInt32, ids);
    assert FieldsSize(d, m, 2) == FieldsSize(d, m, 1) + |scores| + IntsSize(Int64, scores);
  }

  /** At most 6 bytes per player id and 11 per apply score; the bound is met exactly by
      ids of 2^28 and more and scores that are negative.  Below
      2^31 bytes by that count, no `int` of the size calculator overflows and the list
      survives the trip. */
  lemma ApplyListBound(ids: seq<int>, scores: seq<int>)
    requires forall i :: 0 <= i < |ids| ==> InRange(UInt32, ids[i])
    requires forall i :: 0 <= i < |scores| ==> InRange(Int64, scores[i])
    ensures var d, m := BaccaratApplyList, Msg([Ints(ids), Ints(scores)], []);
      var most := 6 * |ids| + 11 * |scores|;
      && MsgOk(d, m)
      && Size(d, m) <= most
      && (Size(d, m) == most <==>
            (forall i :: 0 <= i < |ids| ==> ids[i] >= 0x1000_0000) && (forall i :: 0 <= i < |scores| ==> scores[i] < 0))
      && (most < TWO_31 ==> Parse(d, Empty(d), Serialize(d, m)) == Parsed(m, Complete))
  {
    var d, m := BaccaratApplyList, Msg([Ints(ids), Ints(scores)], []);
    IdsBound(ids);
    ScoresBound(scores);
    ApplyListWellFormed();
    ApplyListSize(ids, scores);
    if 6 * |ids| + 11 * |scores| < TWO_31 {
      ParseInvertsSerialize(d, m);
    }
  }
}
