/** The bainiu table's play log: the last ten rounds, kept by the table and sent to the
    players as one message with a nested message per round. */
module PlayLogs {
  import opened Wire
  import opened Messages
  import opened HasBits
  import opened MessageObjects
  import opened GameMessages
  import opened Packets

  const AREA_COUNT: nat := 4
  const MAX_RECORDS: nat := 10
  const S2C_MSG_BAINIU_PLAY_LOG: nat := 3418

  /** One flag per area: whether the area won the round. */
  function Wins(multiples: seq<int>): (wins: seq<int>)
    ensures |wins| == |multiples|
    ensures AreFlags(wins)
  {
    seq(|multiples|, i requires 0 <= i < |multiples| => if multiples[i] > 0 then 1 else 0)
  }

  predicate AreFlags(wins: seq<int>)
  {
    forall i :: 0 <= i < |wins| ==> 0 <= wins[i] <= 1
  }

  predicate AreRecords(records: seq<seq<int>>)
  {
    forall i :: 0 <= i < |records| ==> |records[i]| == AREA_COUNT && AreFlags(records[i])
  }

  predicate AreRounds(rounds: seq<seq<int>>)
  {
    forall i :: 0 <= i < |rounds| ==> |rounds[i]| == AREA_COUNT
  }

  /** What the table keeps after the given rounds. */
  function Kept(rounds: seq<seq<int>>): (records: seq<seq<int>>)
  {
    if rounds == [] then []
    else
      var records := Kept(rounds[..|rounds| - 1]) + [Wins(rounds[|rounds| - 1])];
      if |records| > MAX_RECORDS then records[1..] else records
  }

  lemma KeptSnoc(rounds: seq<seq<int>>, multiples: seq<int>)
    ensures var records := Kept(rounds) + [Wins(multiples)];
      Kept(rounds + [multiples]) == if |records| > MAX_RECORDS then records[1..] else records
  {
    assert (rounds + [multiples])[..|rounds|] == rounds;
  }

  /** After any number of rounds it is the last ten of them, oldest first. */
  lemma {:induction false} KeptIsLastTen(rounds: seq<seq<int>>)
    requires AreRounds(rounds)
    ensures var n := if |rounds| < MAX_RECORDS then |rounds| else MAX_RECORDS;
      && |Kept(rounds)| == n
      && (forall i :: 0 <= i < n ==> Kept(rounds)[i] == Wins(rounds[|rounds| - n + i]))
      && AreRecords(Kept(rounds))
  {
    if rounds != [] {
      KeptIsLastTen(rounds[..|rounds| - 1]);
    }
  }

  // ------------------------------------------------------------- as a message

  function PlayLog(wins: seq<int>): Msg
  {
    Msg([Ints(wins)], [])
  }

  function Logs(records: seq<seq<int>>): seq<Msg>
  {
    seq(|records|, i requires 0 <= i < |records| => PlayLog(records[i]))
  }

  function PlayLogRep(records: seq<seq<int>>): Msg
  {
    Msg([Msgs(Logs(records))], [])
  }

  lemma NoPlayLogs()
    ensures Empty(BainiuPlayLogRep) == PlayLogRep([])
  {
    assert Empty(BainiuPlayLogRep).slots == [Msgs([])];
    assert Logs([]) == [];
  }

  lemma PlayLogRepSnoc(records: seq<seq<int>>, wins: seq<int>)
    ensures PlayLogRep(records + [wins]) == Msg([Msgs(Logs(records) + [PlayLog(wins)])], [])
  {
    assert Logs(records + [wins]) == Logs(records) + [PlayLog(wins)];
  }

  lemma {:induction false} FlagsSize(wins: seq<int>)
    requires AreFlags(wins)
    ensures IntsSize(UInt32, wins) == |wins|
  {
    if wins != [] {
      FlagsSize(wins[..|wins| - 1]);
    }
  }

  lemma PlayLogSize(wins: seq<int>)
    requires |wins| == AREA_COUNT && AreFlags(wins)
    ensures MsgOk(BainiuPlayLog, PlayLog(wins)) && Size(BainiuPlayLog, PlayLog(wins)) == 8
  {
    var d, m := BainiuPlayLog, PlayLog(wins);
    assert SlotOk(d.fields[0], m.slots[0]);
    FlagsSize(wins);
    assert FieldsSize(d, m, 1) == |wins| + IntsSize(UInt32, wins);
  }

  lemma {:induction false} LogsSize(records: seq<seq<int>>)
    requires AreRecords(records)
    ensures forall i :: 0 <= i < |records| ==> MsgOk(BainiuPlayLog, Logs(records)[i])
    ensures MsgsSize(BainiuPlayLog, Logs(records)) == 9 * |records|
  {
    if records != [] {
      var init, last := records[..|records| - 1], records[|records| - 1];
      LogsSize(init);
      PlayLogSize(last);
      assert Logs(records)[..|records| - 1] == Logs(init);
      assert forall i :: 0 <= i < |init| ==> Logs(records)[i] == Logs(init)[i];
    }
  }

  /** Ten bytes a round. */
  lemma PlayLogRepSize(records: seq<seq<int>>)
    requires AreRecords(records)
    ensures MsgOk(BainiuPlayLogRep, PlayLogRep(records))
    ensures Size(BainiuPlayLogRep, PlayLogRep(records)) == 10 * |records|
  {
    var d, m := BainiuPlayLogRep, PlayLogRep(records);
    LogsSize(records);
    assert SlotOk(d.fields[0], m.slots[0]);
    assert FieldsSize(d, m, 1) == |records| + MsgsSize(BainiuPlayLog, Logs(records));
  }

  /** The packet a play log is sent in. */
  ghost function PlayLogPacket(records: seq<seq<int>>, uin: nat): (p: Packet)
    requires AreRecords(records)
    ensures |p.protobuf| == PACKET_MAX_DATA_SIZE
  {
    LogsWellFormed();
    PlayLogRepSize(records);
    Framed(BainiuPlayLogRep, PlayLogRep(records), S2C_MSG_BAINIU_PLAY_LOG, uin)
  }

  /** How long a play log could be before it stopped arriving. */
  lemma PlayLogArrivesIff(records: seq<seq<int>>, uin: nat)
    requires AreRecords(records)
    ensures Received(BainiuPlayLogRep, PlayLogPacket(records, uin)) == Accepted(3418, uin, PlayLogRep(records))
       <==> |records| <= 1637
  {
    LogsWellFormed();
    PlayLogRepSize(records);
    ArrivesIffItFits(BainiuPlayLogRep, PlayLogRep(records), S2C_MSG_BAINIU_PLAY_LOG, uin);
  }

  // --------------------------------------------------------- what the players see

  /** A log of one round: a one for each of the four areas that won, a zero for each that
      did not. */
  predicate LogOf(log: Msg, multiples: seq<int>)
    requires |multiples| == 4
  {
    && log.unknown == [] && |log.slots| == 1 && log.slots[0].Ints?
    && |log.slots[0].vals| == 4
    && forall j :: 0 <= j < 4 ==> log.slots[0].vals[j] == if multiples[j] > 0 then 1 else 0
  }

  /** A play log of the last ten of these rounds, or of all if there are fewer, oldest first. */
  predicate ShowsLastTen(m: Msg, rounds: seq<seq<int>>)
    requires forall i :: 0 <= i < |rounds| ==> |rounds[i]| == 4
  {
    var n := if |rounds| < 10 then |rounds| else 10;
    && m.unknown == [] && |m.slots| == 1 && m.slots[0].Msgs?
    && |m.slots[0].msgs| == n
    && forall i :: 0 <= i < n ==> LogOf(m.slots[0].msgs[i], rounds[|rounds| - n + i])
  }

  /** The packet the table sends after these rounds. */
  ghost function TablePacket(rounds: seq<seq<int>>, uin: nat): (p: Packet)
    requires AreRounds(rounds)
    ensures |p.protobuf| == PACKET_MAX_DATA_SIZE
  {
    KeptIsLastTen(rounds);
    PlayLogPacket(Kept(rounds), uin)
  }

  lemma KeptShowsLastTen(rounds: seq<seq<int>>)
    requires AreRounds(rounds)
    ensures ShowsLastTen(PlayLogRep(Kept(rounds)), rounds)
  {
    KeptIsLastTen(rounds);
  }

  /** Whatever rounds were played, the players receive the last ten. */
  lemma LastTenArrive(rounds: seq<seq<int>>, uin: nat)
    requires forall i :: 0 <= i < |rounds| ==> |rounds[i]| == 4
    ensures var r := Received(BainiuPlayLogRep, TablePacket(rounds, uin));
      r.Accepted? && r.cmd == 3418 && r.uin == uin && ShowsLastTen(r.msg, rounds)
  {
    KeptIsLastTen(rounds);
    PlayLogArrivesIff(Kept(rounds), uin);
    KeptShowsLastTen(rounds);
  }

  /** A round the second and fourth area lost. */
  lemma OneRoundArrives(rounds: seq<seq<int>>, uin: nat)
    requires rounds == [[1, -1, 3, -5]]
    ensures Received(BainiuPlayLogRep, TablePacket(rounds, uin))
         == Accepted(3418, uin, Msg([Msgs([Msg([Ints([1, 0, 1, 0])], [])])], []))
  {
    LastTenArrive(rounds, uin);
    var m := Received(BainiuPlayLogRep, TablePacket(rounds, uin)).msg;
    assert LogOf(m.slots[0].msgs[0], rounds[0]);
    assert m.slots[0].msgs[0].slots[0].vals == [1, 0, 1, 0];
    assert m.slots[0].msgs[0].slots == [Ints([1, 0, 1, 0])];
    assert m.slots[0].msgs == [Msg([Ints([1, 0, 1, 0])], [])];
    assert m.slots == [Msgs([Msg([Ints([1, 0, 1, 0])], [])])];
  }

  class BaiNiuTable {
    var records: seq<seq<int>>
    ghost var rounds: seq<seq<int>>   // every round played so far

    ghost predicate Valid()
      reads this
    {
      AreRounds(rounds) && records == Kept(rounds)
    }

    constructor ()
      ensures Valid() && rounds == []
    {
      records, rounds := [], [];
    }

    /** The end of a round: its record is appended, and the oldest one dropped. */
    method RecordRound(multiples: seq<int>)
      requires Valid() && |multiples| == AREA_COUNT
      modifies this
      ensures Valid() && rounds == old(rounds) + [multiples]
    {
      KeptSnoc(rounds, multiples);
      var wins := FindWins(multiples);
      records := records + [wins];
      if |records| > MAX_RECORDS {
        records := records[1..];
      }
      rounds := rounds + [multiples];
    }

    static method FindWins(multiples: seq<int>) returns (wins: seq<int>)
      ensures wins == Wins(multiples)
    {
      wins := [];
      for i := 0 to |multiples|
        invariant wins == Wins(multiples[..i])
      {
        wins := wins + [if multiples[i] > 0 then 1 else 0];
        assert multiples[..i + 1] == multiples[..i] + [multiples[i]];
      }
      assert multiples[..|multiples|] == multiples;
    }

    method SendPlayLog(uin: nat) returns (packet: Packet)
      requires Valid() && uin < TWO_32
      ensures packet == TablePacket(rounds, uin)
      ensures packet.header.cmd == 3418 && packet.header.uin == uin
      ensures var r := Received(BainiuPlayLogRep, packet);
        r.Accepted? && r.cmd == 3418 && r.uin == uin && ShowsLastTen(r.msg, rounds)
    {
      KeptIsLastTen(rounds);
      LastTenArrive(rounds, uin);
      LogsWellFormed();
      var msg := NewPlayLogRep(records);
      packet := SendProtobufMsg(msg, S2C_MSG_BAINIU_PLAY_LOG, uin);
    }

    static method NewPlayLogRep(records: seq<seq<int>>) returns (msg: Message)
      requires AreRecords(records)
      ensures msg.Valid() && fresh(msg.Repr) && msg.layout == BainiuPlayLogRep
      ensures msg.Value() == PlayLogRep(records)
    {
      msg := new Message(BainiuPlayLogRep);
      NoPlayLogs();
      for i := 0 to |records|
        invariant msg.Valid() && fresh(msg.Repr) && msg.layout == BainiuPlayLogRep
        invariant msg.Value() == PlayLogRep(records[..i])
      {
        AddPlayLog(msg, records[..i], records[i]);
        assert records[..i + 1] == records[..i] + [records[i]];
      }
      assert records[..|records|] == records;
    }

    /** add_logs, and the flags of one round through the pointer it returns. */
    static method AddPlayLog(msg: Message, ghost before: seq<seq<int>>, wins: seq<int>)
      requires msg.Valid() && msg.layout == BainiuPlayLogRep && msg.Value() == PlayLogRep(before)
      requires AreFlags(wins)
      modifies msg
      ensures msg.Valid() && fresh(msg.Repr - old(msg.Repr)) && msg.Value() == PlayLogRep(before + [wins])
    {
      LogsWellFormed();
      ghost var was, R, vs := msg.subs, msg.Below(), msg.SubValues();
      var plog := msg.AddSub(0);
      FillPlayLog(msg, plog, was, R, vs, wins);
      PlayLogRepSnoc(before, wins);
    }

    /** The pointer belongs to the last log of `msg`, which takes on what is written. */
    static method FillPlayLog(msg: Message, plog: Message, ghost was: seq<Message>, ghost R: set<Message>,
                              ghost vs: seq<Msg>, wins: seq<int>)
      requires AreFlags(wins) && msg.layout == BainiuPlayLogRep && plog.layout == BainiuPlayLog
      requires msg in msg.Repr && CellsOk(msg.layout, msg.Own()) && msg.subs == was + [plog]
      requires msg.Below() == R + plog.Repr && R !! plog.Repr && plog !in R && plog != msg
      requires Elements(BainiuPlayLogRep, was, R) && Values(BainiuPlayLogRep, was, R) == vs
      requires plog.Valid() && plog.Value() == Empty(BainiuPlayLog)
      modifies plog`ints
      ensures msg.Valid()
      ensures var m := ValueOf(BainiuPlayLogRep, msg.Own(), vs);
        msg.Value() == m.(slots := m.slots[0 := Msgs(vs + [PlayLog(wins)])])
    {
      LogsWellFormed();
      WriteWins(plog, wins);
      msg.LastWritten(0, was, R, plog, vs);
    }

    /** add_seats_win for each area. */
    static method WriteWins(plog: Message, wins: seq<int>)
      requires AreFlags(wins) && plog.Valid() && plog.layout == BainiuPlayLog
      requires plog.Value() == Empty(BainiuPlayLog)
      modifies plog`ints
      ensures plog.Valid() && plog.Value() == PlayLog(wins)
    {
      assert Empty(BainiuPlayLog).slots == [Ints([])];
      for j := 0 to |wins|
        invariant plog.Valid() && plog.Value() == PlayLog(wins[..j])
      {
        plog.AddInt(0, wins[j]);
        assert wins[..j + 1] == wins[..j] + [wins[j]];
      }
      assert wins[..|wins|] == wins;
    }
  }
}
