/** The bytes of a message piece by piece, in the order the serializers write them. */
module Writing {
  import opened Wire
  import opened Records
  import opened Layouts
  import opened Messages
  import opened RoundTrip
  import opened Streams

  /** Tag and value of one integer. */
  function IntBytes(number: nat, ty: IntType, v: int): seq<byte>
    requires InRange(ty, v)
  {
    EncodeVarint(MakeTag(number, WT_VARINT)) + EncodeVarint(ToWire(ty, v))
  }

  lemma IntRecBytes(number: nat, ty: IntType, v: int)
    requires InRange(ty, v)
    ensures EncodeRecs([Rec(number, Varint64(ToWire(ty, v)))]) == IntBytes(number, ty, v)
  {
    EncodeOne(Rec(number, Varint64(ToWire(ty, v))));
  }

  lemma IntRecsBytes(number: nat, ty: IntType, vals: seq<int>, i: nat)
    requires i < |vals| && forall j :: 0 <= j < |vals| ==> InRange(ty, vals[j])
    ensures EncodeRecs(IntRecs(number, ty, vals[..i + 1]))
         == EncodeRecs(IntRecs(number, ty, vals[..i])) + IntBytes(number, ty, vals[i])
  {
    var r := Rec(number, Varint64(ToWire(ty, vals[i])));
    assert IntRecs(number, ty, vals[..i + 1]) == IntRecs(number, ty, vals[..i]) + [r];
    EncodeRecsConcat(IntRecs(number, ty, vals[..i]), [r]);
    IntRecBytes(number, ty, vals[i]);
  }

  lemma IntRecsFit(number: nat, ty: IntType, vals: seq<int>, i: nat)
    requires i <= |vals| && forall j :: 0 <= j < |vals| ==> InRange(ty, vals[j])
    ensures |EncodeRecs(IntRecs(number, ty, vals[..i]))| <= |EncodeRecs(IntRecs(number, ty, vals))|
  {
    IntRecsSplit(number, ty, vals, i);
    FirstRecsFit(IntRecs(number, ty, vals[..i]), IntRecs(number, ty, vals[i..]), IntRecs(number, ty, vals));
  }

  lemma IntRecsSplit(number: nat, ty: IntType, vals: seq<int>, i: nat)
    requires i <= |vals| && forall j :: 0 <= j < |vals| ==> InRange(ty, vals[j])
    ensures IntRecs(number, ty, vals) == IntRecs(number, ty, vals[..i]) + IntRecs(number, ty, vals[i..])
  {
  }

  lemma FirstRecsFit(a: seq<Rec>, b: seq<Rec>, all: seq<Rec>)
    requires all == a + b
    ensures |EncodeRecs(a)| <= |EncodeRecs(all)|
  {
    EncodeRecsConcat(a, b);
  }

  lemma IntStepToArray(number: nat, ty: IntType, vals: seq<int>, i: nat,
                       was: seq<byte>, start: nat, now: seq<byte>, pos: nat)
    requires i < |vals| && forall j :: 0 <= j < |vals| ==> InRange(ty, vals[j])
    requires start + |EncodeRecs(IntRecs(number, ty, vals))| <= |was|
    requires pos == start + |EncodeRecs(IntRecs(number, ty, vals[..i]))| <= |was|
    requires now == Placed(was, start, EncodeRecs(IntRecs(number, ty, vals[..i])))
    ensures pos + |IntBytes(number, ty, vals[i])| == start + |EncodeRecs(IntRecs(number, ty, vals[..i + 1]))| <= |was|
    ensures Placed(now, pos, IntBytes(number, ty, vals[i]))
         == Placed(was, start, EncodeRecs(IntRecs(number, ty, vals[..i + 1])))
  {
    IntRecsBytes(number, ty, vals, i);
    IntRecsFit(number, ty, vals, i + 1);
    PlacedTwice(was, start, EncodeRecs(IntRecs(number, ty, vals[..i])), IntBytes(number, ty, vals[i]));
  }

  /** Tag and length prefix of one submessage of the given size. */
  function PrefixBytes(number: nat, size: nat): seq<byte>
  {
    EncodeVarint(MakeTag(number, WT_LENGTH_DELIMITED)) + EncodeVarint(size)
  }

  lemma SubRecsBytes(number: nat, d: Layout, msgs: seq<Msg>, i: nat)
    requires i < |msgs| && Numbered(d)
    requires forall j :: 0 <= j < |msgs| ==> MsgOk(d, msgs[j])
    requires Size(d, msgs[i]) < TWO_31
    ensures EncodeRecs(SubRecs(number, d, msgs[..i + 1]))
         == EncodeRecs(SubRecs(number, d, msgs[..i])) + PrefixBytes(number, Size(d, msgs[i])) + Serialize(d, msgs[i])
  {
    var r := Rec(number, Bytes(Serialize(d, msgs[i])));
    assert msgs[..i + 1] == msgs[..i] + [msgs[i]];
    SubRecsSnoc(number, d, msgs[..i], msgs[i]);
    EncodeRecsConcat(SubRecs(number, d, msgs[..i]), [r]);
    EncodeOne(r);
    SizeExact(d, msgs[i]);
    AppendAssoc(EncodeVarint(MakeTag(number, WT_LENGTH_DELIMITED)), EncodeVarint(Size(d, msgs[i])),
                Serialize(d, msgs[i]));
    AppendAssoc(EncodeRecs(SubRecs(number, d, msgs[..i])), PrefixBytes(number, Size(d, msgs[i])),
                Serialize(d, msgs[i]));
  }

  lemma SubRecsFit(number: nat, d: Layout, msgs: seq<Msg>, i: nat)
    requires i <= |msgs| && forall j :: 0 <= j < |msgs| ==> MsgOk(d, msgs[j])
    ensures |EncodeRecs(SubRecs(number, d, msgs[..i]))| <= |EncodeRecs(SubRecs(number, d, msgs))|
  {
    FirstRecsFit(SubRecs(number, d, msgs[..i]), SubRecs(number, d, msgs[i..]), SubRecs(number, d, msgs));
  }

  lemma FieldRecsBytes(d: Layout, m: Msg, n: nat)
    requires MsgOk(d, m) && n < |d.fields|
    ensures SlotOk(d.fields[n], m.slots[n])
    ensures EncodeRecs(FieldRecs(d, m, n + 1))
         == EncodeRecs(FieldRecs(d, m, n)) + EncodeRecs(SlotRecs(d.fields[n], m.slots[n]))
  {
    assert SlotOk(d.fields[n], m.slots[n]);
    EncodeRecsConcat(FieldRecs(d, m, n), SlotRecs(d.fields[n], m.slots[n]));
  }

  lemma SerializeBytes(d: Layout, m: Msg)
    requires MsgOk(d, m)
    ensures Serialize(d, m) == EncodeRecs(FieldRecs(d, m, |d.fields|)) + EncodeRecs(m.unknown)
  {
    EncodeRecsConcat(FieldRecs(d, m, |d.fields|), m.unknown);
  }

  lemma {:induction false} FieldRecsFit(d: Layout, m: Msg, n: nat)
    requires MsgOk(d, m) && n <= |d.fields|
    ensures |EncodeRecs(FieldRecs(d, m, n))| <= |EncodeRecs(FieldRecs(d, m, |d.fields|))|
    decreases |d.fields| - n
  {
    if n < |d.fields| {
      FieldRecsBytes(d, m, n);
      FieldRecsFit(d, m, n + 1);
    }
  }

  /** The bytes of one field. */
  ghost function SlotBytes(f: Field, s: Slot): seq<byte>
    requires SlotOk(f, s)
  {
    EncodeRecs(SlotRecs(f, s))
  }

  /** The bytes of the first `n` fields. */
  ghost function FieldBytes(d: Layout, m: Msg, n: nat): seq<byte>
    requires MsgOk(d, m) && n <= |d.fields|
  {
    EncodeRecs(FieldRecs(d, m, n))
  }

  /** One more field on a stream. */
  lemma FieldStep(d: Layout, m: Msg, n: nat, was: seq<byte>, now: seq<byte>)
    requires MsgOk(d, m) && n < |d.fields| && now == was + FieldBytes(d, m, n)
    ensures SlotOk(d.fields[n], m.slots[n])
    ensures now + SlotBytes(d.fields[n], m.slots[n]) == was + FieldBytes(d, m, n + 1)
  {
    FieldRecsBytes(d, m, n);
    AppendAssoc(was, FieldBytes(d, m, n), SlotBytes(d.fields[n], m.slots[n]));
  }

  /** The unknown fields come last. */
  lemma LastStep(d: Layout, m: Msg, was: seq<byte>, now: seq<byte>)
    requires MsgOk(d, m) && now == was + FieldBytes(d, m, |d.fields|)
    ensures now + EncodeRecs(m.unknown) == was + Serialize(d, m)
  {
    SerializeBytes(d, m);
    AppendAssoc(was, FieldBytes(d, m, |d.fields|), EncodeRecs(m.unknown));
  }

  /** `now` is `was` with the first `n` fields written from `start` to `end`. */
  ghost predicate FieldsPlaced(d: Layout, m: Msg, n: nat, was: seq<byte>, start: nat, now: seq<byte>, end: nat)
    requires MsgOk(d, m) && n <= |d.fields|
  {
    end == start + |FieldBytes(d, m, n)| <= |was| && now == Placed(was, start, FieldBytes(d, m, n))
  }

  lemma NoFieldsPlaced(d: Layout, m: Msg, was: seq<byte>, start: nat)
    requires MsgOk(d, m) && start <= |was|
    ensures FieldsPlaced(d, m, 0, was, start, was, start)
  {
    NothingPlaced(was, start);
  }

  /** One more field in an array with room for the whole message. */
  lemma FieldStepToArray(d: Layout, m: Msg, n: nat, was: seq<byte>, start: nat, now: seq<byte>, pos: nat)
    requires MsgOk(d, m) && n < |d.fields| && start + |Serialize(d, m)| <= |was|
    requires FieldsPlaced(d, m, n, was, start, now, pos)
    ensures SlotOk(d.fields[n], m.slots[n])
    ensures var bytes := SlotBytes(d.fields[n], m.slots[n]);
      && pos + |bytes| <= |now| == |was|
      && FieldsPlaced(d, m, n + 1, was, start, Placed(now, pos, bytes), pos + |bytes|)
  {
    FieldRecsBytes(d, m, n);
    FieldRecsFit(d, m, n + 1);
    SerializeBytes(d, m);
    PlacedTwice(was, start, FieldBytes(d, m, n), SlotBytes(d.fields[n], m.slots[n]));
  }

  /** The unknown fields come last. */
  lemma LastStepToArray(d: Layout, m: Msg, was: seq<byte>, start: nat, now: seq<byte>, pos: nat)
    requires MsgOk(d, m) && start + |Serialize(d, m)| <= |was|
    requires FieldsPlaced(d, m, |d.fields|, was, start, now, pos)
    ensures pos + |EncodeRecs(m.unknown)| == start + |Serialize(d, m)|
    ensures Placed(now, pos, EncodeRecs(m.unknown)) == Placed(was, start, Serialize(d, m))
  {
    SerializeBytes(d, m);
    PlacedTwice(was, start, FieldBytes(d, m, |d.fields|), EncodeRecs(m.unknown));
  }

  ghost function SubsBytes(number: nat, d: Layout, msgs: seq<Msg>): seq<byte>
    requires forall i :: 0 <= i < |msgs| ==> MsgOk(d, msgs[i])
  {
    EncodeRecs(SubRecs(number, d, msgs))
  }

  /** One whole submessage: tag, length prefix, body. */
  ghost function SubBytes(number: nat, d: Layout, m: Msg): seq<byte>
    requires MsgOk(d, m)
  {
    PrefixBytes(number, Size(d, m)) + Serialize(d, m)
  }

  lemma SubStep(number: nat, d: Layout, msgs: seq<Msg>, i: nat, was: seq<byte>, now: seq<byte>)
    requires i < |msgs| && Numbered(d) && forall j :: 0 <= j < |msgs| ==> MsgOk(d, msgs[j])
    requires Size(d, msgs[i]) < TWO_31 && now == was + SubsBytes(number, d, msgs[..i])
    ensures now + SubBytes(number, d, msgs[i]) == was + SubsBytes(number, d, msgs[..i + 1])
  {
    SubRecsBytes(number, d, msgs, i);
    AppendAssoc(SubsBytes(number, d, msgs[..i]), PrefixBytes(number, Size(d, msgs[i])), Serialize(d, msgs[i]));
    AppendAssoc(was, SubsBytes(number, d, msgs[..i]), SubBytes(number, d, msgs[i]));
  }

  lemma SubStepToArray(number: nat, d: Layout, msgs: seq<Msg>, i: nat,
                       was: seq<byte>, start: nat, now: seq<byte>, pos: nat)
    requires i < |msgs| && Numbered(d) && forall j :: 0 <= j < |msgs| ==> MsgOk(d, msgs[j])
    requires Size(d, msgs[i]) < TWO_31 && start + |SubsBytes(number, d, msgs)| <= |was|
    requires pos == start + |SubsBytes(number, d, msgs[..i])| <= |was|
    requires now == Placed(was, start, SubsBytes(number, d, msgs[..i]))
    ensures pos + |SubBytes(number, d, msgs[i])| == start + |SubsBytes(number, d, msgs[..i + 1])| <= |was|
    ensures Placed(now, pos, SubBytes(number, d, msgs[i])) == Placed(was, start, SubsBytes(number, d, msgs[..i + 1]))
  {
    SubRecsBytes(number, d, msgs, i);
    SubRecsFit(number, d, msgs, i + 1);
    AppendAssoc(SubsBytes(number, d, msgs[..i]), PrefixBytes(number, Size(d, msgs[i])), Serialize(d, msgs[i]));
    PlacedTwice(was, start, SubsBytes(number, d, msgs[..i]), SubBytes(number, d, msgs[i]));
  }

  /** Prefix first and body behind it is the whole submessage. */
  lemma SubBytesPlaced(number: nat, d: Layout, m: Msg, was: seq<byte>, start: nat, now: seq<byte>)
    requires Numbered(d) && MsgOk(d, m) && Size(d, m) < TWO_31
    requires start + |SubBytes(number, d, m)| <= |was| && start + |PrefixBytes(number, Size(d, m))| <= |was|
    requires now == Placed(was, start, PrefixBytes(number, Size(d, m)))
    ensures |Serialize(d, m)| == Size(d, m)
    ensures var pos := start + |PrefixBytes(number, Size(d, m))|;
      && start + |SubBytes(number, d, m)| == pos + Size(d, m) <= |now|
      && Placed(now, pos, Serialize(d, m)) == Placed(was, start, SubBytes(number, d, m))
  {
    SizeExact(d, m);
    PlacedTwice(was, start, PrefixBytes(number, Size(d, m)), Serialize(d, m));
  }

  // ------------------------------------------------- nested sizes stay below outer

  lemma {:induction false} SlotBelowFields(d: Layout, m: Msg, k: nat, n: nat)
    requires MsgOk(d, m) && k < n <= |d.fields|
    ensures SlotOk(d.fields[k], m.slots[k]) && SlotSize(d.fields[k], m.slots[k]) <= FieldsSize(d, m, n)
  {
    assert SlotOk(d.fields[k], m.slots[k]);
    if k < n - 1 {
      SlotBelowFields(d, m, k, n - 1);
    }
  }

  lemma {:induction false} ElementBelowList(d: Layout, msgs: seq<Msg>, i: nat)
    requires i < |msgs| && forall j :: 0 <= j < |msgs| ==> MsgOk(d, msgs[j])
    ensures Size(d, msgs[i]) <= MsgsSize(d, msgs)
  {
    if i < |msgs| - 1 {
      ElementBelowList(d, msgs[..|msgs| - 1], i);
    }
  }

  /** No submessage is larger than the message it is in. */
  lemma ElementBelowMessage(d: Layout, m: Msg, k: nat, i: nat)
    requires MsgOk(d, m) && k < |d.fields| && d.fields[k].SubMessages?
    requires m.slots[k].Msgs? && i < |m.slots[k].msgs|
    ensures MsgOk(d.fields[k].sub, m.slots[k].msgs[i])
    ensures Size(d.fields[k].sub, m.slots[k].msgs[i]) <= Size(d, m)
  {
    SlotBelowFields(d, m, k, |d.fields|);
    ElementBelowList(d.fields[k].sub, m.slots[k].msgs, i);
  }
}
