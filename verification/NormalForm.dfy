/** What the parser leaves behind is always a well-formed message, never more than
    three times as long as its input when written out, and a fixed point of writing
    and parsing again. */
module NormalForm {
  import opened Wire
  import opened Records
  import opened Layouts
  import opened Messages
  import opened RoundTrip

  // ------------------------------------------------------ the parser's invariant

  lemma EmptyOk(d: Layout)
    ensures MsgOk(d, Empty(d))
    ensures Size(d, Empty(d)) == 0
  {
    EmptySize(d, |d.fields|);
  }

  lemma {:induction false} EmptySize(d: Layout, n: nat)
    requires n <= |d.fields|
    ensures MsgOk(d, Empty(d)) && FieldsSize(d, Empty(d), n) == 0
  {
    if n > 0 {
      EmptySize(d, n - 1);
      var f := d.fields[n - 1];
      assert SlotSize(f, EmptySlot(f)) == 0 by {
        match f case Single(_, _, _) => case Repeated(_, _) => case SubMessages(_, _) =>
      }
    }
  }

  lemma SlotUpdateOk(d: Layout, m: Msg, k: nat, s: Slot)
    requires MsgOk(d, m) && k < |d.fields| && SlotOk(d.fields[k], s)
    ensures MsgOk(d, m.(slots := m.slots[k := s]))
  {
  }

  lemma {:induction false} StoreOk(f: Field, s: Slot, p: Payload)
    requires SlotOk(f, s) && HasKind(f, s) && Accepts(f, WireType(p))
    requires p.Varint64? ==> p.value < TWO_64
    ensures SlotOk(f, Store(f, s, p).slot)
    decreases f, 0
  {
    match f
    case Single(_, _, _) =>
    case Repeated(_, _) =>
    case SubMessages(_, sub) =>
      EmptyOk(sub);
      ParseOk(sub, Empty(sub), p.data);
  }

  lemma {:induction false} ApplyOk(d: Layout, m: Msg, r: Rec)
    requires MsgOk(d, m) && Shaped(d, m) && ValidRec(r)
    ensures MsgOk(d, Apply(d, m, r).msg)
    decreases d, 0
  {
    match RouteRec(d, r)
    case Uninterpreted =>
    case Known(k) =>
      StoreOk(d.fields[k], m.slots[k], r.payload);
      SlotUpdateOk(d, m, k, Store(d.fields[k], m.slots[k], r.payload).slot);
  }

  lemma AbandonOk(d: Layout, m: Msg, tag: nat)
    requires MsgOk(d, m) && Shaped(d, m)
    ensures MsgOk(d, Abandon(d, m, tag))
  {
    match Route(d, tag / 8, tag % 8)
    case Known(k) =>
      if d.fields[k].SubMessages? {
        EmptyOk(d.fields[k].sub);
        assert SlotOk(d.fields[k], m.slots[k]);
        SlotUpdateOk(d, m, k, Msgs(m.slots[k].msgs + [Empty(d.fields[k].sub)]));
      }
    case Uninterpreted =>
  }

  lemma {:induction false} CutOk(d: Layout, m: Msg, tag: nat, kept: Payload, rest: seq<byte>)
    requires MsgOk(d, m) && Shaped(d, m)
    requires ValidRec(Rec(tag / 8, kept)) && (kept.Bytes? || kept.Group?) && tag % 8 == WireType(kept)
    ensures MsgOk(d, ParseCut(d, m, tag, kept, rest).msg)
    decreases d, 0
  {
    match Route(d, tag / 8, tag % 8)
    case Known(k) =>
      StoreOk(d.fields[k], m.slots[k], Bytes(rest));
      SlotUpdateOk(d, m, k, Store(d.fields[k], m.slots[k], Bytes(rest)).slot);
    case Uninterpreted =>
  }

  /** However a parse ends, values stay in range and the unknown set holds only
      records that would again not be interpreted. */
  lemma {:induction false} ParseOk(d: Layout, m: Msg, s: seq<byte>)
    requires MsgOk(d, m) && Shaped(d, m)
    ensures MsgOk(d, Parse(d, m, s).msg)
    decreases d, |s| + 1
  {
    match NextRec(s)
    case Good(rec, n) =>
      ReadIsValid(s);
      ApplyOk(d, m, rec);
      var a := Apply(d, m, rec);
      if a.ok {
        ParseOk(d, a.msg, s[n..]);
      }
    case NoValue(tag) => AbandonOk(d, m, tag);
    case CutShort(tag, kept, rest) =>
      ReadIsValid(s);
      CutOk(d, m, tag, kept, rest);
    case _ =>
  }

  lemma MergeOk(d: Layout, a: Msg, b: Msg)
    requires MsgOk(d, a) && MsgOk(d, b)
    ensures MsgOk(d, Merge(a, b))
  {
    var m := Merge(a, b);
    forall k | 0 <= k < |d.fields|
      ensures SlotOk(d.fields[k], m.slots[k])
    {
      assert SlotOk(d.fields[k], a.slots[k]) && SlotOk(d.fields[k], b.slots[k]);
    }
  }

  // ------------------------------------------------------------ bounded growth

  /** No encoding of a value is shorter than the canonical one. */
  lemma {:induction false} VarintMinimal(s: seq<byte>, max: nat)
    requires ReadVarintUpTo(s, max).Varint?
    ensures |EncodeVarint(ReadVarintUpTo(s, max).value)| <= ReadVarintUpTo(s, max).len
    decreases |s|
  {
    if s[0] >= 128 {
      VarintMinimal(s[1..], max - 1);
      var v := ReadVarintUpTo(s[1..], max - 1).value;
      assert (s[0] - 128 + 128 * v) / 128 == v;
    }
  }

  lemma VarintCanonical(s: seq<byte>)
    requires ReadVarint64(s).Varint?
    ensures |EncodeVarint(ReadVarint64(s).value)| <= ReadVarint64(s).len
    ensures |EncodeVarint(ReadVarint32(s).value)| <= ReadVarint32(s).len
  {
    VarintMinimal(s, MAX_VARINT_BYTES);
    var v := ReadVarintUpTo(s, MAX_VARINT_BYTES).value;
    EncodeVarintMonotone(v % TWO_64, v);
    EncodeVarintMonotone(v % TWO_64 % TWO_32, v % TWO_64);
  }

  /** Writing a record again never takes more bytes than it was read from. */
  lemma {:induction false} RecCanonical(s: seq<byte>)
    requires NextRec(s).Good?
    ensures |EncodeRec(NextRec(s).rec)| <= NextRec(s).len
    decreases |s|, 0
  {
    VarintCanonical(s);
    var tagRead := ReadVarint32(s);
    var tag := tagRead.value;
    assert MakeTag(tag / 8, tag % 8) == tag;
    PayloadCanonical(tag / 8, tag % 8, s[tagRead.len..]);
  }

  lemma {:induction false} PayloadCanonical(number: nat, wireType: nat, s: seq<byte>)
    requires ReadPayload(number, wireType, s).GotPayload?
    ensures var r := ReadPayload(number, wireType, s);
      |EncodePayload(Rec(number, r.payload))| <= r.len
    decreases |s|, 2
  {
    if wireType == WT_VARINT || wireType == WT_LENGTH_DELIMITED {
      VarintCanonical(s);
    } else if wireType == WT_START_GROUP {
      GroupCanonical(s);
    }
  }

  lemma {:induction false} GroupCanonical(s: seq<byte>)
    requires ReadGroup(s).GotGroup?
    ensures var r := ReadGroup(s);
      |EncodeRecs(r.recs)| + |EncodeVarint(MakeTag(r.number, WT_END_GROUP))| <= r.len
    decreases |s|, 1
  {
    match NextRec(s)
    case Good(rec, n) =>
      RecCanonical(s);
      GroupCanonical(s[n..]);
      var rest := ReadGroup(s[n..]).recs;
      assert ([rec] + rest)[1..] == rest;
    case GroupEnd(number, n) =>
      VarintCanonical(s);
      assert MakeTag(number, WT_END_GROUP) == ReadVarint32(s).value;
  }

  /** What is kept of a record that breaks off at most doubles when written: it gets the end
      tags that were missing. */
  lemma {:induction false} PartCanonical(s: seq<byte>)
    requires NextRec(s).CutShort?
    ensures var r := NextRec(s);
      && |EncodeRec(Rec(r.tag / 8, r.kept))| <= 2 * |s|
      && (r.kept.Bytes? ==> |r.rest| + 2 <= |s|)
    decreases |s|, 0
  {
    VarintCanonical(s);
    var tagRead := ReadVarint32(s);
    var tag, body := tagRead.value, s[tagRead.len..];
    assert MakeTag(tag / 8, tag % 8) == tag;
    if tag % 8 == WT_LENGTH_DELIMITED {
      PartBytesCanonical(tag / 8, body);
    } else {
      OpenGroupCanonical(body);
      EndTagLength(tag / 8);
    }
  }

  lemma PartBytesCanonical(number: nat, s: seq<byte>)
    requires ReadPayload(number, WT_LENGTH_DELIMITED, s).PartPayload?
    ensures var r := ReadPayload(number, WT_LENGTH_DELIMITED, s);
      |EncodePayload(Rec(number, r.kept))| <= |s| && |r.rest| + 1 <= |s|
  {
    var len := ReadVarint32(s).value;
    VarintCanonical(s);
    EncodeVarintMonotone(|ReadPayload(number, WT_LENGTH_DELIMITED, s).kept.data|, len);
  }

  lemma EndTagLength(number: nat)
    ensures |EncodeVarint(MakeTag(number, WT_END_GROUP))| == |EncodeVarint(MakeTag(number, WT_START_GROUP))|
  {
    assert MakeTag(number, WT_END_GROUP) / 128 == MakeTag(number, WT_START_GROUP) / 128;
  }

  lemma {:induction false} OpenGroupCanonical(s: seq<byte>)
    ensures |EncodeRecs(ReadGroup(s).recs)| <= 2 * |s|
    decreases |s|, 1
  {
    match NextRec(s)
    case Good(rec, n) =>
      RecCanonical(s);
      OpenGroupCanonical(s[n..]);
      var rest := ReadGroup(s[n..]).recs;
      assert ([rec] + rest)[1..] == rest;
    case CutShort(tag, kept, _) =>
      PartCanonical(s);
      EncodeOne(Rec(tag / 8, kept));
    case _ =>
  }

  /** Sign extension at most doubles an integer's bytes. */
  lemma IntGrowth(ty: IntType, u: nat)
    requires u < TWO_64
    ensures IntSize(ty, FromWire(ty, u)) <= 2 * VarintSize64(u)
  {
  }

  lemma {:induction false} IntsSizeAppend(ty: IntType, a: seq<int>, b: seq<int>)
    requires forall i :: 0 <= i < |a| ==> InRange(ty, a[i])
    requires forall i :: 0 <= i < |b| ==> InRange(ty, b[i])
    ensures IntsSize(ty, a + b) == IntsSize(ty, a) + IntsSize(ty, b)
    decreases |b|
  {
    if b == [] {
      assert a + b == a;
    } else {
      IntsSizeAppend(ty, a, b[..|b| - 1]);
      assert (a + b)[..|a + b| - 1] == a + b[..|b| - 1];
    }
  }

  lemma {:induction false} PackedGrowth(ty: IntType, s: seq<byte>)
    ensures |ReadPacked(ty, s).vals| + IntsSize(ty, ReadPacked(ty, s).vals) <= 3 * |s|
    decreases |s|
  {
    if s != [] && ReadVarint64(s).Varint? {
      var Varint(u, n) := ReadVarint64(s);
      var v, rest := FromWire(ty, u), ReadPacked(ty, s[n..]).vals;
      PackedGrowth(ty, s[n..]);
      VarintCanonical(s);
      VarintLength(u);
      IntGrowth(ty, u);
      assert [v][..0] == [];
      IntsSizeAppend(ty, [v], rest);
    }
  }

  lemma {:induction false} FieldsSizeUpdate(d: Layout, m: Msg, k: nat, s: Slot, n: nat)
    requires MsgOk(d, m) && k < |d.fields| && SlotOk(d.fields[k], s) && n <= |d.fields|
    ensures MsgOk(d, m.(slots := m.slots[k := s]))
    ensures FieldsSize(d, m.(slots := m.slots[k := s]), n)
         == FieldsSize(d, m, n) + if k < n then SlotSize(d.fields[k], s) - SlotSize(d.fields[k], m.slots[k]) else 0
    decreases n
  {
    SlotUpdateOk(d, m, k, s);
    if n > 0 {
      FieldsSizeUpdate(d, m, k, s, n - 1);
    }
  }

  lemma MsgsSizeSnoc(d: Layout, msgs: seq<Msg>, m: Msg)
    requires forall i :: 0 <= i < |msgs| ==> MsgOk(d, msgs[i])
    requires MsgOk(d, m)
    ensures forall i :: 0 <= i < |msgs + [m]| ==> MsgOk(d, (msgs + [m])[i])
    ensures MsgsSize(d, msgs + [m]) == MsgsSize(d, msgs) + VarintSize32(Size(d, m)) + Size(d, m)
  {
    assert (msgs + [m])[..|msgs|] == msgs;
  }

  lemma {:induction false} SubGrowth(sub: Layout, msgs: seq<Msg>, data: seq<byte>)
    requires forall i :: 0 <= i < |msgs| ==> MsgOk(sub, msgs[i])
    ensures var m := Parse(sub, Empty(sub), data).msg;
      && (forall i :: 0 <= i < |msgs + [m]| ==> MsgOk(sub, (msgs + [m])[i]))
      && 1 + MsgsSize(sub, msgs + [m]) <= MsgsSize(sub, msgs) + 3 * (2 + |data|)
    decreases sub, |data| + 2
  {
    EmptyOk(sub);
    ParseGrowth(sub, Empty(sub), data);
    var m := Parse(sub, Empty(sub), data).msg;
    MsgsSizeSnoc(sub, msgs, m);
  }

  lemma {:induction false} BytesGrowth(f: Field, s: Slot, data: seq<byte>)
    requires SlotOk(f, s) && HasKind(f, s) && Accepts(f, WT_LENGTH_DELIMITED)
    ensures SlotOk(f, Store(f, s, Bytes(data)).slot)
    ensures SlotSize(f, Store(f, s, Bytes(data)).slot) <= SlotSize(f, s) + 3 * (2 + |data|)
    decreases f, 0
  {
    StoreOk(f, s, Bytes(data));
    if f.Repeated? {
      PackedGrowth(f.ty, data);
      IntsSizeAppend(f.ty, s.vals, ReadPacked(f.ty, data).vals);
    } else {
      SubGrowth(f.sub, s.msgs, data);
    }
  }

  lemma {:induction false} StoreGrowth(f: Field, s: Slot, r: Rec)
    requires SlotOk(f, s) && HasKind(f, s) && ValidRec(r) && Accepts(f, WireType(r.payload))
    ensures SlotOk(f, Store(f, s, r.payload).slot)
    ensures SlotSize(f, Store(f, s, r.payload).slot) <= SlotSize(f, s) + 3 * |EncodeRec(r)|
    decreases f, 1
  {
    StoreOk(f, s, r.payload);
    match r.payload
    case Varint64(u) =>
      VarintLength(u);
      IntGrowth(f.ty, u);
      if f.Repeated? {
        var v := FromWire(f.ty, u);
        assert (s.vals + [v])[..|s.vals|] == s.vals;
      }
    case Bytes(data) =>
      VarintLength(|data|);
      BytesGrowth(f, s, data);
  }

  lemma {:induction false} RecsSizeSnoc(rs: seq<Rec>, r: Rec)
    ensures RecsSize(rs + [r]) == RecsSize(rs) + RecSize(r)
  {
    if rs == [] {
      assert [] + [r] == [r] && [r][1..] == [];
    } else {
      RecsSizeSnoc(rs[1..], r);
      assert (rs + [r])[1..] == rs[1..] + [r];
    }
  }

  lemma {:induction false} ApplyGrowth(d: Layout, m: Msg, r: Rec)
    requires MsgOk(d, m) && Shaped(d, m) && ValidRec(r)
    ensures MsgOk(d, Apply(d, m, r).msg)
    ensures Size(d, Apply(d, m, r).msg) <= Size(d, m) + 3 * |EncodeRec(r)|
    decreases d, 0
  {
    ApplyOk(d, m, r);
    var n := |d.fields|;
    match RouteRec(d, r)
    case Uninterpreted =>
      RecsSizeSnoc(m.unknown, r);
      RecSizeExact(r);
      FieldsSizeSlots(d, m, Apply(d, m, r).msg, n);
    case Known(k) =>
      var s := Store(d.fields[k], m.slots[k], r.payload).slot;
      StoreGrowth(d.fields[k], m.slots[k], r);
      FieldsSizeUpdate(d, m, k, s, n);
  }

  lemma {:induction false} FieldsSizeSlots(d: Layout, a: Msg, b: Msg, n: nat)
    requires MsgOk(d, a) && MsgOk(d, b) && a.slots == b.slots && n <= |d.fields|
    ensures FieldsSize(d, a, n) == FieldsSize(d, b, n)
    decreases n
  {
    if n > 0 {
      FieldsSizeSlots(d, a, b, n - 1);
    }
  }

  lemma AbandonGrowth(d: Layout, m: Msg, tag: nat)
    requires MsgOk(d, m) && Shaped(d, m)
    ensures MsgOk(d, Abandon(d, m, tag))
    ensures Size(d, Abandon(d, m, tag)) <= Size(d, m) + 3
  {
    AbandonOk(d, m, tag);
    match Route(d, tag / 8, tag % 8)
    case Known(k) =>
      if d.fields[k].SubMessages? {
        var sub, msgs := d.fields[k].sub, m.slots[k].msgs;
        EmptyOk(sub);
        assert SlotOk(d.fields[k], m.slots[k]);
        MsgsSizeSnoc(sub, msgs, Empty(sub));
        FieldsSizeUpdate(d, m, k, Msgs(msgs + [Empty(sub)]), |d.fields|);
      }
    case Uninterpreted =>
  }

  lemma {:induction false} CutGrowth(d: Layout, m: Msg, s: seq<byte>)
    requires MsgOk(d, m) && Shaped(d, m) && NextRec(s).CutShort?
    ensures var r := NextRec(s);
      var p := ParseCut(d, m, r.tag, r.kept, r.rest).msg;
      MsgOk(d, p) && Size(d, p) <= Size(d, m) + 3 * |s|
    decreases d, 0
  {
    var CutShort(tag, kept, rest) := NextRec(s);
    ReadIsValid(s);
    PartCanonical(s);
    CutOk(d, m, tag, kept, rest);
    var n := |d.fields|;
    match Route(d, tag / 8, tag % 8)
    case Uninterpreted =>
      var r := Rec(tag / 8, kept);
      RecsSizeSnoc(m.unknown, r);
      RecSizeExact(r);
      FieldsSizeSlots(d, m, m.(unknown := m.unknown + [r]), n);
    case Known(k) =>
      BytesGrowth(d.fields[k], m.slots[k], rest);
      FieldsSizeUpdate(d, m, k, Store(d.fields[k], m.slots[k], Bytes(rest)).slot, n);
  }

  /** A parse adds at most three bytes of encoding per byte of input. */
  lemma {:induction false} ParseGrowth(d: Layout, m: Msg, s: seq<byte>)
    requires MsgOk(d, m) && Shaped(d, m)
    ensures MsgOk(d, Parse(d, m, s).msg)
    ensures Size(d, Parse(d, m, s).msg) <= Size(d, m) + 3 * |s|
    decreases d, |s| + 1
  {
    match NextRec(s)
    case Good(rec, n) =>
      ReadIsValid(s);
      RecCanonical(s);
      ApplyGrowth(d, m, rec);
      var a := Apply(d, m, rec);
      if a.ok {
        ParseGrowth(d, a.msg, s[n..]);
      }
    case NoValue(tag) => AbandonGrowth(d, m, tag);
    case CutShort(_, _, _) => CutGrowth(d, m, s);
    case _ =>
  }

  // ---------------------------------------------------------------- normal form

  /** Whatever a parse leaves in the message, writing it out and parsing that gives the
      same message again, as long as its size fits an `int`; it does for any input of up
      to a third of that. */
  lemma {:induction false} ParseIsNormalForm(d: Layout, s: seq<byte>)
    requires Numbered(d)
    ensures var m := Parse(d, Empty(d), s).msg;
      && MsgOk(d, m)
      && Size(d, m) <= 3 * |s|
      && (Size(d, m) < TWO_31 ==> Parse(d, Empty(d), Serialize(d, m)) == Parsed(m, Complete))
  {
    EmptyOk(d);
    ParseGrowth(d, Empty(d), s);
    if Size(d, Parse(d, Empty(d), s).msg) < TWO_31 {
      ParseInvertsSerialize(d, Parse(d, Empty(d), s).msg);
    }
  }
}
