/** Counted sizes are exact, and parsing inverts serializing. */
module RoundTrip {
  import opened Wire
  import opened Records
  import opened Layouts
  import opened Messages
  import opened Merging

  // -------------------------------------------------------------- size = bytes

  lemma OneByteTag(number: nat, wireType: nat)
    requires number < 16 && wireType < 8
    ensures |EncodeVarint(MakeTag(number, wireType))| == 1
  {
  }

  lemma {:induction false} IntRecsSize(number: nat, ty: IntType, vals: seq<int>)
    requires 1 <= number < 16
    requires forall i :: 0 <= i < |vals| ==> InRange(ty, vals[i])
    ensures ValidRecs(IntRecs(number, ty, vals))
    ensures |EncodeRecs(IntRecs(number, ty, vals))| == |vals| + IntsSize(ty, vals)
  {
    if vals != [] {
      var init, last := vals[..|vals| - 1], vals[|vals| - 1];
      var r := Rec(number, Varint64(ToWire(ty, last)));
      IntRecsSize(number, ty, init);
      assert IntRecs(number, ty, vals) == IntRecs(number, ty, init) + [r];
      EncodeRecsConcat(IntRecs(number, ty, init), [r]);
      EncodeOne(r);
      OneByteTag(number, WT_VARINT);
      IntInversion(ty, last, []);
    }
  }

  lemma EncodeOne(r: Rec)
    ensures EncodeRecs([r]) == EncodeRec(r)
  {
    assert EncodeRecs([r][1..]) == [];
  }

  /** The record list of a repeated message field, one element longer. */
  ghost function SubRecs(number: nat, d: Layout, msgs: seq<Msg>): seq<Rec>
    requires forall i :: 0 <= i < |msgs| ==> MsgOk(d, msgs[i])
  {
    seq(|msgs|, i requires 0 <= i < |msgs| => Rec(number, Bytes(Serialize(d, msgs[i]))))
  }

  lemma SubRecsSnoc(number: nat, d: Layout, init: seq<Msg>, last: Msg)
    requires forall i :: 0 <= i < |init| ==> MsgOk(d, init[i])
    requires MsgOk(d, last)
    ensures forall i :: 0 <= i < |init| + 1 ==> MsgOk(d, (init + [last])[i])
    ensures SubRecs(number, d, init + [last])
         == SubRecs(number, d, init) + [Rec(number, Bytes(Serialize(d, last)))]
  {
  }

  lemma {:induction false} SubRecSize(number: nat, d: Layout, m: Msg)
    requires 1 <= number < 16 && Numbered(d) && MsgOk(d, m) && Size(d, m) < TWO_31
    ensures var r := Rec(number, Bytes(Serialize(d, m)));
      ValidRec(r) && |EncodeRec(r)| == 1 + VarintSize32(Size(d, m)) + Size(d, m)
    decreases d, |d.fields| + 2, 0
  {
    SizeExact(d, m);
    OneByteTag(number, WT_LENGTH_DELIMITED);
    VarintLength(Size(d, m));
  }

  lemma {:induction false} SubRecsSize(number: nat, d: Layout, msgs: seq<Msg>)
    requires 1 <= number < 16 && Numbered(d)
    requires forall i :: 0 <= i < |msgs| ==> MsgOk(d, msgs[i])
    requires MsgsSize(d, msgs) < TWO_31
    ensures ValidRecs(SubRecs(number, d, msgs))
    ensures |EncodeRecs(SubRecs(number, d, msgs))| == |msgs| + MsgsSize(d, msgs)
    decreases d, |d.fields| + 2, |msgs|
  {
    if msgs != [] {
      var init, last := msgs[..|msgs| - 1], msgs[|msgs| - 1];
      var r := Rec(number, Bytes(Serialize(d, last)));
      SubRecsSize(number, d, init);
      SubRecSize(number, d, last);
      assert init + [last] == msgs;
      SubRecsSnoc(number, d, init, last);
      EncodeRecsConcat(SubRecs(number, d, init), [r]);
      EncodeOne(r);
    }
  }

  lemma {:induction false} SlotSizeExact(f: Field, s: Slot)
    requires SlotOk(f, s) && 1 <= f.number < 16
    requires f.SubMessages? ==> Numbered(f.sub)
    requires SlotSize(f, s) < TWO_31
    ensures ValidRecs(SlotRecs(f, s))
    ensures |EncodeRecs(SlotRecs(f, s))| == SlotSize(f, s)
    decreases f, 0
  {
    match f
    case Single(number, ty, _) =>
      if s.opt.Present? {
        var r := Rec(number, Varint64(ToWire(ty, s.opt.value)));
        EncodeOne(r);
        OneByteTag(number, WT_VARINT);
        IntInversion(ty, s.opt.value, []);
      }
    case Repeated(number, ty) =>
      IntRecsSize(number, ty, s.vals);
    case SubMessages(number, sub) =>
      SubRecsSize(number, sub, s.msgs);
      assert SlotRecs(f, s) == SubRecs(number, sub, s.msgs);
  }

  lemma {:induction false} FieldsSizeExact(d: Layout, m: Msg, n: nat)
    requires Numbered(d) && MsgOk(d, m) && n <= |d.fields|
    requires FieldsSize(d, m, n) < TWO_31
    ensures ValidRecs(FieldRecs(d, m, n))
    ensures |EncodeRecs(FieldRecs(d, m, n))| == FieldsSize(d, m, n)
    decreases d, n
  {
    if n > 0 {
      FieldsSizeExact(d, m, n - 1);
      assert NumberAt(d, n - 1);
      SlotSizeExact(d.fields[n - 1], m.slots[n - 1]);
      EncodeRecsConcat(FieldRecs(d, m, n - 1), SlotRecs(d.fields[n - 1], m.slots[n - 1]));
    }
  }

  /** ByteSize counts exactly the bytes that are written. */
  lemma {:induction false} SizeExact(d: Layout, m: Msg)
    requires Numbered(d) && MsgOk(d, m) && Size(d, m) < TWO_31
    ensures ValidRecs(MsgRecs(d, m))
    ensures |Serialize(d, m)| == Size(d, m)
    decreases d, |d.fields| + 1
  {
    FieldsSizeExact(d, m, |d.fields|);
    RecsSizeExact(m.unknown);
    EncodeRecsConcat(FieldRecs(d, m, |d.fields|), m.unknown);
  }

  // --------------------------------------------------------------- round trip

  /** The message after the records of the first `n` fields. */
  function Prefix(d: Layout, m: Msg, n: nat): (p: Msg)
    requires Shaped(d, m) && n <= |d.fields|
    ensures Shaped(d, p)
  {
    Msg(m.slots[..n] + Empty(d).slots[n..], [])
  }

  lemma PrefixOfNone(d: Layout, m: Msg)
    requires Shaped(d, m)
    ensures Prefix(d, m, 0) == Empty(d)
  {
    assert m.slots[..0] + Empty(d).slots[0..] == Empty(d).slots;
  }

  lemma OkIsShaped(d: Layout, m: Msg)
    requires MsgOk(d, m)
    ensures Shaped(d, m)
  {
    forall k | 0 <= k < |d.fields|
      ensures HasKind(d.fields[k], m.slots[k])
    {
      assert SlotOk(d.fields[k], m.slots[k]);
    }
  }

  /** Folding a run of accepted records `rs` takes `from` to `to`. */
  ghost predicate Leads(d: Layout, from: Msg, rs: seq<Rec>, to: Msg)
  {
    Shaped(d, from) && Readable(rs) && AllTaken(d, rs) && Fold(d, from, rs) == to
  }

  lemma LeadsOne(d: Layout, from: Msg, r: Rec, to: Msg)
    requires Shaped(d, from) && (r.payload.Varint64? ==> r.payload.value < TWO_64)
    requires Apply(d, from, r) == Applied(to, true)
    ensures Leads(d, from, [r], to)
  {
    TakenAnywhere(d, from, r);
    assert [r][1..] == [];
  }

  lemma LeadsStore(d: Layout, from: Msg, k: nat, r: Rec, slot: Slot)
    requires Shaped(d, from) && k < |d.fields| && RouteRec(d, r) == Known(k)
    requires r.payload.Varint64? ==> r.payload.value < TWO_64
    requires Store(d.fields[k], from.slots[k], r.payload) == Stored(slot, true)
    ensures Leads(d, from, [r], from.(slots := from.slots[k := slot]))
  {
    LeadsOne(d, from, r, from.(slots := from.slots[k := slot]));
  }

  lemma LeadsTrans(d: Layout, x: Msg, a: seq<Rec>, y: Msg, b: seq<Rec>, z: Msg)
    requires Leads(d, x, a, y) && Leads(d, y, b, z)
    ensures Leads(d, x, a + b, z)
  {
    FoldAppend(d, x, a, b);
  }

  lemma SingleRecLeads(d: Layout, from: Msg, k: nat, v: int)
    requires Numbered(d) && Shaped(d, from)
    requires k < |d.fields| && d.fields[k].Single? && InRange(d.fields[k].ty, v)
    ensures Leads(d, from, [Rec(d.fields[k].number, Varint64(ToWire(d.fields[k].ty, v)))],
                  from.(slots := from.slots[k := Opt(Present(v))]))
  {
    var f := d.fields[k];
    var r := Rec(f.number, Varint64(ToWire(f.ty, v)));
    RouteIsUnique(d, k, WT_VARINT);
    IntInversion(f.ty, v, []);
    VarintRoundTrip(ToWire(f.ty, v), []);
    LeadsStore(d, from, k, r, Opt(Present(v)));
  }

  lemma {:induction false} IntRecsLead(d: Layout, from: Msg, k: nat, vals: seq<int>)
    requires Numbered(d) && Shaped(d, from)
    requires k < |d.fields| && d.fields[k].Repeated?
    requires forall i :: 0 <= i < |vals| ==> InRange(d.fields[k].ty, vals[i])
    ensures from.slots[k].Ints?
    ensures Leads(d, from, IntRecs(d.fields[k].number, d.fields[k].ty, vals),
                  from.(slots := from.slots[k := Ints(from.slots[k].vals + vals)]))
  {
    var f := d.fields[k];
    assert HasKind(f, from.slots[k]);
    var before := from.slots[k].vals;
    if vals == [] {
      assert before + [] == before;
      assert from.slots[k := Ints(before)] == from.slots;
    } else {
      var init, last := vals[..|vals| - 1], vals[|vals| - 1];
      var r := Rec(f.number, Varint64(ToWire(f.ty, last)));
      var mid := from.(slots := from.slots[k := Ints(before + init)]);
      var to := from.(slots := from.slots[k := Ints(before + vals)]);
      IntRecsLead(d, from, k, init);
      RouteIsUnique(d, k, WT_VARINT);
      IntInversion(f.ty, last, []);
      VarintRoundTrip(ToWire(f.ty, last), []);
      assert before + init + [last] == before + vals;
      assert mid.slots[k := Ints(before + vals)] == to.slots;
      LeadsStore(d, mid, k, r, Ints(before + vals));
      LeadsTrans(d, from, IntRecs(f.number, f.ty, init), mid, [r], to);
      assert IntRecs(f.number, f.ty, vals) == IntRecs(f.number, f.ty, init) + [r];
    }
  }

  lemma {:induction false} SubRecLeads(d: Layout, from: Msg, k: nat, m: Msg)
    requires Numbered(d) && Shaped(d, from)
    requires k < |d.fields| && d.fields[k].SubMessages? && from.slots[k].Msgs?
    requires MsgOk(d.fields[k].sub, m) && Size(d.fields[k].sub, m) < TWO_31
    ensures Leads(d, from, [Rec(d.fields[k].number, Bytes(Serialize(d.fields[k].sub, m)))],
                  from.(slots := from.slots[k := Msgs(from.slots[k].msgs + [m])]))
    decreases d, 0, 0
  {
    var f := d.fields[k];
    var r := Rec(f.number, Bytes(Serialize(f.sub, m)));
    assert NumberAt(d, k);
    RouteIsUnique(d, k, WT_LENGTH_DELIMITED);
    ParseInvertsSerialize(f.sub, m);
    LeadsStore(d, from, k, r, Msgs(from.slots[k].msgs + [m]));
  }

  lemma {:induction false} SubRecsLead(d: Layout, from: Msg, k: nat, msgs: seq<Msg>)
    requires Numbered(d) && Shaped(d, from)
    requires k < |d.fields| && d.fields[k].SubMessages? && from.slots[k] == Msgs([])
    requires forall i :: 0 <= i < |msgs| ==> MsgOk(d.fields[k].sub, msgs[i])
    requires MsgsSize(d.fields[k].sub, msgs) < TWO_31
    ensures Leads(d, from, SubRecs(d.fields[k].number, d.fields[k].sub, msgs),
                  from.(slots := from.slots[k := Msgs(msgs)]))
    decreases d, 0, |msgs|
  {
    var f := d.fields[k];
    if msgs == [] {
      assert from.slots[k := Msgs([])] == from.slots;
    } else {
      var init, last := msgs[..|msgs| - 1], msgs[|msgs| - 1];
      var r := Rec(f.number, Bytes(Serialize(f.sub, last)));
      var mid := from.(slots := from.slots[k := Msgs(init)]);
      var to := from.(slots := from.slots[k := Msgs(msgs)]);
      SubRecsLead(d, from, k, init);
      SubRecLeads(d, mid, k, last);
      assert init + [last] == msgs;
      assert mid.slots[k := Msgs(msgs)] == to.slots;
      SubRecsSnoc(f.number, f.sub, init, last);
      LeadsTrans(d, from, SubRecs(f.number, f.sub, init), mid, [r], to);
    }
  }

  lemma PrefixStep(d: Layout, m: Msg, n: nat)
    requires MsgOk(d, m) && Shaped(d, m) && n < |d.fields|
    ensures SlotOk(d.fields[n], m.slots[n])
    ensures Prefix(d, m, n).slots[n] == EmptySlot(d.fields[n])
    ensures Prefix(d, m, n + 1) == Prefix(d, m, n).(slots := Prefix(d, m, n).slots[n := m.slots[n]])
  {
    assert SlotOk(d.fields[n], m.slots[n]);
    assert Prefix(d, m, n + 1).slots == Prefix(d, m, n).slots[n := m.slots[n]];
  }

  lemma {:induction false} SlotRecsLead(d: Layout, m: Msg, n: nat)
    requires Numbered(d) && MsgOk(d, m) && Shaped(d, m) && n < |d.fields|
    requires SlotSize(d.fields[n], m.slots[n]) < TWO_31
    ensures Leads(d, Prefix(d, m, n), SlotRecs(d.fields[n], m.slots[n]), Prefix(d, m, n + 1))
    decreases d, 1
  {
    var from, to := Prefix(d, m, n), Prefix(d, m, n + 1);
    var f, s := d.fields[n], m.slots[n];
    PrefixStep(d, m, n);
    match f
    case Single(number, ty, _) =>
      if s.opt.Present? {
        SingleRecLeads(d, from, n, s.opt.value);
      } else {
        assert to == from;
      }
    case Repeated(number, ty) =>
      IntRecsLead(d, from, n, s.vals);
      assert [] + s.vals == s.vals;
    case SubMessages(number, sub) =>
      SubRecsLead(d, from, n, s.msgs);
      assert SlotRecs(f, s) == SubRecs(number, sub, s.msgs);
  }

  lemma {:induction false} FieldRecsLead(d: Layout, m: Msg, n: nat)
    requires Numbered(d) && MsgOk(d, m) && Shaped(d, m) && n <= |d.fields|
    requires FieldsSize(d, m, n) < TWO_31
    ensures Leads(d, Empty(d), FieldRecs(d, m, n), Prefix(d, m, n))
    decreases d, 2, n
  {
    if n == 0 {
      PrefixOfNone(d, m);
    } else {
      FieldRecsLead(d, m, n - 1);
      SlotRecsLead(d, m, n - 1);
      LeadsTrans(d, Empty(d), FieldRecs(d, m, n - 1), Prefix(d, m, n - 1),
                 SlotRecs(d.fields[n - 1], m.slots[n - 1]), Prefix(d, m, n));
    }
  }

  lemma {:induction false} UnknownLead(d: Layout, from: Msg, rs: seq<Rec>)
    requires Shaped(d, from) && UnknownOk(d, rs)
    ensures Leads(d, from, rs, from.(unknown := from.unknown + rs))
    decreases |rs|
  {
    if rs == [] {
      assert from.unknown + [] == from.unknown;
    } else {
      var init, last := rs[..|rs| - 1], rs[|rs| - 1];
      var mid := from.(unknown := from.unknown + init);
      var to := from.(unknown := from.unknown + rs);
      UnknownLead(d, from, init);
      assert init + [last] == rs;
      AppendAssoc(from.unknown, init, [last]);
      LeadsOne(d, mid, last, to);
      LeadsTrans(d, from, init, mid, [last], to);
    }
  }

  /** Round trip: a well-formed message survives serializing and parsing unchanged,
      the parser stopping exactly at the end of its bytes. */
  lemma {:induction false} ParseInvertsSerialize(d: Layout, m: Msg)
    requires Numbered(d) && MsgOk(d, m) && Size(d, m) < TWO_31
    ensures Parse(d, Empty(d), Serialize(d, m)) == Parsed(m, Complete)
    decreases d, 3
  {
    OkIsShaped(d, m);
    var n := |d.fields|;
    var full := Prefix(d, m, n);
    FieldRecsLead(d, m, n);
    UnknownLead(d, full, m.unknown);
    assert full.slots == m.slots;
    assert full.unknown + m.unknown == m.unknown;
    LeadsTrans(d, Empty(d), FieldRecs(d, m, n), full, m.unknown, m);
    SizeExact(d, m);
    TokenizeEncoded(MsgRecs(d, m));
    ParseIsFold(d, Empty(d), Serialize(d, m));
  }

  /** Parsing an encoding of `x` into `m` is merging `x` into `m`. */
  lemma ParsingEncodedMerges(d: Layout, m: Msg, x: Msg)
    requires Numbered(d) && Shaped(d, m) && MsgOk(d, x) && Size(d, x) < TWO_31
    ensures Parse(d, m, Serialize(d, x)) == Parsed(Merge(m, x), Complete)
  {
    ParseInvertsSerialize(d, x);
    ParseIsMerge(d, m, Serialize(d, x));
  }

  /** Different messages have different encodings. */
  lemma SerializeInjective(d: Layout, a: Msg, b: Msg)
    requires Numbered(d) && MsgOk(d, a) && MsgOk(d, b)
    requires Size(d, a) < TWO_31 && Size(d, b) < TWO_31
    requires Serialize(d, a) == Serialize(d, b)
    ensures a == b
  {
    ParseInvertsSerialize(d, a);
    ParseInvertsSerialize(d, b);
  }
}
