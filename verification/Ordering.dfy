/** What a run of records means, field by field: it does not matter how records of
    different fields are interleaved, nor whether repeated integers come packed. */
module Ordering {
  import opened Wire
  import opened Records
  import opened RecordBytes
  import opened Layouts
  import opened Messages
  import opened Merging
  import opened RoundTrip
  import opened WrittenForm

  /** The records that one case of the switch handles, in their order. */
  function Select(d: Layout, rs: seq<Rec>, t: Target): (r: seq<Rec>)
    ensures forall i :: 0 <= i < |r| ==> RouteRec(d, r[i]) == t && r[i] in rs
  {
    if rs == [] then []
    else (if RouteRec(d, rs[0]) == t then [rs[0]] else []) + Select(d, rs[1..], t)
  }

  lemma {:induction false} SelectHas(d: Layout, rs: seq<Rec>, r: Rec)
    requires r in rs
    ensures r in Select(d, rs, RouteRec(d, r))
  {
    if rs[0] != r {
      SelectHas(d, rs[1..], r);
    }
  }

  /** The integers one record carries. */
  function IntsOf(ty: IntType, p: Payload): seq<int>
    requires p.Varint64? ==> p.value < TWO_64
  {
    match p
    case Varint64(u) => [FromWire(ty, u)]
    case Bytes(data) => ReadPacked(ty, data).vals
    case _ => []
  }

  function AllInts(ty: IntType, rs: seq<Rec>): seq<int>
    requires Readable(rs)
  {
    if rs == [] then [] else IntsOf(ty, rs[0].payload) + AllInts(ty, rs[1..])
  }

  function MsgsOf(sub: Layout, p: Payload): seq<Msg>
  {
    if p.Bytes? then [Parse(sub, Empty(sub), p.data).msg] else []
  }

  function AllMsgs(sub: Layout, rs: seq<Rec>): seq<Msg>
  {
    if rs == [] then [] else MsgsOf(sub, rs[0].payload) + AllMsgs(sub, rs[1..])
  }

  /** A slot after its own records: the last value of an optional field, every value
      of a repeated one, one element per record of a repeated message. */
  function Meaning(f: Field, s: Slot, rs: seq<Rec>): Slot
    requires HasKind(f, s) && Readable(rs)
    requires forall i :: 0 <= i < |rs| ==> Accepts(f, WireType(rs[i].payload))
  {
    match f
    case Single(_, ty, _) =>
      if rs == [] then s
      else
        var last := rs[|rs| - 1];
        assert Accepts(f, WireType(last.payload));
        Opt(Present(FromWire(ty, last.payload.value)))
    case Repeated(_, ty) => Ints(s.vals + AllInts(ty, rs))
    case SubMessages(_, sub) =>
      Msgs(s.msgs + AllMsgs(sub, rs))
  }

  lemma MeaningStep(f: Field, s: Slot, r: Rec, rest: seq<Rec>)
    requires HasKind(f, s) && Readable([r] + rest) && Readable(rest)
    requires r.payload.Varint64? ==> r.payload.value < TWO_64
    requires Accepts(f, WireType(r.payload))
    requires forall i :: 0 <= i < |rest| ==> Accepts(f, WireType(rest[i].payload))
    requires forall i :: 0 <= i < |[r] + rest| ==> Accepts(f, WireType(([r] + rest)[i].payload))
    ensures Meaning(f, s, [r] + rest) == Meaning(f, Store(f, s, r.payload).slot, rest)
  {
    var all := [r] + rest;
    assert all[1..] == rest;
    match f
    case Single(_, _, _) =>
    case Repeated(_, ty) =>
      AppendAssoc(s.vals, IntsOf(ty, r.payload), AllInts(ty, rest));
    case SubMessages(_, sub) =>
      AppendAssoc(s.msgs, MsgsOf(sub, r.payload), AllMsgs(sub, rest));
  }

  lemma MeaningOfNone(f: Field, s: Slot)
    requires HasKind(f, s)
    ensures Meaning(f, s, []) == s
  {
    match f
    case Single(_, _, _) =>
    case Repeated(_, ty) => assert s.vals + AllInts(ty, []) == s.vals;
    case SubMessages(_, sub) => assert s.msgs + AllMsgs(sub, []) == s.msgs;
  }

  lemma SelectReadable(d: Layout, rs: seq<Rec>, t: Target)
    requires Readable(rs)
    ensures Readable(Select(d, rs, t))
  {
  }

  /** Each slot is determined by the records of its own field alone. */
  lemma {:induction false} FoldSlotMeaning(d: Layout, m: Msg, rs: seq<Rec>, k: nat)
    requires Shaped(d, m) && Readable(rs) && k < |d.fields|
    ensures Readable(Select(d, rs, Known(k)))
    ensures Fold(d, m, rs).slots[k] == Meaning(d.fields[k], m.slots[k], Select(d, rs, Known(k)))
    decreases |rs|
  {
    SelectReadable(d, rs, Known(k));
    if rs == [] {
      MeaningOfNone(d.fields[k], m.slots[k]);
    } else {
      var r, rest := rs[0], rs[1..];
      FoldSlotMeaning(d, Apply(d, m, r).msg, rest, k);
      if RouteRec(d, r) == Known(k) {
        MeaningStep(d.fields[k], m.slots[k], r, Select(d, rest, Known(k)));
      } else {
        assert Select(d, rs, Known(k)) == Select(d, rest, Known(k));
      }
    }
  }

  /** The unknown set is the uninterpreted records, in order. */
  lemma {:induction false} FoldUnknownMeaning(d: Layout, m: Msg, rs: seq<Rec>)
    requires Shaped(d, m) && Readable(rs)
    ensures Fold(d, m, rs).unknown == m.unknown + Select(d, rs, Uninterpreted)
    decreases |rs|
  {
    if rs == [] {
      assert m.unknown + [] == m.unknown;
    } else {
      var r, rest := rs[0], rs[1..];
      var next := Apply(d, m, r).msg;
      FoldUnknownMeaning(d, next, rest);
      if RouteRec(d, r) == Uninterpreted {
        AppendAssoc(m.unknown, [r], Select(d, rest, Uninterpreted));
      } else {
        assert [] + Select(d, rest, Uninterpreted) == Select(d, rest, Uninterpreted);
      }
    }
  }

  /** Two runs agree when each field, and the unknown set, sees the same records in
      the same order; how the fields interleave is free. */
  predicate SameByField(d: Layout, a: seq<Rec>, b: seq<Rec>)
  {
    && Select(d, a, Uninterpreted) == Select(d, b, Uninterpreted)
    && forall k :: 0 <= k < |d.fields| ==> Select(d, a, Known(k)) == Select(d, b, Known(k))
  }

  lemma FoldOrderFree(d: Layout, m: Msg, a: seq<Rec>, b: seq<Rec>)
    requires Shaped(d, m) && Readable(a) && Readable(b) && SameByField(d, a, b)
    ensures Fold(d, m, a) == Fold(d, m, b)
  {
    var x, y := Fold(d, m, a), Fold(d, m, b);
    forall k | 0 <= k < |d.fields|
      ensures x.slots[k] == y.slots[k]
    {
      FoldSlotMeaning(d, m, a, k);
      FoldSlotMeaning(d, m, b, k);
    }
    assert x.slots == y.slots;
    FoldUnknownMeaning(d, m, a);
    FoldUnknownMeaning(d, m, b);
  }

  lemma TakenOrderFree(d: Layout, a: seq<Rec>, b: seq<Rec>)
    requires Readable(a) && Readable(b) && SameByField(d, a, b) && AllTaken(d, a)
    ensures AllTaken(d, b)
  {
    forall i | 0 <= i < |b|
      ensures Taken(d, b[i])
    {
      SelectHas(d, b, b[i]);
      assert b[i] in a;
    }
  }

  /** Order independence: reordering the top-level records of an accepted encoding,
      keeping the order within each field and among unknown records, is accepted too
      and gives the same message. */
  lemma {:induction false} OrderIndependence(d: Layout, m: Msg, s: seq<byte>, t: seq<byte>)
    requires Shaped(d, m)
    requires RecordsOf(d, s).stop == End == RecordsOf(d, t).stop
    requires SameByField(d, RecordsOf(d, s).recs, RecordsOf(d, t).recs)
    ensures (Parse(d, m, s).outcome == Complete) == (Parse(d, m, t).outcome == Complete)
    ensures Parse(d, m, s).outcome == Complete ==> Parse(d, m, s) == Parse(d, m, t)
  {
    var a, b := RecordsOf(d, s).recs, RecordsOf(d, t).recs;
    ParseIsFold(d, m, s);
    ParseIsFold(d, m, t);
    FoldOrderFree(d, m, a, b);
    if AllTaken(d, a) {
      TakenOrderFree(d, a, b);
    } else if AllTaken(d, b) {
      TakenOrderFree(d, b, a);
    }
  }

  lemma {:induction false} SelectAppend(d: Layout, a: seq<Rec>, b: seq<Rec>, t: Target)
    ensures Select(d, a + b, t) == Select(d, a, t) + Select(d, b, t)
  {
    if a == [] {
      assert a + b == b;
    } else {
      var head := if RouteRec(d, a[0]) == t then [a[0]] else [];
      assert (a + b)[1..] == a[1..] + b;
      SelectAppend(d, a[1..], b, t);
      AppendAssoc(head, Select(d, a[1..], t), Select(d, b, t));
    }
  }

  lemma SelectTwo(d: Layout, x: Rec, y: Rec, t: Target)
    requires RouteRec(d, x) != RouteRec(d, y)
    ensures Select(d, [x, y], t) == Select(d, [y, x], t)
  {
    assert [x, y][1..] == [y] && [y, x][1..] == [x];
    assert [x][1..] == [] && [y][1..] == [];
  }

  lemma SelectSwapped(d: Layout, a: seq<Rec>, x: seq<Rec>, y: seq<Rec>, b: seq<Rec>, t: Target)
    requires Select(d, x, t) == Select(d, y, t)
    ensures Select(d, a + x + b, t) == Select(d, a + y + b, t)
  {
    SelectAppend(d, a + x, b, t);
    SelectAppend(d, a, x, t);
    SelectAppend(d, a + y, b, t);
    SelectAppend(d, a, y, t);
  }

  /** Two neighbouring records of different fields may change places. */
  lemma NeighboursSwap(d: Layout, m: Msg, a: seq<Rec>, x: Rec, y: Rec, b: seq<Rec>)
    requires Shaped(d, m) && ValidRecs(a + [x, y] + b) && RouteRec(d, x) != RouteRec(d, y)
    ensures var p, q := Parse(d, m, EncodeRecs(a + [x, y] + b)), Parse(d, m, EncodeRecs(a + [y, x] + b));
      (p.outcome == Complete) == (q.outcome == Complete) && (p.outcome == Complete ==> p == q)
  {
    var s, t := a + [x, y] + b, a + [y, x] + b;
    SwappedValid(a, x, y, b);
    TokenizeEncoded(s);
    TokenizeEncoded(t);
    SelectTwo(d, x, y, Uninterpreted);
    SelectSwapped(d, a, [x, y], [y, x], b, Uninterpreted);
    forall k | 0 <= k < |d.fields|
      ensures Select(d, s, Known(k)) == Select(d, t, Known(k))
    {
      SelectTwo(d, x, y, Known(k));
      SelectSwapped(d, a, [x, y], [y, x], b, Known(k));
    }
    OrderIndependence(d, m, EncodeRecs(s), EncodeRecs(t));
  }

  lemma SwappedValid(a: seq<Rec>, x: Rec, y: Rec, b: seq<Rec>)
    requires ValidRecs(a + [x, y] + b)
    ensures ValidRecs(a + [y, x] + b)
  {
    var s := a + [x, y] + b;
    assert s[|a|] == x && s[|a| + 1] == y;
    forall r | r in a + [y, x] + b
      ensures ValidRec(r)
    {
      assert r in s;
    }
  }

  // ------------------------------------------------------------------- packing

  /** The content of a packed block: the values back to back. */
  function PackedBytes(ty: IntType, vals: seq<int>): seq<byte>
    requires forall i :: 0 <= i < |vals| ==> InRange(ty, vals[i])
  {
    if vals == [] then [] else EncodeVarint(ToWire(ty, vals[0])) + PackedBytes(ty, vals[1..])
  }

  lemma {:induction false} PackedRoundTrip(ty: IntType, vals: seq<int>)
    requires forall i :: 0 <= i < |vals| ==> InRange(ty, vals[i])
    ensures ReadPacked(ty, PackedBytes(ty, vals)) == Packed(vals, true)
  {
    if vals != [] {
      var head, tail := EncodeVarint(ToWire(ty, vals[0])), PackedBytes(ty, vals[1..]);
      IntInversion(ty, vals[0], tail);
      assert (head + tail)[|head|..] == tail;
      PackedRoundTrip(ty, vals[1..]);
      assert [vals[0]] + vals[1..] == vals;
    }
  }

  /** A packed block of any values appends them to the field's list. */
  lemma PackedAppends(d: Layout, m: Msg, k: nat, vals: seq<int>)
    requires Numbered(d) && Shaped(d, m) && k < |d.fields| && d.fields[k].Repeated?
    requires forall i :: 0 <= i < |vals| ==> InRange(d.fields[k].ty, vals[i])
    requires |PackedBytes(d.fields[k].ty, vals)| < 0x8000_0000
    ensures var data := PackedBytes(d.fields[k].ty, vals);
      && m.slots[k].Ints?
      && Parse(d, m, Counted(d.fields[k].number, data))
         == Parsed(m.(slots := m.slots[k := Ints(m.slots[k].vals + vals)]), Complete)
  {
    var r := Rec(d.fields[k].number, Bytes(PackedBytes(d.fields[k].ty, vals)));
    CountedIsValid(d, m, k, r.payload.data);
    CountedForm(r.number, r.payload.data);
    OneRecord(d, m, r);
    PackedStored(d, m, k, vals);
  }

  lemma PackedStored(d: Layout, m: Msg, k: nat, vals: seq<int>)
    requires Numbered(d) && Shaped(d, m) && k < |d.fields| && d.fields[k].Repeated? && m.slots[k].Ints?
    requires forall i :: 0 <= i < |vals| ==> InRange(d.fields[k].ty, vals[i])
    ensures Apply(d, m, Rec(d.fields[k].number, Bytes(PackedBytes(d.fields[k].ty, vals))))
         == Applied(m.(slots := m.slots[k := Ints(m.slots[k].vals + vals)]), true)
  {
    PackedRoundTrip(d.fields[k].ty, vals);
    RouteIsUnique(d, k, WT_LENGTH_DELIMITED);
  }

  /** A packed block as the serializer would write it, one record per value; any other
      record as it is. */
  function Unpack(d: Layout, r: Rec): seq<Rec>
  {
    match RouteRec(d, r)
    case Uninterpreted => [r]
    case Known(k) =>
      var f := d.fields[k];
      if f.Repeated? && r.payload.Bytes? then IntRecs(f.number, f.ty, ReadPacked(f.ty, r.payload.data).vals)
      else [r]
  }

  function UnpackAll(d: Layout, rs: seq<Rec>): seq<Rec>
  {
    if rs == [] then [] else Unpack(d, rs[0]) + UnpackAll(d, rs[1..])
  }

  /** A record of a repeated integer field holds one varint. */
  predicate NotPacked(d: Layout, r: Rec)
  {
    forall k :: 0 <= k < |d.fields| && d.fields[k].Repeated? && RouteRec(d, r) == Known(k) ==> r.payload.Varint64?
  }

  lemma {:induction false} NothingPacked(d: Layout, rs: seq<Rec>)
    ensures forall r :: r in UnpackAll(d, rs) ==> NotPacked(d, r)
  {
    if rs != [] {
      NothingPacked(d, rs[1..]);
      UnpackedOne(d, rs[0]);
    }
  }

  lemma UnpackedOne(d: Layout, r: Rec)
    ensures forall u :: u in Unpack(d, r) ==> NotPacked(d, u)
  {
    forall u | u in Unpack(d, r)
      ensures NotPacked(d, u)
    {
      if u == r && RouteRec(d, r).Known? {
        var f := d.fields[RouteRec(d, r).index];
        assert Accepts(f, WireType(r.payload));
        assert f.Repeated? ==> r.payload.Varint64? || r.payload.Bytes?;
      } else if u != r {
        assert u.payload.Varint64?;
      }
    }
  }

  lemma UnpackLeads(d: Layout, m: Msg, r: Rec)
    requires Numbered(d) && Shaped(d, m) && ValidRec(r) && Taken(d, r)
    ensures Leads(d, m, Unpack(d, r), Apply(d, m, r).msg)
  {
    TakenAnywhere(d, m, r);
    match RouteRec(d, r)
    case Uninterpreted => LeadsOne(d, m, r, Apply(d, m, r).msg);
    case Known(k) =>
      var f := d.fields[k];
      if f.Repeated? && r.payload.Bytes? {
        IntRecsLead(d, m, k, ReadPacked(f.ty, r.payload.data).vals);
      } else {
        LeadsOne(d, m, r, Apply(d, m, r).msg);
      }
  }

  lemma {:induction false} UnpackAllLeads(d: Layout, m: Msg, rs: seq<Rec>)
    requires Numbered(d) && Shaped(d, m) && ValidRecs(rs) && Readable(rs) && AllTaken(d, rs)
    ensures Leads(d, m, UnpackAll(d, rs), Fold(d, m, rs))
    decreases |rs|
  {
    if rs != [] {
      UnpackLeads(d, m, rs[0]);
      var next := Apply(d, m, rs[0]).msg;
      UnpackAllLeads(d, next, rs[1..]);
      LeadsTrans(d, m, Unpack(d, rs[0]), next, UnpackAll(d, rs[1..]), Fold(d, m, rs));
    }
  }

  lemma {:induction false} UnpackValid(d: Layout, rs: seq<Rec>)
    requires Numbered(d) && ValidRecs(rs)
    ensures ValidRecs(UnpackAll(d, rs))
  {
    if rs != [] {
      UnpackValid(d, rs[1..]);
      match RouteRec(d, rs[0])
      case Uninterpreted =>
      case Known(k) =>
        var f := d.fields[k];
        if f.Repeated? && rs[0].payload.Bytes? {
          assert NumberAt(d, k);
          IntRecsSize(f.number, f.ty, ReadPacked(f.ty, rs[0].payload.data).vals);
        }
    }
  }

  /** An input whose length fits an `int` has records that can be written again, the last
      one included when it broke off. */
  lemma {:induction false} RecordsAreValid(d: Layout, s: seq<byte>)
    requires Tokenize(s).stop == End || |s| < TWO_31
    ensures ValidRecs(RecordsOf(d, s).recs)
  {
    TokensAreValid(s);
    if Tokenize(s).stop.Cut? {
      CutIsValid(s);
    }
  }

  lemma {:induction false} CutIsValid(s: seq<byte>)
    requires Tokenize(s).stop.Cut?
    ensures ValidRec(Rec(Tokenize(s).stop.tag / 8, Tokenize(s).stop.kept))
    ensures |Tokenize(s).stop.rest| < |s|
    decreases |s|
  {
    ReadIsValid(s);
    if NextRec(s).Good? {
      CutIsValid(s[NextRec(s).len..]);
    }
  }

  /** Packed equivalence: replacing every packed block, empty ones and one that breaks off
      included, by one-value records changes nothing about an accepted encoding. */
  lemma {:induction false} PackedEquivalence(d: Layout, m: Msg, s: seq<byte>)
    requires Numbered(d) && Shaped(d, m) && Parse(d, m, s).outcome == Complete
    requires Tokenize(s).stop == End || |s| < TWO_31
    ensures Parse(d, m, EncodeRecs(UnpackAll(d, RecordsOf(d, s).recs))) == Parse(d, m, s)
    ensures forall r :: r in UnpackAll(d, RecordsOf(d, s).recs) ==> NotPacked(d, r)
  {
    var rs := RecordsOf(d, s).recs;
    RecordsAreValid(d, s);
    ParseIsFold(d, m, s);
    UnpackAllLeads(d, m, rs);
    UnpackValid(d, rs);
    TokenizeEncoded(UnpackAll(d, rs));
    ParseIsFold(d, m, EncodeRecs(UnpackAll(d, rs)));
    NothingPacked(d, rs);
  }
}
