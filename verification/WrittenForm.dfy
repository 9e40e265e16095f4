/** The bytes of a message, field by field, and what the parser makes of several messages,
    or of an end mark, in a row. */
module WrittenForm {
  import opened Wire
  import opened Digits
  import opened Records
  import opened RecordBytes
  import opened Layouts
  import opened Messages
  import opened Merging
  import opened RoundTrip
  import opened NormalForm
  import opened Stepping

  /** A message with nothing but field `k`. */
  function Alone(d: Layout, k: nat, s: Slot): (m: Msg)
    requires k < |d.fields|
    ensures |m.slots| == |d.fields| && m.slots[k] == s && m.unknown == []
    ensures forall j :: 0 <= j < |d.fields| && j != k ==> m.slots[j] == EmptySlot(d.fields[j])
  {
    Empty(d).(slots := Empty(d).slots[k := s])
  }

  lemma AloneOk(d: Layout, k: nat, s: Slot)
    requires k < |d.fields|
    ensures MsgOk(d, Alone(d, k, s)) <==> SlotOk(d.fields[k], s)
  {
    EmptyOk(d);
    var m := Alone(d, k, s);
    forall j | 0 <= j < |d.fields| && j != k
      ensures SlotOk(d.fields[j], m.slots[j])
    {
      assert SlotOk(d.fields[j], Empty(d).slots[j]);
    }
    if SlotOk(d.fields[k], s) {
      assert forall j :: 0 <= j < |d.fields| ==> SlotOk(d.fields[j], m.slots[j]);
    }
  }

  lemma NoRecs(f: Field)
    ensures SlotOk(f, EmptySlot(f)) && SlotRecs(f, EmptySlot(f)) == []
  {
    match f
    case Single(_, _, _) =>
    case Repeated(_, _) =>
    case SubMessages(_, _) =>
  }

  lemma {:induction false} AloneRecs(d: Layout, k: nat, s: Slot, n: nat)
    requires k < |d.fields| && SlotOk(d.fields[k], s) && MsgOk(d, Alone(d, k, s)) && n <= |d.fields|
    ensures FieldRecs(d, Alone(d, k, s), n) == if k < n then SlotRecs(d.fields[k], s) else []
    decreases n
  {
    if n > 0 {
      AloneRecs(d, k, s, n - 1);
      NoRecs(d.fields[n - 1]);
    }
  }

  lemma AloneBytes(d: Layout, k: nat, s: Slot)
    requires k < |d.fields| && SlotOk(d.fields[k], s)
    ensures MsgOk(d, Alone(d, k, s)) && Serialize(d, Alone(d, k, s)) == EncodeRecs(SlotRecs(d.fields[k], s))
  {
    AloneOk(d, k, s);
    AloneRecs(d, k, s, |d.fields|);
    assert SlotRecs(d.fields[k], s) + [] == SlotRecs(d.fields[k], s);
  }

  /** An integer is written as one byte of tag, wire type 0, and a varint. */
  lemma IntegerBytes(d: Layout, k: nat, v: int)
    requires Numbered(d) && k < |d.fields| && d.fields[k].Single? && InRange(d.fields[k].ty, v)
    ensures var m := Alone(d, k, Opt(Present(v)));
      && 0 < 8 * d.fields[k].number < 128
      && MsgOk(d, m) && Serialize(d, m) == [8 * d.fields[k].number] + EncodeVarint(ToWire(d.fields[k].ty, v))
  {
    assert NumberAt(d, k);
    var u := ToWire(d.fields[k].ty, v);
    AloneBytes(d, k, Opt(Present(v)));
    EncodeOne(Rec(d.fields[k].number, Varint64(u)));
    RecordForms(d.fields[k].number, u, [], []);
  }

  /** A repeated integer is written value by value, each with its tag. */
  lemma ListBytes(d: Layout, k: nat, vals: seq<int>, v: int)
    requires Numbered(d) && k < |d.fields| && d.fields[k].Repeated?
    requires forall i :: 0 <= i < |vals| ==> InRange(d.fields[k].ty, vals[i])
    requires InRange(d.fields[k].ty, v)
    ensures var m, m' := Alone(d, k, Ints(vals)), Alone(d, k, Ints(vals + [v]));
      && 0 < 8 * d.fields[k].number < 128
      && MsgOk(d, m) && MsgOk(d, m')
      && Serialize(d, m') == Serialize(d, m) + ([8 * d.fields[k].number] + EncodeVarint(ToWire(d.fields[k].ty, v)))
  {
    assert NumberAt(d, k);
    var number, ty := d.fields[k].number, d.fields[k].ty;
    var r := Rec(number, Varint64(ToWire(ty, v)));
    AloneBytes(d, k, Ints(vals));
    AloneBytes(d, k, Ints(vals + [v]));
    assert IntRecs(number, ty, vals + [v]) == IntRecs(number, ty, vals) + [r];
    EncodeRecsConcat(IntRecs(number, ty, vals), [r]);
    EncodeOne(r);
    RecordForms(number, r.payload.value, [], []);
  }

  /** An element is written behind its tag, wire type 2, and its length. */
  lemma ElementBytes(d: Layout, k: nat, es: seq<Msg>, e: Msg)
    requires Numbered(d) && k < |d.fields| && d.fields[k].SubMessages?
    requires MsgOk(d.fields[k].sub, e) && forall i :: 0 <= i < |es| ==> MsgOk(d.fields[k].sub, es[i])
    ensures var m, m', body := Alone(d, k, Msgs(es)), Alone(d, k, Msgs(es + [e])), Serialize(d.fields[k].sub, e);
      && 0 < 8 * d.fields[k].number + 2 < 128
      && MsgOk(d, m) && MsgOk(d, m')
      && Serialize(d, m') == Serialize(d, m) + ([8 * d.fields[k].number + 2] + EncodeVarint(|body|) + body)
  {
    assert NumberAt(d, k);
    var number, sub := d.fields[k].number, d.fields[k].sub;
    var r := Rec(number, Bytes(Serialize(sub, e)));
    SubRecsSnoc(number, sub, es, e);
    AloneBytes(d, k, Msgs(es));
    AloneBytes(d, k, Msgs(es + [e]));
    assert SlotRecs(d.fields[k], Msgs(es)) == SubRecs(number, sub, es);
    assert SlotRecs(d.fields[k], Msgs(es + [e])) == SubRecs(number, sub, es + [e]);
    EncodeRecsConcat(SubRecs(number, sub, es), [r]);
    EncodeOne(r);
    CountedForm(number, r.payload.data);
  }

  // ----------------------------------------------------------- order of writing

  lemma SlotRecsRoute(d: Layout, k: nat, s: Slot)
    requires Numbered(d) && k < |d.fields| && SlotOk(d.fields[k], s)
    ensures forall i :: 0 <= i < |SlotRecs(d.fields[k], s)| ==> RouteRec(d, SlotRecs(d.fields[k], s)[i]) == Known(k)
  {
    match d.fields[k]
    case Single(_, _, _) => RouteIsUnique(d, k, WT_VARINT);
    case Repeated(_, _) => RouteIsUnique(d, k, WT_VARINT);
    case SubMessages(_, _) => RouteIsUnique(d, k, WT_LENGTH_DELIMITED);
  }

  /** Records of declared fields only, of the first `n` ones, by increasing number. */
  predicate Ascending(d: Layout, rs: seq<Rec>, n: nat)
  {
    && (forall i :: 0 <= i < |rs| ==> RouteRec(d, rs[i]).Known? && RouteRec(d, rs[i]).index < n)
    && (forall i, j :: 0 <= i < j < |rs| ==> rs[i].number <= rs[j].number)
  }

  lemma {:induction false} FieldsAscend(d: Layout, m: Msg, n: nat)
    requires Numbered(d) && MsgOk(d, m) && n <= |d.fields|
    ensures Ascending(d, FieldRecs(d, m, n), n)
    decreases n
  {
    if n > 0 {
      FieldsAscend(d, m, n - 1);
      assert SlotOk(d.fields[n - 1], m.slots[n - 1]);
      SlotRecsRoute(d, n - 1, m.slots[n - 1]);
      AscendingAppend(d, FieldRecs(d, m, n - 1), SlotRecs(d.fields[n - 1], m.slots[n - 1]), n - 1);
    }
  }

  lemma AscendingAppend(d: Layout, a: seq<Rec>, b: seq<Rec>, k: nat)
    requires Numbered(d) && k < |d.fields| && Ascending(d, a, k)
    requires forall i :: 0 <= i < |b| ==> RouteRec(d, b[i]) == Known(k)
    ensures Ascending(d, a + b, k + 1)
  {
    forall i | 0 <= i < |a|
      ensures a[i].number <= d.fields[k].number
    {
      assert NumbersApart(d, RouteRec(d, a[i]).index, k);
    }
  }

  /** In the bytes of a message the declared fields stand by increasing number, and behind
      them exactly the unknown ones, in their order. */
  lemma WrittenInOrder(d: Layout, m: Msg)
    requires Numbered(d) && MsgOk(d, m) && Size(d, m) < 0x8000_0000
    ensures var t := Tokenize(Serialize(d, m));
      && t.stop == End && |t.recs| >= |m.unknown|
      && var n := |t.recs| - |m.unknown|;
         Ascending(d, t.recs[..n], |d.fields|) && t.recs[n..] == m.unknown
  {
    SizeExact(d, m);
    TokenizeEncoded(MsgRecs(d, m));
    FieldsAscend(d, m, |d.fields|);
    var rs := FieldRecs(d, m, |d.fields|);
    assert (rs + m.unknown)[..|rs|] == rs && (rs + m.unknown)[|rs|..] == m.unknown;
  }

  // -------------------------------------------------------- several in a row

  /** Of two encodings in a row the second one's scalars win where it has them, and its
      lists and unknown fields are appended. */
  lemma LastOneWins(d: Layout, x: Msg, y: Msg)
    requires Numbered(d) && MsgOk(d, x) && MsgOk(d, y)
    requires Size(d, x) < 0x8000_0000 && Size(d, y) < 0x8000_0000
    ensures var p := Parse(d, Empty(d), Serialize(d, x) + Serialize(d, y));
      && p.outcome == Complete && p.msg.unknown == x.unknown + y.unknown
      && forall k :: 0 <= k < |d.fields| ==> FieldWins(d.fields[k], x.slots[k], y.slots[k], p.msg.slots[k])
  {
    SizeExact(d, x);
    TokenizeEncoded(MsgRecs(d, x));
    OkIsShaped(d, x);
    OkIsShaped(d, y);
    ParseInvertsSerialize(d, x);
    ParseResumes(d, Empty(d), Serialize(d, x), Serialize(d, y));
    ParsingEncodedMerges(d, x, y);
    forall k | 0 <= k < |d.fields|
      ensures FieldWins(d.fields[k], x.slots[k], y.slots[k], Merge(x, y).slots[k])
    {
      assert HasKind(d.fields[k], x.slots[k]) && HasKind(d.fields[k], y.slots[k]);
    }
  }

  predicate FieldWins(f: Field, first: Slot, second: Slot, both: Slot)
  {
    match f
    case Single(_, _, _) => both == if second == Opt(Absent) then first else second
    case Repeated(_, _) => first.Ints? && second.Ints? && both == Ints(first.vals + second.vals)
    case SubMessages(_, _) => first.Msgs? && second.Msgs? && both == Msgs(first.msgs + second.msgs)
  }

  /** A zero tag or an end-group tag behind whole records ends the parse with what has been
      read, and the input does not count as complete. */
  lemma EndMarkEnds(d: Layout, m: Msg, a: seq<byte>, number: nat, t: seq<byte>)
    requires Shaped(d, m) && Tokenize(a).stop == End && Parse(d, m, a).outcome == Complete
    requires number < 0x2000_0000
    ensures Parse(d, m, a + ([0] + t)) == Parsed(Parse(d, m, a).msg, ZeroTag)
    ensures Parse(d, m, a + (EncodeVarint(8 * number + 4) + t)) == Parsed(Parse(d, m, a).msg, GroupTag)
  {
    EndMarks(number, t);
    ParseResumes(d, m, a, [0] + t);
    ParseResumes(d, m, a, EncodeVarint(8 * number + 4) + t);
  }

  // -------------------------------------------------------------- what is read

  /** `v` is what a number modulo 2^64 is for a type: its low 32 or 64 bits, with a sign if
      the type has one. */
  predicate Represents(ty: IntType, n: nat, v: int)
  {
    match ty
    case UInt32 => (v - n) % 0x1_0000_0000 == 0 && 0 <= v < 0x1_0000_0000
    case Int32 => (v - n) % 0x1_0000_0000 == 0 && -0x8000_0000 <= v < 0x8000_0000
    case Int64 => (v - n) % 0x1_0000_0000_0000_0000 == 0 && -0x8000_0000_0000_0000 <= v < 0x8000_0000_0000_0000
  }

  lemma FromWireRepresents(ty: IntType, n: nat)
    ensures Represents(ty, n, FromWire(ty, n % 0x1_0000_0000_0000_0000))
  {
    var u := n % 0x1_0000_0000_0000_0000;
    ReadIsCongruent(ty, u);
    Congruent(n, u, FromWire(ty, u));
  }

  lemma Congruent(n: nat, u: nat, v: int)
    requires u == n % 0x1_0000_0000_0000_0000
    ensures (v - u) % 0x1_0000_0000 == 0 ==> (v - n) % 0x1_0000_0000 == 0
    ensures (v - u) % 0x1_0000_0000_0000_0000 == 0 ==> (v - n) % 0x1_0000_0000_0000_0000 == 0
  {
    var q := n / 0x1_0000_0000_0000_0000;
    assert v - n == v - u - 0x1_0000_0000_0000_0000 * q;
  }

  /** Behind the tag of an integer field any varint of up to ten bytes, over-long ones
      included, is read as the sum of its digits cut to the field's type; an optional field
      takes it, a list appends it. */
  lemma IntegerRead(d: Layout, m: Msg, k: nat, s: seq<byte>) returns (v: int)
    requires Numbered(d) && Shaped(d, m) && k < |d.fields| && !d.fields[k].SubMessages?
    requires IsVarint(s) && |s| <= 10
    ensures 0 < 8 * d.fields[k].number < 128 && Represents(d.fields[k].ty, Sum(s), v)
    ensures HasKind(d.fields[k], m.slots[k])
    ensures Parse(d, m, [8 * d.fields[k].number] + s)
         == Parsed(m.(slots := m.slots[k := if d.fields[k].Single? then Opt(Present(v))
                                            else Ints(m.slots[k].vals + [v])]), Complete)
  {
    var f, u := d.fields[k], Sum(s) % 0x1_0000_0000_0000_0000;
    assert NumberAt(d, k);
    v := FromWire(f.ty, u);
    FromWireRepresents(f.ty, Sum(s));
    var t := [8 * f.number] + s;
    assert t[1..] == s == s + [];
    ParseReadsByte(d, m, t);
    VarintValue(s, []);
    VarintStep(d, m, k, s);
    NothingLeft(d, m.(slots := m.slots[k := Store(f, m.slots[k], Varint64(u)).slot]));
  }

  /** An element is what its own parse makes of the counted bytes; it is appended in any
      case, and unless that parse was complete, this one has failed. */
  lemma ElementRead(d: Layout, m: Msg, k: nat, body: seq<byte>)
    requires Numbered(d) && Shaped(d, m) && k < |d.fields| && d.fields[k].SubMessages?
    requires |body| < 0x8000_0000
    ensures var e := Parse(d.fields[k].sub, Empty(d.fields[k].sub), body);
      && m.slots[k].Msgs?
      && Parse(d, m, Counted(d.fields[k].number, body))
         == Parsed(m.(slots := m.slots[k := Msgs(m.slots[k].msgs + [e.msg])]),
                   if e.outcome == Complete then Complete else Failed)
  {
    var r := Rec(d.fields[k].number, Bytes(body));
    CountedIsValid(d, m, k, body);
    CountedForm(r.number, body);
    OneRecord(d, m, r);
    ElementStored(d, m, k, body);
  }

  lemma CountedIsValid(d: Layout, m: Msg, k: nat, data: seq<byte>)
    requires Numbered(d) && Shaped(d, m) && k < |d.fields| && |data| < TWO_31
    ensures ValidRec(Rec(d.fields[k].number, Bytes(data))) && HasKind(d.fields[k], m.slots[k])
  {
    assert NumberAt(d, k);
  }

  lemma ElementStored(d: Layout, m: Msg, k: nat, body: seq<byte>)
    requires Numbered(d) && Shaped(d, m) && k < |d.fields| && d.fields[k].SubMessages? && m.slots[k].Msgs?
    ensures var e := Parse(d.fields[k].sub, Empty(d.fields[k].sub), body);
      Apply(d, m, Rec(d.fields[k].number, Bytes(body)))
        == Applied(m.(slots := m.slots[k := Msgs(m.slots[k].msgs + [e.msg])]), e.outcome == Complete)
  {
    RouteIsUnique(d, k, WT_LENGTH_DELIMITED);
  }

  lemma OneRecord(d: Layout, m: Msg, r: Rec)
    requires Shaped(d, m) && ValidRec(r)
    ensures var a := Apply(d, m, r);
      Parse(d, m, EncodeRec(r)) == Parsed(a.msg, if a.ok then Complete else Failed)
  {
    RecRoundTrip(r, []);
    assert EncodeRec(r) + [] == EncodeRec(r);
    ParseTakesRecord(d, m, EncodeRec(r));
    NothingLeft(d, Apply(d, m, r).msg);
  }

  /** The records a declared field does not take. */
  predicate Foreign(f: Field, r: Rec)
  {
    f.number == r.number ==>
      match f
      case Single(_, _, _) => !r.payload.Varint64?
      case Repeated(_, _) => !r.payload.Varint64? && !r.payload.Bytes?
      case SubMessages(_, _) => !r.payload.Bytes?
  }

  lemma ForeignIsUninterpreted(d: Layout, r: Rec)
    requires forall k :: 0 <= k < |d.fields| ==> Foreign(d.fields[k], r)
    ensures RouteRec(d, r) == Uninterpreted
  {
    assert forall k :: 0 <= k < |d.fields| && d.fields[k].number == r.number ==>
        Foreign(d.fields[k], r) && !Accepts(d.fields[k], WireType(r.payload));
  }

  /** A record that no field takes, by its number or its type, is kept as it is. */
  lemma ForeignIsKept(d: Layout, m: Msg, r: Rec)
    requires Shaped(d, m) && ValidRec(r) && forall k :: 0 <= k < |d.fields| ==> Foreign(d.fields[k], r)
    ensures Parse(d, m, EncodeRec(r)) == Parsed(m.(unknown := m.unknown + [r]), Complete)
  {
    ForeignIsUninterpreted(d, r);
    OneRecord(d, m, r);
  }

  /** One that is said to be longer than it is fails the parse, and what is there of it is
      among the unknown fields. */
  lemma BrokenIsKept(d: Layout, m: Msg, number: nat, s: seq<byte>)
    requires Shaped(d, m) && 1 <= number < 0x2000_0000
    requires forall k :: 0 <= k < |d.fields| ==> Foreign(d.fields[k], Rec(number, Bytes([])))
    requires ReadVarint32(s).Varint? && |s| < ReadVarint32(s).len + ReadVarint32(s).value
    requires ReadVarint32(s).value < 0x8000_0000
    ensures var there := Rec(number, Bytes(s[ReadVarint32(s).len..]));
      Parse(d, m, EncodeVarint(8 * number + 2) + s) == Parsed(m.(unknown := m.unknown + [there]), Failed)
  {
    ForeignIsUninterpreted(d, Rec(number, Bytes([])));
    CountedBytes(number, s);
    var rest := s[ReadVarint32(s).len..];
    BrokenStep(d, m, number, rest, EncodeVarint(8 * number + 2) + s);
  }

  lemma BrokenStep(d: Layout, m: Msg, number: nat, rest: seq<byte>, s: seq<byte>)
    requires Shaped(d, m) && Route(d, number, WT_LENGTH_DELIMITED) == Uninterpreted
    requires NextRec(s) == CutShort(8 * number + 2, Bytes(rest), rest)
    ensures Parse(d, m, s) == Parsed(m.(unknown := m.unknown + [Rec(number, Bytes(rest))]), Failed)
  {
    TagParts(number, WT_LENGTH_DELIMITED);
  }
}
