/** Message values and what the generated parser, serializer, size calculator and
    merge compute, stated on values. */
module Messages {
  import opened Wire
  import opened Records
  import opened Layouts

  datatype Presence = Absent | Present(value: int)

  datatype Slot =
    | Opt(opt: Presence)
    | Ints(vals: seq<int>)
    | Msgs(msgs: seq<Msg>)

  /** One slot per field, and the unknown-field set. */
  datatype Msg = Msg(slots: seq<Slot>, unknown: seq<Rec>)

  predicate HasKind(f: Field, s: Slot)
  {
    match f
    case Single(_, _, _) => s.Opt?
    case Repeated(_, _) => s.Ints?
    case SubMessages(_, _) => s.Msgs?
  }

  predicate Shaped(d: Layout, m: Msg)
  {
    && |m.slots| == |d.fields|
    && forall k :: 0 <= k < |d.fields| ==> HasKind(d.fields[k], m.slots[k])
  }

  function EmptySlot(f: Field): (s: Slot)
    ensures HasKind(f, s)
  {
    match f
    case Single(_, _, _) => Opt(Absent)
    case Repeated(_, _) => Ints([])
    case SubMessages(_, _) => Msgs([])
  }

  /** A fresh or cleared message. */
  function Empty(d: Layout): (m: Msg)
    ensures Shaped(d, m)
  {
    Msg(seq(|d.fields|, k requires 0 <= k < |d.fields| => EmptySlot(d.fields[k])), [])
  }

  /** Values fit their declared types, and the unknown set holds only records that
      this class would again not interpret. */
  ghost predicate MsgOk(d: Layout, m: Msg)
    decreases d
  {
    && |m.slots| == |d.fields|
    && (forall k {:trigger SlotOk(d.fields[k], m.slots[k])} :: 0 <= k < |d.fields| ==>
         SlotOk(d.fields[k], m.slots[k]))
    && UnknownOk(d, m.unknown)
  }

  ghost predicate SlotOk(f: Field, s: Slot)
    decreases f
  {
    match f
    case Single(_, ty, _) => s.Opt? && (s.opt.Present? ==> InRange(ty, s.opt.value))
    case Repeated(_, ty) => s.Ints? && forall i :: 0 <= i < |s.vals| ==> InRange(ty, s.vals[i])
    case SubMessages(_, sub) => s.Msgs? && forall i :: 0 <= i < |s.msgs| ==> MsgOk(sub, s.msgs[i])
  }

  ghost predicate UnknownOk(d: Layout, rs: seq<Rec>)
  {
    forall i :: 0 <= i < |rs| ==> ValidRec(rs[i]) && RouteRec(d, rs[i]) == Uninterpreted
  }

  // ------------------------------------------------------------------ parsing

  /** How a parse ends.  The parser returns true for the first three, but only `Complete`
      counts as the end of the message for whoever asked for it. */
  datatype Outcome = Complete | ZeroTag | GroupTag | Failed

  datatype Parsed = Parsed(msg: Msg, outcome: Outcome)
  datatype Stored = Stored(slot: Slot, ok: bool)
  datatype Applied = Applied(msg: Msg, ok: bool)
  datatype Packed = Packed(vals: seq<int>, ok: bool)

  /** A packed block: varints back to back; those read before an unreadable one stay. */
  function ReadPacked(ty: IntType, s: seq<byte>): (r: Packed)
    ensures forall i :: 0 <= i < |r.vals| ==> InRange(ty, r.vals[i])
    decreases |s|
  {
    if s == [] then Packed([], true)
    else
      match ReadVarint64(s)
      case NoVarint => Packed([], false)
      case Varint(u, n) =>
        var rest := ReadPacked(ty, s[n..]);
        Packed([FromWire(ty, u)] + rest.vals, rest.ok)
  }

  /** The slot after the field's case has handled an accepted payload. */
  function Store(f: Field, s: Slot, p: Payload): (r: Stored)
    requires HasKind(f, s) && Accepts(f, WireType(p))
    requires p.Varint64? ==> p.value < TWO_64
    ensures HasKind(f, r.slot)
    decreases f, 0
  {
    match f
    case Single(_, ty, _) => Stored(Opt(Present(FromWire(ty, p.value))), true)
    case Repeated(_, ty) =>
      if p.Varint64? then Stored(Ints(s.vals + [FromWire(ty, p.value)]), true)
      else var r := ReadPacked(ty, p.data); Stored(Ints(s.vals + r.vals), r.ok)
    case SubMessages(_, sub) =>
      var r := Parse(sub, Empty(sub), p.data);
      Stored(Msgs(s.msgs + [r.msg]), r.outcome == Complete)
  }

  function Apply(d: Layout, m: Msg, r: Rec): (a: Applied)
    requires Shaped(d, m)
    requires r.payload.Varint64? ==> r.payload.value < TWO_64
    ensures Shaped(d, a.msg)
    decreases d, 0
  {
    match RouteRec(d, r)
    case Uninterpreted => Applied(m.(unknown := m.unknown + [r]), true)
    case Known(k) =>
      var st := Store(d.fields[k], m.slots[k], r.payload);
      Applied(m.(slots := m.slots[k := st.slot]), st.ok)
  }

  /** When the payload cannot be read, a repeated message field has already added the
      element it was going to fill. */
  function Abandon(d: Layout, m: Msg, tag: nat): (m': Msg)
    requires Shaped(d, m)
    ensures Shaped(d, m')
  {
    match Route(d, tag / 8, tag % 8)
    case Known(k) =>
      if d.fields[k].SubMessages?
      then m.(slots := m.slots[k := Msgs(m.slots[k].msgs + [Empty(d.fields[k].sub)])])
      else m
    case Uninterpreted => m
  }

  /** A record that breaks off is the last one.  For a known field the prefix is cut to
      the input, and what is there is the whole value; skipping it fails, with the part
      that was read kept. */
  function ParseCut(d: Layout, m: Msg, tag: nat, kept: Payload, rest: seq<byte>): (r: Parsed)
    requires Shaped(d, m) && (kept.Bytes? || kept.Group?)
    ensures Shaped(d, r.msg)
    decreases d, 1
  {
    match Route(d, tag / 8, tag % 8)
    case Known(_) =>
      var a := Apply(d, m, Rec(tag / 8, Bytes(rest)));
      Parsed(a.msg, if a.ok then Complete else Failed)
    case Uninterpreted => Parsed(m.(unknown := m.unknown + [Rec(tag / 8, kept)]), Failed)
  }

  /** MergePartialFromCodedStream without shortcuts: read a tag, dispatch, repeat. */
  function Parse(d: Layout, m: Msg, s: seq<byte>): (r: Parsed)
    requires Shaped(d, m)
    ensures Shaped(d, r.msg)
    decreases d, |s| + 1
  {
    match NextRec(s)
    case NoMore => Parsed(m, Complete)
    case NoTag => Parsed(m, ZeroTag)
    case GroupEnd(_, _) => Parsed(m, GroupTag)
    case NoValue(tag) => Parsed(Abandon(d, m, tag), Failed)
    case CutShort(tag, kept, rest) => ParseCut(d, m, tag, kept, rest)
    case Good(rec, n) =>
      ReadIsValid(s);
      var a := Apply(d, m, rec);
      if a.ok then Parse(d, a.msg, s[n..]) else Parsed(a.msg, Failed)
  }

  // -------------------------------------------------------------- serializing

  function IntRecs(number: nat, ty: IntType, vals: seq<int>): seq<Rec>
    requires forall i :: 0 <= i < |vals| ==> InRange(ty, vals[i])
  {
    seq(|vals|, i requires 0 <= i < |vals| => Rec(number, Varint64(ToWire(ty, vals[i]))))
  }

  /** The records one field is written as: repeated integers one by one. */
  ghost function SlotRecs(f: Field, s: Slot): seq<Rec>
    requires SlotOk(f, s)
    decreases f, 0
  {
    match f
    case Single(number, ty, _) =>
      if s.opt.Present? then [Rec(number, Varint64(ToWire(ty, s.opt.value)))] else []
    case Repeated(number, ty) => IntRecs(number, ty, s.vals)
    case SubMessages(number, sub) =>
      seq(|s.msgs|, i requires 0 <= i < |s.msgs| => Rec(number, Bytes(Serialize(sub, s.msgs[i]))))
  }

  /** The records of the first `n` fields, in declaration order. */
  ghost function FieldRecs(d: Layout, m: Msg, n: nat): seq<Rec>
    requires MsgOk(d, m) && n <= |d.fields|
    decreases d, n
  {
    if n == 0 then []
    else
      assert SlotOk(d.fields[n - 1], m.slots[n - 1]);
      FieldRecs(d, m, n - 1) + SlotRecs(d.fields[n - 1], m.slots[n - 1])
  }

  ghost function MsgRecs(d: Layout, m: Msg): seq<Rec>
    requires MsgOk(d, m)
    decreases d, |d.fields| + 1
  {
    FieldRecs(d, m, |d.fields|) + m.unknown
  }

  ghost function Serialize(d: Layout, m: Msg): seq<byte>
    requires MsgOk(d, m)
    decreases d, |d.fields| + 2
  {
    EncodeRecs(MsgRecs(d, m))
  }

  // ------------------------------------------------------------ counted sizes

  function IntsSize(ty: IntType, vals: seq<int>): nat
    requires forall i :: 0 <= i < |vals| ==> InRange(ty, vals[i])
  {
    if vals == [] then 0
    else IntsSize(ty, vals[..|vals| - 1]) + IntSize(ty, vals[|vals| - 1])
  }

  ghost function MsgsSize(d: Layout, msgs: seq<Msg>): nat
    requires forall i :: 0 <= i < |msgs| ==> MsgOk(d, msgs[i])
    decreases d, |d.fields| + 2, |msgs|
  {
    if msgs == [] then 0
    else
      var size := Size(d, msgs[|msgs| - 1]);
      MsgsSize(d, msgs[..|msgs| - 1]) + VarintSize32(size) + size
  }

  /** What one field contributes to ByteSize, every tag counted as one byte. */
  ghost function SlotSize(f: Field, s: Slot): nat
    requires SlotOk(f, s)
    decreases f, 0
  {
    match f
    case Single(_, ty, _) => if s.opt.Present? then 1 + IntSize(ty, s.opt.value) else 0
    case Repeated(_, ty) => |s.vals| + IntsSize(ty, s.vals)
    case SubMessages(_, sub) => |s.msgs| + MsgsSize(sub, s.msgs)
  }

  ghost function FieldsSize(d: Layout, m: Msg, n: nat): nat
    requires MsgOk(d, m) && n <= |d.fields|
    decreases d, n
  {
    if n == 0 then 0
    else
      assert SlotOk(d.fields[n - 1], m.slots[n - 1]);
      FieldsSize(d, m, n - 1) + SlotSize(d.fields[n - 1], m.slots[n - 1])
  }

  ghost function Size(d: Layout, m: Msg): nat
    requires MsgOk(d, m)
    decreases d, |d.fields| + 1
  {
    FieldsSize(d, m, |d.fields|) + RecsSize(m.unknown)
  }

  // ------------------------------------------------------------------ merging

  function MergeSlot(a: Slot, b: Slot): Slot
  {
    match (a, b)
    case (Opt(_), Opt(Present(_))) => b
    case (Ints(x), Ints(y)) => Ints(x + y)
    case (Msgs(x), Msgs(y)) => Msgs(x + y)
    case _ => a
  }

  function Merge(a: Msg, b: Msg): (m: Msg)
    requires |a.slots| == |b.slots|
    ensures |m.slots| == |a.slots|
  {
    Msg(seq(|a.slots|, k requires 0 <= k < |a.slots| => MergeSlot(a.slots[k], b.slots[k])),
        a.unknown + b.unknown)
  }
}
