/** Wire records: a tag followed by its payload (Protocol Buffers Encoding guide,
    "Message Structure" and "Length-Delimited Records").  The same datatype is the
    element of the unknown-field set, which stores a skipped record decoded. */
module Records {
  import opened Wire

  datatype Payload =
    | Varint64(value: nat)
    | Fixed64(raw: seq<byte>)
    | Bytes(data: seq<byte>)
    | Group(recs: seq<Rec>)
    | Fixed32(raw: seq<byte>)

  datatype Rec = Rec(number: nat, payload: Payload)

  const WT_VARINT: nat := 0
  const WT_FIXED64: nat := 1
  const WT_LENGTH_DELIMITED: nat := 2
  const WT_START_GROUP: nat := 3
  const WT_END_GROUP: nat := 4
  const WT_FIXED32: nat := 5

  /** Field numbers are what a 32-bit tag leaves after the three wire-type bits. */
  const MAX_NUMBER: nat := 0x2000_0000

  function WireType(p: Payload): nat
  {
    match p
    case Varint64(_) => WT_VARINT
    case Fixed64(_) => WT_FIXED64
    case Bytes(_) => WT_LENGTH_DELIMITED
    case Group(_) => WT_START_GROUP
    case Fixed32(_) => WT_FIXED32
  }

  function MakeTag(number: nat, wireType: nat): nat
  {
    8 * number + wireType
  }

  /** A record that can occur in a stream: number and value fit their width, and its
      tag is not the end mark 0. */
  ghost predicate ValidRec(r: Rec)
    decreases r, 1
  {
    && r.number < MAX_NUMBER
    && MakeTag(r.number, WireType(r.payload)) != 0
    && match r.payload
       case Varint64(v) => v < TWO_64
       case Fixed64(raw) => |raw| == 8
       case Bytes(data) => |data| < TWO_31
       case Group(recs) => ValidRecs(recs)
       case Fixed32(raw) => |raw| == 4
  }

  ghost predicate ValidRecs(rs: seq<Rec>)
    decreases rs, 0
  {
    forall i :: 0 <= i < |rs| ==> ValidRec(rs[i])
  }

  // ------------------------------------------------------------------ writing

  function EncodeRec(r: Rec): (s: seq<byte>)
    ensures s != []
    decreases r, 1
  {
    EncodeVarint(MakeTag(r.number, WireType(r.payload))) + EncodePayload(r)
  }

  function EncodePayload(r: Rec): seq<byte>
    decreases r, 0
  {
    match r.payload
    case Varint64(v) => EncodeVarint(v)
    case Fixed64(raw) => raw
    case Bytes(data) => EncodeVarint(|data|) + data
    case Group(recs) => EncodeRecs(recs) + EncodeVarint(MakeTag(r.number, WT_END_GROUP))
    case Fixed32(raw) => raw
  }

  function EncodeRecs(rs: seq<Rec>): seq<byte>
    decreases rs
  {
    if rs == [] then [] else EncodeRec(rs[0]) + EncodeRecs(rs[1..])
  }

  // ------------------------------------------------------------------ reading

  /** What the next bytes of a stream are. */
  datatype Next =
    | NoMore                             // no byte left
    | NoTag                              // tag 0, or a tag that is no varint
    | GroupEnd(number: nat, len: nat)    // an end-group tag
    | NoValue(tag: nat)                  // a tag whose payload cannot be read
    | CutShort(tag: nat, kept: Payload, rest: seq<byte>)
    | Good(rec: Rec, len: nat)

  /** A payload may break off with a part of it read.  `kept` is what skipping it leaves
      in an unknown-field set; `rest` is all that is left for a length-delimited value
      whose prefix promises more. */
  datatype PayloadRead =
    | NoPayload
    | PartPayload(kept: Payload, rest: seq<byte>)
    | GotPayload(payload: Payload, len: nat)

  /** The records of a group, as far as they go. */
  datatype GroupRead = NoGroup(recs: seq<Rec>) | GotGroup(recs: seq<Rec>, number: nat, len: nat)

  function NextRec(s: seq<byte>): (r: Next)
    ensures r.Good? ==> 1 <= r.len <= |s|
    ensures r.GroupEnd? ==> 1 <= r.len <= |s|
    ensures r.CutShort? ==> |r.rest| < |s| && (r.kept.Bytes? || r.kept.Group?) && r.tag % 8 == WireType(r.kept)
    decreases |s|, 0
  {
    if s == [] then NoMore
    else
      match ReadVarint32(s)
      case NoVarint => NoTag
      case Varint(tag, n) =>
        if tag == 0 then NoTag
        else if tag % 8 == WT_END_GROUP then GroupEnd(tag / 8, n)
        else
          match ReadPayload(tag / 8, tag % 8, s[n..])
          case NoPayload => NoValue(tag)
          case PartPayload(kept, rest) => CutShort(tag, kept, rest)
          case GotPayload(p, k) => Good(Rec(tag / 8, p), n + k)
  }

  function ReadPayload(number: nat, wireType: nat, s: seq<byte>): (r: PayloadRead)
    ensures r.GotPayload? ==> r.len <= |s| && WireType(r.payload) == wireType
    ensures r.PartPayload? ==>
              |r.rest| <= |s| && (r.kept.Bytes? || r.kept.Group?) && WireType(r.kept) == wireType
    ensures r.GotPayload? && r.payload.Varint64? ==> r.payload.value < TWO_64
    decreases |s|, 2
  {
    if wireType == WT_VARINT then
      match ReadVarint64(s)
      case NoVarint => NoPayload
      case Varint(v, n) => GotPayload(Varint64(v), n)
    else if wireType == WT_FIXED64 then
      if |s| < 8 then NoPayload else GotPayload(Fixed64(s[..8]), 8)
    else if wireType == WT_LENGTH_DELIMITED then
      match ReadVarint32(s)
      case NoVarint => NoPayload
      case Varint(len, n) =>
        if len < TWO_31 && n + len <= |s| then GotPayload(Bytes(s[n..n + len]), n + len)
        else PartPayload(Bytes(if len < TWO_31 then s[n..] else []), s[n..])
    else if wireType == WT_START_GROUP then
      match ReadGroup(s)
      case NoGroup(recs) => PartPayload(Group(recs), [])
      case GotGroup(recs, end, n) =>
        if end == number then GotPayload(Group(recs), n) else PartPayload(Group(recs), [])
    else if wireType == WT_FIXED32 then
      if |s| < 4 then NoPayload else GotPayload(Fixed32(s[..4]), 4)
    else NoPayload
  }

  /** The records up to the first end-group tag, which must come before the end. */
  function ReadGroup(s: seq<byte>): (r: GroupRead)
    ensures r.GotGroup? ==> 1 <= r.len <= |s|
    decreases |s|, 1
  {
    match NextRec(s)
    case GroupEnd(number, n) => GotGroup([], number, n)
    case Good(rec, n) =>
      (match ReadGroup(s[n..])
       case NoGroup(recs) => NoGroup([rec] + recs)
       case GotGroup(recs, number, k) => GotGroup([rec] + recs, number, n + k))
    case CutShort(tag, kept, _) => NoGroup([Rec(tag / 8, kept)])
    case _ => NoGroup([])
  }

  /** What skipping a payload adds to an unknown-field set: its record, or the part of it
      that is there. */
  function Skipped(tag: nat, s: seq<byte>): (recs: seq<Rec>)
    ensures forall i :: 0 <= i < |recs| ==> recs[i].number == tag / 8 && WireType(recs[i].payload) == tag % 8
  {
    match ReadPayload(tag / 8, tag % 8, s)
    case NoPayload => []
    case PartPayload(kept, _) => [Rec(tag / 8, kept)]
    case GotPayload(p, _) => [Rec(tag / 8, p)]
  }

  /** The stretch of input a length prefix gives to a known field: it never reaches past
      the end of the input, whatever the prefix promises. */
  datatype Stretch = NoLength | Stretch(data: seq<byte>, after: seq<byte>)

  function Delimited(s: seq<byte>): (r: Stretch)
    ensures r.Stretch? ==> |r.data| + |r.after| < |s|
  {
    match ReadVarint32(s)
    case NoVarint => NoLength
    case Varint(len, n) =>
      if len < TWO_31 && n + len <= |s| then Stretch(s[n..n + len], s[n + len..]) else Stretch(s[n..], [])
  }

  /** How a run of records ends. */
  datatype Stop = End | BadTag | EndGroup | BadPayload(tag: nat) | Cut(tag: nat, kept: Payload, rest: seq<byte>)

  /** The maximal run of readable records, and what stopped it. */
  datatype Tokens = Tokens(recs: seq<Rec>, stop: Stop)

  function Tokenize(s: seq<byte>): Tokens
    decreases |s|
  {
    match NextRec(s)
    case NoMore => Tokens([], End)
    case NoTag => Tokens([], BadTag)
    case GroupEnd(_, _) => Tokens([], EndGroup)
    case NoValue(tag) => Tokens([], BadPayload(tag))
    case CutShort(tag, kept, rest) => Tokens([], Cut(tag, kept, rest))
    case Good(rec, n) => var rest := Tokenize(s[n..]); Tokens([rec] + rest.recs, rest.stop)
  }

  lemma TagParts(number: nat, wireType: nat)
    requires wireType < 8
    ensures MakeTag(number, wireType) / 8 == number && MakeTag(number, wireType) % 8 == wireType
  {
  }

  lemma ReadsNoRecord(s: seq<byte>)
    requires var r := ReadVarint32(s);
      s == [] || r.NoVarint? || r.value == 0 || r.value % 8 == WT_END_GROUP
    ensures var r := ReadVarint32(s);
      NextRec(s) == if s == [] then NoMore else if r.NoVarint? || r.value == 0 then NoTag
                    else GroupEnd(r.value / 8, r.len)
  {
  }

  lemma ReadsRecord(s: seq<byte>)
    requires var r := ReadVarint32(s);
      s != [] && r.Varint? && r.value != 0 && r.value % 8 != WT_END_GROUP
    ensures var r := ReadVarint32(s);
      var p := ReadPayload(r.value / 8, r.value % 8, s[r.len..]);
      NextRec(s) == if p.NoPayload? then NoValue(r.value)
                    else if p.PartPayload? then CutShort(r.value, p.kept, p.rest)
                    else Good(Rec(r.value / 8, p.payload), r.len + p.len)
  {
  }

  // ------------------------------------------------------- written then read

  /** Reading inverts writing, whatever bytes follow. */
  lemma {:induction false} RecRoundTrip(r: Rec, t: seq<byte>)
    requires ValidRec(r)
    ensures NextRec(EncodeRec(r) + t) == Good(r, |EncodeRec(r)|)
    decreases r, 1
  {
    PayloadRoundTrip(r, t);
    TaggedRoundTrip(r, EncodePayload(r), t);
  }

  /** A tag in front of a readable payload. */
  lemma TaggedRoundTrip(r: Rec, body: seq<byte>, t: seq<byte>)
    requires ValidRec(r)
    requires ReadPayload(r.number, WireType(r.payload), body + t) == GotPayload(r.payload, |body|)
    ensures var head := EncodeVarint(MakeTag(r.number, WireType(r.payload)));
      NextRec(head + body + t) == Good(r, |head + body|)
  {
    var tag := MakeTag(r.number, WireType(r.payload));
    TagParts(r.number, WireType(r.payload));
    TagRead(tag, body, t);
    ReadsRecord(EncodeVarint(tag) + body + t);
  }

  lemma TagRead(tag: nat, body: seq<byte>, t: seq<byte>)
    requires tag < TWO_32
    ensures var head := EncodeVarint(tag);
      && ReadVarint32(head + body + t) == Varint(tag, |head|)
      && (head + body + t)[|head|..] == body + t
  {
    var head := EncodeVarint(tag);
    assert head + body + t == head + (body + t);
    VarintRoundTrip(tag, body + t);
    VarintLength(tag);
  }

  lemma {:induction false} PayloadRoundTrip(r: Rec, t: seq<byte>)
    requires ValidRec(r)
    ensures ReadPayload(r.number, WireType(r.payload), EncodePayload(r) + t)
         == GotPayload(r.payload, |EncodePayload(r)|)
    decreases r, 0
  {
    var s := EncodePayload(r) + t;
    match r.payload
    case Varint64(v) => VarintRoundTrip(v, t);
    case Fixed64(raw) => assert s[..8] == raw;
    case Bytes(data) =>
      var head := EncodeVarint(|data|);
      assert s == head + (data + t);
      VarintRoundTrip(|data|, data + t);
      assert s[|head|..|head| + |data|] == data;
    case Group(recs) =>
      var end := EncodeVarint(MakeTag(r.number, WT_END_GROUP));
      assert s == EncodeRecs(recs) + end + t;
      GroupRoundTrip(recs, r.number, t);
    case Fixed32(raw) => assert s[..4] == raw;
  }

  lemma {:induction false} GroupRoundTrip(recs: seq<Rec>, number: nat, t: seq<byte>)
    requires ValidRecs(recs) && number < MAX_NUMBER
    ensures var end := EncodeVarint(MakeTag(number, WT_END_GROUP));
      ReadGroup(EncodeRecs(recs) + end + t) == GotGroup(recs, number, |EncodeRecs(recs) + end|)
    decreases recs, 0
  {
    var tag := MakeTag(number, WT_END_GROUP);
    var end := EncodeVarint(tag);
    if recs == [] {
      EmptyGroupRoundTrip(number, t);
      assert EncodeRecs(recs) + end == end;
    } else {
      var head, tail := EncodeRec(recs[0]), EncodeRecs(recs[1..]) + end + t;
      RecRoundTrip(recs[0], tail);
      GroupRoundTrip(recs[1..], number, t);
      GroupGoesOn(head, recs[0], tail);
      Regroup(head, EncodeRecs(recs[1..]), end, t);
      assert [recs[0]] + recs[1..] == recs;
    }
  }

  lemma Regroup(a: seq<byte>, b: seq<byte>, c: seq<byte>, d: seq<byte>)
    ensures (a + b) + c + d == a + (b + c + d)
  {
  }

  lemma EmptyGroupRoundTrip(number: nat, t: seq<byte>)
    requires number < MAX_NUMBER
    ensures var end := EncodeVarint(MakeTag(number, WT_END_GROUP));
      ReadGroup(end + t) == GotGroup([], number, |end|)
  {
    var tag := MakeTag(number, WT_END_GROUP);
    assert EncodeVarint(tag) + t == EncodeVarint(tag) + [] + t;
    TagParts(number, WT_END_GROUP);
    TagRead(tag, [], t);
    ReadsNoRecord(EncodeVarint(tag) + t);
  }

  lemma GroupGoesOn(head: seq<byte>, r: Rec, tail: seq<byte>)
    requires NextRec(head + tail) == Good(r, |head|) && ReadGroup(tail).GotGroup?
    ensures var g := ReadGroup(tail);
      ReadGroup(head + tail) == GotGroup([r] + g.recs, g.number, |head| + g.len)
  {
    assert (head + tail)[|head|..] == tail;
  }

  /** A written run of records is read back as itself, to the end. */
  lemma {:induction false} TokenizeEncoded(rs: seq<Rec>)
    requires ValidRecs(rs)
    ensures Tokenize(EncodeRecs(rs)) == Tokens(rs, End)
  {
    if rs != [] {
      var head, rest := EncodeRec(rs[0]), EncodeRecs(rs[1..]);
      RecRoundTrip(rs[0], rest);
      assert (head + rest)[|head|..] == rest;
      TokenizeEncoded(rs[1..]);
      assert [rs[0]] + rs[1..] == rs;
    }
  }

  lemma AppendAssoc<T>(x: seq<T>, y: seq<T>, z: seq<T>)
    ensures x + (y + z) == (x + y) + z
  {
  }

  lemma {:induction false} EncodeRecsConcat(a: seq<Rec>, b: seq<Rec>)
    ensures EncodeRecs(a + b) == EncodeRecs(a) + EncodeRecs(b)
  {
    if a == [] {
      assert a + b == b;
    } else {
      EncodeRecsConcat(a[1..], b);
      assert (a + b)[0] == a[0] && (a + b)[1..] == a[1..] + b;
      AppendAssoc(EncodeRec(a[0]), EncodeRecs(a[1..]), EncodeRecs(b));
    }
  }

  // -------------------------------------------------------- read then written

  /** Everything that is read can be written again: the value fits and the tag is
      not the end mark.  So can what is kept of a record that breaks off. */
  lemma {:induction false} ReadIsValid(s: seq<byte>)
    ensures NextRec(s).Good? ==> ValidRec(NextRec(s).rec)
    ensures NextRec(s).CutShort? ==> ValidRec(Rec(NextRec(s).tag / 8, NextRec(s).kept))
    decreases |s|, 0
  {
    if NextRec(s).Good? || NextRec(s).CutShort? {
      var tagRead := ReadVarint32(s);
      PayloadIsValid(tagRead.value, s[tagRead.len..]);
    }
  }

  lemma {:induction false} PayloadIsValid(tag: nat, s: seq<byte>)
    requires 0 < tag < TWO_32
    ensures var r := ReadPayload(tag / 8, tag % 8, s);
      && (r.GotPayload? ==> ValidRec(Rec(tag / 8, r.payload)))
      && (r.PartPayload? ==> ValidRec(Rec(tag / 8, r.kept)))
    decreases |s|, 2
  {
    assert MakeTag(tag / 8, tag % 8) == tag;
    if tag % 8 == WT_START_GROUP {
      GroupReadIsValid(s);
    }
  }

  lemma SkippedIsValid(tag: nat, s: seq<byte>)
    requires 0 < tag < TWO_32
    ensures ValidRecs(Skipped(tag, s))
  {
    PayloadIsValid(tag, s);
  }

  lemma {:induction false} GroupReadIsValid(s: seq<byte>)
    ensures ValidRecs(ReadGroup(s).recs)
    decreases |s|, 1
  {
    ReadIsValid(s);
    match NextRec(s)
    case Good(rec, n) => GroupReadIsValid(s[n..]);
    case _ =>
  }

  lemma {:induction false} TokensAreValid(s: seq<byte>)
    ensures ValidRecs(Tokenize(s).recs)
    decreases |s|
  {
    match NextRec(s)
    case Good(rec, n) =>
      ReadIsValid(s);
      TokensAreValid(s[n..]);
    case _ =>
  }

  /** A complete record is read the same whatever bytes follow it. */
  lemma {:induction false} NextIgnoresTail(s: seq<byte>, t: seq<byte>)
    requires NextRec(s).Good? || NextRec(s).GroupEnd?
    ensures NextRec(s + t) == NextRec(s)
    decreases |s|, 0
  {
    VarintIgnoresTail(s, t, MAX_VARINT_BYTES);
    var tagRead := ReadVarint32(s);
    var tag, n := tagRead.value, tagRead.len;
    assert (s + t)[n..] == s[n..] + t;
    if tag % 8 != WT_END_GROUP {
      PayloadIgnoresTail(tag / 8, tag % 8, s[n..], t);
    }
  }

  lemma {:induction false} PayloadIgnoresTail(number: nat, wireType: nat, s: seq<byte>, t: seq<byte>)
    requires ReadPayload(number, wireType, s).GotPayload?
    ensures ReadPayload(number, wireType, s + t) == ReadPayload(number, wireType, s)
    decreases |s|, 2
  {
    if wireType == WT_VARINT || wireType == WT_LENGTH_DELIMITED {
      VarintIgnoresTail(s, t, MAX_VARINT_BYTES);
    }
    if wireType == WT_FIXED64 {
      assert (s + t)[..8] == s[..8];
    } else if wireType == WT_LENGTH_DELIMITED {
      var r := ReadVarint32(s);
      assert (s + t)[r.len..r.len + r.value] == s[r.len..r.len + r.value];
    } else if wireType == WT_START_GROUP {
      GroupIgnoresTail(s, t);
    } else if wireType == WT_FIXED32 {
      assert (s + t)[..4] == s[..4];
    }
  }

  lemma {:induction false} GroupIgnoresTail(s: seq<byte>, t: seq<byte>)
    requires ReadGroup(s).GotGroup?
    ensures ReadGroup(s + t) == ReadGroup(s)
    decreases |s|, 1
  {
    NextIgnoresTail(s, t);
    match NextRec(s)
    case Good(rec, n) =>
      assert (s + t)[n..] == s[n..] + t;
      GroupIgnoresTail(s[n..], t);
    case _ =>
  }

  // ---------------------------------------------------------- counted sizes

  /** ComputeUnknownFieldsSize: the size of a record set from its decoded form. */
  function RecSize(r: Rec): nat
    decreases r, 0
  {
    VarintSize32(MakeTag(r.number, WireType(r.payload))) +
    match r.payload
    case Varint64(v) => VarintSize64(v)
    case Fixed64(_) => 8
    case Bytes(data) => VarintSize32(|data|) + |data|
    case Group(recs) => RecsSize(recs) + VarintSize32(MakeTag(r.number, WT_END_GROUP))
    case Fixed32(_) => 4
  }

  function RecsSize(rs: seq<Rec>): nat
    decreases rs
  {
    if rs == [] then 0 else RecSize(rs[0]) + RecsSize(rs[1..])
  }

  lemma {:induction false} RecSizeExact(r: Rec)
    requires ValidRec(r)
    ensures RecSize(r) == |EncodeRec(r)|
    decreases r, 1
  {
    VarintLength(MakeTag(r.number, WireType(r.payload)));
    match r.payload
    case Varint64(v) => VarintLength(v);
    case Bytes(data) => VarintLength(|data|);
    case Group(recs) =>
      VarintLength(MakeTag(r.number, WT_END_GROUP));
      RecsSizeExact(recs);
    case _ =>
  }

  lemma {:induction false} RecsSizeExact(rs: seq<Rec>)
    requires ValidRecs(rs)
    ensures RecsSize(rs) == |EncodeRecs(rs)|
    decreases rs, 0
  {
    if rs != [] {
      RecSizeExact(rs[0]);
      RecsSizeExact(rs[1..]);
    }
  }
}
