/** What a record looks like in bytes: the wire type in the low three bits of the tag, and
    how long a value of each type is. */
module RecordBytes {
  import opened Wire
  import opened Records

  /** A written record, type by type. */
  lemma RecordForms(number: nat, v: nat, raw: seq<byte>, recs: seq<Rec>)
    ensures EncodeRec(Rec(number, Varint64(v))) == EncodeVarint(8 * number) + EncodeVarint(v)
    ensures EncodeRec(Rec(number, Fixed64(raw))) == EncodeVarint(8 * number + 1) + raw
    ensures EncodeRec(Rec(number, Bytes(raw))) == EncodeVarint(8 * number + 2) + EncodeVarint(|raw|) + raw
    ensures EncodeRec(Rec(number, Group(recs)))
         == EncodeVarint(8 * number + 3) + EncodeRecs(recs) + EncodeVarint(8 * number + 4)
    ensures EncodeRec(Rec(number, Fixed32(raw))) == EncodeVarint(8 * number + 5) + raw
  {
    AppendAssoc(EncodeVarint(8 * number + 2), EncodeVarint(|raw|), raw);
    AppendAssoc(EncodeVarint(8 * number + 3), EncodeRecs(recs), EncodeVarint(8 * number + 4));
  }

  /** Bytes behind a tag of wire type 2 and their number. */
  function Counted(number: nat, data: seq<byte>): seq<byte>
  {
    EncodeVarint(8 * number + 2) + EncodeVarint(|data|) + data
  }

  lemma CountedForm(number: nat, data: seq<byte>)
    ensures EncodeRec(Rec(number, Bytes(data))) == Counted(number, data)
  {
    AppendAssoc(EncodeVarint(8 * number + 2), EncodeVarint(|data|), data);
  }

  /** Reading tag and payload. */
  lemma TagAndPayload(number: nat, wireType: nat, s: seq<byte>)
    requires number < 0x2000_0000 && wireType < 8 && wireType != 4 && number + wireType > 0
    ensures var tag := 8 * number + wireType;
      NextRec(EncodeVarint(tag) + s) == AsNext(tag, |EncodeVarint(tag)|, ReadPayload(number, wireType, s))
  {
    var tag := 8 * number + wireType;
    assert EncodeVarint(tag) + s == EncodeVarint(tag) + [] + s;
    TagRead(tag, [], s);
    TagParts(number, wireType);
    ReadsRecord(EncodeVarint(tag) + s);
  }

  function AsNext(tag: nat, n: nat, p: PayloadRead): Next
  {
    match p
    case NoPayload => NoValue(tag)
    case PartPayload(kept, rest) => CutShort(tag, kept, rest)
    case GotPayload(payload, k) => Good(Rec(tag / 8, payload), n + k)
  }

  /** Tag 8n + 5 takes four bytes, and fewer are refused. */
  lemma FourBytes(number: nat, s: seq<byte>)
    requires 1 <= number < 0x2000_0000
    ensures var t := EncodeVarint(8 * number + 5);
      NextRec(t + s) == if |s| < 4 then NoValue(8 * number + 5) else Good(Rec(number, Fixed32(s[..4])), |t| + 4)
  {
    TagAndPayload(number, 5, s);
  }

  /** Tag 8n + 1 takes eight. */
  lemma EightBytes(number: nat, s: seq<byte>)
    requires 1 <= number < 0x2000_0000
    ensures var t := EncodeVarint(8 * number + 1);
      NextRec(t + s) == if |s| < 8 then NoValue(8 * number + 1) else Good(Rec(number, Fixed64(s[..8])), |t| + 8)
  {
    TagAndPayload(number, 1, s);
  }

  /** Tag 8n takes one varint. */
  lemma OneVarint(number: nat, s: seq<byte>)
    requires 1 <= number < 0x2000_0000
    ensures var t, r := EncodeVarint(8 * number), ReadVarint64(s);
      NextRec(t + s) == if r.NoVarint? then NoValue(8 * number) else Good(Rec(number, Varint64(r.value)), |t| + r.len)
  {
    TagAndPayload(number, 0, s);
  }

  /** Tag 8n + 2 takes as many bytes as a varint says. */
  lemma CountedBytes(number: nat, s: seq<byte>)
    requires 1 <= number < 0x2000_0000
    ensures var t, r := EncodeVarint(8 * number + 2), ReadVarint32(s);
      NextRec(t + s)
        == if r.NoVarint? then NoValue(8 * number + 2)
           else if r.value >= 0x8000_0000 then CutShort(8 * number + 2, Bytes([]), s[r.len..])
           else if r.len + r.value > |s| then CutShort(8 * number + 2, Bytes(s[r.len..]), s[r.len..])
           else Good(Rec(number, Bytes(s[r.len..r.len + r.value])), |t| + r.len + r.value)
  {
    TagAndPayload(number, 2, s);
    CountedPayload(number, s);
  }

  lemma CountedPayload(number: nat, s: seq<byte>)
    ensures var r := ReadVarint32(s);
      ReadPayload(number, 2, s)
        == if r.NoVarint? then NoPayload
           else if r.value >= 0x8000_0000 then PartPayload(Bytes([]), s[r.len..])
           else if r.len + r.value > |s| then PartPayload(Bytes(s[r.len..]), s[r.len..])
           else GotPayload(Bytes(s[r.len..r.len + r.value]), r.len + r.value)
  {
  }

  /** Tag 8n + 3 takes the records of a group up to tag 8n + 4; the end tag of another
      group breaks it off. */
  lemma GroupToItsEnd(number: nat, end: nat, recs: seq<Rec>, t: seq<byte>)
    requires 1 <= number < 0x2000_0000 && end < 0x2000_0000 && ValidRecs(recs)
    ensures var head, body := EncodeVarint(8 * number + 3), EncodeRecs(recs) + EncodeVarint(8 * end + 4);
      NextRec(head + (body + t))
        == if end == number then Good(Rec(number, Group(recs)), |head| + |body|)
           else CutShort(8 * number + 3, Group(recs), [])
  {
    var body := EncodeRecs(recs) + EncodeVarint(8 * end + 4);
    TagAndPayload(number, 3, body + t);
    GroupRoundTrip(recs, end, t);
    GroupPayload(number, body + t);
  }

  /** So does the end of the input. */
  lemma GroupToNoEnd(number: nat, recs: seq<Rec>)
    requires 1 <= number < 0x2000_0000 && ValidRecs(recs)
    ensures NextRec(EncodeVarint(8 * number + 3) + EncodeRecs(recs)) == CutShort(8 * number + 3, Group(recs), [])
  {
    TagAndPayload(number, 3, EncodeRecs(recs));
    OpenGroup(recs);
    GroupPayload(number, EncodeRecs(recs));
  }

  lemma GroupPayload(number: nat, s: seq<byte>)
    ensures var g := ReadGroup(s);
      ReadPayload(number, 3, s) == if g.GotGroup? && g.number == number then GotPayload(Group(g.recs), g.len)
                                   else PartPayload(Group(g.recs), [])
  {
  }

  lemma {:induction false} OpenGroup(recs: seq<Rec>)
    requires ValidRecs(recs)
    ensures ReadGroup(EncodeRecs(recs)) == NoGroup(recs)
  {
    if recs != [] {
      var head, tail := EncodeRec(recs[0]), EncodeRecs(recs[1..]);
      RecRoundTrip(recs[0], tail);
      OpenGroup(recs[1..]);
      assert (head + tail)[|head|..] == tail;
      assert [recs[0]] + recs[1..] == recs;
    }
  }

  /** A zero tag and an end-group tag are no records. */
  lemma EndMarks(number: nat, s: seq<byte>)
    requires number < 0x2000_0000
    ensures NextRec([0] + s) == NoTag
    ensures NextRec(EncodeVarint(8 * number + 4) + s) == GroupEnd(number, |EncodeVarint(8 * number + 4)|)
  {
    TagParts(number, 4);
    EndTag(8 * number + 4, s);
  }

  lemma EndTag(tag: nat, s: seq<byte>)
    requires tag < TWO_32 && tag % 8 == 4
    ensures NextRec(EncodeVarint(tag) + s) == GroupEnd(tag / 8, |EncodeVarint(tag)|)
  {
    assert EncodeVarint(tag) + s == EncodeVarint(tag) + [] + s;
    TagRead(tag, [], s);
    ReadsNoRecord(EncodeVarint(tag) + s);
  }

  /** There are no wire types 6 and 7. */
  lemma NoSuchType(number: nat, s: seq<byte>)
    requires number < 0x2000_0000
    ensures NextRec(EncodeVarint(8 * number + 6) + s) == NoValue(8 * number + 6)
    ensures NextRec(EncodeVarint(8 * number + 7) + s) == NoValue(8 * number + 7)
  {
    TagAndPayload(number, 6, s);
    TagAndPayload(number, 7, s);
  }
}
