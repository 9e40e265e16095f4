/** The parser between tags: what is left to do once a tag has been read, and how each
    case of the switch moves on from there. */
module Stepping {
  import opened Wire
  import opened Records
  import opened Layouts
  import opened Messages

  /** The rest of a parse whose next tag has already been read, or expected. */
  function AfterTag(d: Layout, m: Msg, tag: nat, s: seq<byte>): (r: Parsed)
    requires Shaped(d, m)
    ensures Shaped(d, r.msg)
  {
    if tag % 8 == WT_END_GROUP then Parsed(m, GroupTag)
    else
      var r := ReadPayload(tag / 8, tag % 8, s);
      if r.NoPayload? then Parsed(Abandon(d, m, tag), Failed)
      else if r.PartPayload? then ParseCut(d, m, tag, r.kept, r.rest)
      else
        Take(d, m, Rec(tag / 8, r.payload), s[r.len..])
  }

  /** A record is stored, and the parse goes on behind it. */
  function Take(d: Layout, m: Msg, r: Rec, rest: seq<byte>): (p: Parsed)
    requires Shaped(d, m) && (r.payload.Varint64? ==> r.payload.value < TWO_64)
    ensures Shaped(d, p.msg)
  {
    var a := Apply(d, m, r);
    if a.ok then Parse(d, a.msg, rest) else Parsed(a.msg, Failed)
  }

  /** A parse reads a tag and goes on after it. */
  lemma ParseReadsTag(d: Layout, m: Msg, s: seq<byte>)
    requires Shaped(d, m)
    ensures Parse(d, m, s) ==
      var r := ReadVarint32(s);
      if s == [] then Parsed(m, Complete)
      else if r.NoVarint? || r.value == 0 then Parsed(m, ZeroTag)
      else AfterTag(d, m, r.value, s[r.len..])
  {
    var r := ReadVarint32(s);
    if s == [] || r.NoVarint? || r.value == 0 || r.value % 8 == WT_END_GROUP {
      ReadsNoRecord(s);
    } else {
      ReadsRecord(s);
      if NextRec(s).Good? {
        assert s[r.len..][NextRec(s).len - r.len..] == s[NextRec(s).len..];
        ParseTakesRecord(d, m, s);
        TagTakesRecord(d, m, r.value, s[r.len..]);
      }
    }
  }

  lemma ParseTakesRecord(d: Layout, m: Msg, s: seq<byte>)
    requires Shaped(d, m) && NextRec(s).Good?
    requires NextRec(s).rec.payload.Varint64? ==> NextRec(s).rec.payload.value < TWO_64
    ensures Parse(d, m, s) == Take(d, m, NextRec(s).rec, s[NextRec(s).len..])
  {
  }

  lemma TagTakesRecord(d: Layout, m: Msg, tag: nat, s: seq<byte>)
    requires Shaped(d, m) && tag % 8 != WT_END_GROUP && ReadPayload(tag / 8, tag % 8, s).GotPayload?
    ensures var r := ReadPayload(tag / 8, tag % 8, s);
      AfterTag(d, m, tag, s) == Take(d, m, Rec(tag / 8, r.payload), s[r.len..])
  {
  }

  /** The tag a field is written with, and that its case is entered with. */
  function PrimaryTag(f: Field): nat
  {
    MakeTag(f.number, if f.SubMessages? then WT_LENGTH_DELIMITED else WT_VARINT)
  }

  lemma OneByteRead(s: seq<byte>)
    requires s != [] && s[0] < 128
    ensures ReadVarint32(s) == Varint(s[0], 1)
  {
  }

  lemma PrimaryTagByte(d: Layout, k: nat)
    requires Numbered(d) && k < |d.fields|
    ensures 8 <= PrimaryTag(d.fields[k]) < 128
  {
    assert NumberAt(d, k);
  }

  lemma ParseReadsByte(d: Layout, m: Msg, s: seq<byte>)
    requires Shaped(d, m) && s != [] && 0 < s[0] < 128
    ensures Parse(d, m, s) == AfterTag(d, m, s[0], s[1..])
  {
    OneByteRead(s);
    ParseReadsTag(d, m, s);
  }

  /** An expected one-byte tag that is really there is the tag a plain read would give. */
  lemma {:induction false} ExpectedTag(d: Layout, m: Msg, k: nat, s: seq<byte>)
    requires Numbered(d) && Shaped(d, m) && k < |d.fields|
    requires s != [] && s[0] == PrimaryTag(d.fields[k])
    ensures Parse(d, m, s) == AfterTag(d, m, PrimaryTag(d.fields[k]), s[1..])
  {
    PrimaryTagByte(d, k);
    ParseReadsByte(d, m, s);
  }

  /** The case of an integer field reads one varint and stores it. */
  lemma VarintStep(d: Layout, m: Msg, k: nat, s: seq<byte>)
    requires Numbered(d) && Shaped(d, m) && k < |d.fields| && !d.fields[k].SubMessages?
    ensures var f, r := d.fields[k], ReadVarint64(s);
      HasKind(f, m.slots[k]) &&
      AfterTag(d, m, MakeTag(f.number, WT_VARINT), s) ==
        if r.NoVarint? then Parsed(m, Failed)
        else Parse(d, m.(slots := m.slots[k := Store(f, m.slots[k], Varint64(r.value)).slot]), s[r.len..])
  {
    RouteIsUnique(d, k, WT_VARINT);
    TagParts(d.fields[k].number, WT_VARINT);
  }

  /** The case of a packed block or a submessage stores the stretch of input its length
      prefix leaves it; a submessage is added before the prefix is read. */
  lemma DelimitedStep(d: Layout, m: Msg, k: nat, s: seq<byte>)
    requires Numbered(d) && Shaped(d, m) && k < |d.fields| && !d.fields[k].Single?
    ensures var f, r := d.fields[k], Delimited(s);
      HasKind(f, m.slots[k]) &&
      AfterTag(d, m, MakeTag(f.number, WT_LENGTH_DELIMITED), s) ==
        if r.NoLength? then
          Parsed(if f.SubMessages? then m.(slots := m.slots[k := Msgs(m.slots[k].msgs + [Empty(f.sub)])]) else m,
                 Failed)
        else
          var st := Store(f, m.slots[k], Bytes(r.data));
          var m' := m.(slots := m.slots[k := st.slot]);
          if st.ok then Parse(d, m', r.after) else Parsed(m', Failed)
  {
    RouteIsUnique(d, k, WT_LENGTH_DELIMITED);
    TagParts(d.fields[k].number, WT_LENGTH_DELIMITED);
    DelimitedIsPayload(d.fields[k].number, s);
    if Delimited(s).Stretch? {
      var r := Delimited(s);
      var a := Apply(d, m, Rec(d.fields[k].number, Bytes(r.data)));
      NothingLeft(d, a.msg);
      assert AfterTag(d, m, MakeTag(d.fields[k].number, WT_LENGTH_DELIMITED), s)
          == if a.ok then Parse(d, a.msg, r.after) else Parsed(a.msg, Failed);
    }
  }

  lemma DelimitedIsPayload(number: nat, s: seq<byte>)
    ensures var r, p := Delimited(s), ReadPayload(number, WT_LENGTH_DELIMITED, s);
      && (r.NoLength? <==> p.NoPayload?)
      && (p.GotPayload? ==> p.payload == Bytes(r.data) && r.after == s[p.len..])
      && (p.PartPayload? ==> p.rest == r.data && r.after == [])
  {
  }

  lemma NothingLeft(d: Layout, m: Msg)
    requires Shaped(d, m)
    ensures Parse(d, m, []) == Parsed(m, Complete)
  {
  }

  /** A tag that no field takes: its record, or the part of it that is there, goes to the
      unknown fields. */
  lemma UnknownStep(d: Layout, m: Msg, tag: nat, s: seq<byte>)
    requires Shaped(d, m) && Route(d, tag / 8, tag % 8) == Uninterpreted
    ensures AfterTag(d, m, tag, s) ==
      var r := ReadPayload(tag / 8, tag % 8, s);
      var m' := m.(unknown := m.unknown + Skipped(tag, s));
      if tag % 8 == WT_END_GROUP then Parsed(m, GroupTag)
      else if r.GotPayload? then Parse(d, m', s[r.len..])
      else Parsed(m', Failed)
  {
    assert m.unknown + [] == m.unknown;
  }

  /** What is left to parse when a `goto` has entered the case of field `next`, or,
      without one, when the next tag is still to be read. */
  function Remaining(d: Layout, m: Msg, next: Target, s: seq<byte>): (r: Parsed)
    requires Shaped(d, m) && (next.Known? ==> next.index < |d.fields|)
  {
    if next.Known? then AfterTag(d, m, PrimaryTag(d.fields[next.index]), s) else Parse(d, m, s)
  }

  /** What a step owes: it went on, or the parse fails here. */
  function GoesOn(d: Layout, m: Msg, s: seq<byte>, ok: bool): Parsed
    requires Shaped(d, m)
  {
    if ok then Parse(d, m, s) else Parsed(m, Failed)
  }

  /** One more value of a packed block. */
  lemma PackedStep(ty: IntType, s: seq<byte>, got: seq<int>, data: seq<byte>)
    requires s != []
    requires ReadPacked(ty, data) == Packed(got + ReadPacked(ty, s).vals, ReadPacked(ty, s).ok)
    ensures var r := Wire.ReadVarint64(s);
      if r.NoVarint? then ReadPacked(ty, data) == Packed(got, false)
      else
        var more := got + [FromWire(ty, r.value)];
        ReadPacked(ty, data) == Packed(more + ReadPacked(ty, s[r.len..]).vals, ReadPacked(ty, s[r.len..]).ok)
  {
    var r := Wire.ReadVarint64(s);
    if r.Varint? {
      AppendAssoc(got, [FromWire(ty, r.value)], ReadPacked(ty, s[r.len..]).vals);
    } else {
      assert got + [] == got;
    }
  }
}
