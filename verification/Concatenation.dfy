/** When concatenating two encodings merges the messages.  An accepted input whose last
    record breaks off is no prefix to go on from: the bytes behind it are taken for the
    rest of that record. */
module Concatenation {
  import opened Wire
  import opened Records
  import opened Layouts
  import opened Messages
  import opened Merging
  import opened Stepping
  import opened GameMessages

  /** Two bytes that every class accepts: field `k` with a zero, which is the integer 0 for
      a varint and an empty submessage for a length prefix. */
  function Probe(d: Layout, k: nat): (b: seq<byte>)
    requires Numbered(d) && k < |d.fields|
    ensures |b| == 2 && b[0] == PrimaryTag(d.fields[k]) < 128 && b[1] == 0
  {
    PrimaryTagByte(d, k);
    [PrimaryTag(d.fields[k]), 0]
  }

  /** How many elements a list holds. */
  function Count(s: Slot): nat
  {
    match s
    case Opt(_) => 0
    case Ints(vals) => |vals|
    case Msgs(msgs) => |msgs|
  }

  lemma ProbeAddsOne(d: Layout, k: nat)
    requires Numbered(d) && k < |d.fields| && !d.fields[k].Single?
    ensures var p := Parse(d, Empty(d), Probe(d, k));
      p.outcome == Complete && Count(p.msg.slots[k]) == 1
  {
    var f, s := d.fields[k], Probe(d, k);
    ExpectedTag(d, Empty(d), k, s);
    assert s[1..] == [0];
    if f.Repeated? {
      VarintStep(d, Empty(d), k, [0]);
      NothingLeft(d, Empty(d).(slots := Empty(d).slots[k := Store(f, Ints([]), Varint64(0)).slot]));
    } else {
      DelimitedStep(d, Empty(d), k, [0]);
      NothingLeft(f.sub, Empty(f.sub));
      NothingLeft(d, Empty(d).(slots := Empty(d).slots[k := Msgs([] + [Empty(f.sub)])]));
    }
  }

  /** The values of two blocks back to back. */
  lemma {:induction false} PackedAppend(ty: IntType, s: seq<byte>, t: seq<byte>)
    requires ReadPacked(ty, s).ok
    ensures var x, y := ReadPacked(ty, s), ReadPacked(ty, t);
      ReadPacked(ty, s + t) == Packed(x.vals + y.vals, y.ok)
    decreases |s|
  {
    if s == [] {
      assert s + t == t;
      assert [] + ReadPacked(ty, t).vals == ReadPacked(ty, t).vals;
    } else {
      var Varint(u, n) := ReadVarint64(s);
      VarintIgnoresTail(s, t, MAX_VARINT_BYTES);
      assert (s + t)[n..] == s[n..] + t;
      PackedAppend(ty, s[n..], t);
      AppendAssoc([FromWire(ty, u)], ReadPacked(ty, s[n..]).vals, ReadPacked(ty, t).vals);
    }
  }

  /** A length prefix that promises more than there is. */
  predicate IsCut(s: seq<byte>)
  {
    var r := ReadVarint32(s);
    r.Varint? && (r.value >= TWO_31 || r.len + r.value > |s|)
  }

  lemma PartIsCut(number: nat, s: seq<byte>)
    ensures ReadPayload(number, WT_LENGTH_DELIMITED, s).PartPayload? <==> IsCut(s)
  {
  }

  /** A stretch that was cut short takes in the first of two more bytes, and the second if
      its prefix still reaches that far. */
  lemma StretchTakesMore(s: seq<byte>, b: seq<byte>)
    requires IsCut(s) && |b| == 2
    ensures Delimited(s).Stretch? && Delimited(s).after == []
    ensures var r, data := ReadVarint32(s), Delimited(s).data;
      Delimited(s + b) == if r.value < TWO_31 && r.len + r.value == |s| + 1 then Stretch(data + b[..1], b[1..])
                          else Stretch(data + b, [])
  {
    VarintIgnoresTail(s, b, MAX_VARINT_BYTES);
    var Varint(len, n) := ReadVarint32(s);
    if len < TWO_31 && n + len <= |s| + 2 {
      SlicesBehind(s, b, n, n + len - |s|);
      assert b[..2] == b && b[2..] == [];
    } else {
      assert (s + b)[n..] == s[n..] + b;
    }
  }

  lemma SlicesBehind(s: seq<byte>, b: seq<byte>, n: nat, more: nat)
    requires n <= |s| && more <= |b|
    ensures (s + b)[n..|s| + more] == s[n..] + b[..more] && (s + b)[|s| + more..] == b[more..]
  {
  }

  /** The parse that stores stretch `r` in field `k` and goes on behind it. */
  function AtStretch(d: Layout, m: Msg, k: nat, r: Stretch): (p: Parsed)
    requires Shaped(d, m) && k < |d.fields| && !d.fields[k].Single? && r.Stretch?
    ensures Shaped(d, p.msg)
  {
    var st := Store(d.fields[k], m.slots[k], Bytes(r.data));
    var m' := m.(slots := m.slots[k := st.slot]);
    if st.ok then Parse(d, m', r.after) else Parsed(m', Failed)
  }

  lemma TagFirst(d: Layout, m: Msg, tag: nat, s: seq<byte>)
    requires Shaped(d, m) && 0 < tag < 128
    ensures Parse(d, m, EncodeVarint(tag) + s) == AfterTag(d, m, tag, s)
  {
    var t := EncodeVarint(tag) + s;
    assert t[0] == tag && t[1..] == s;
    ParseReadsByte(d, m, t);
  }

  lemma Stretched(len: nat, rest: seq<byte>)
    requires |rest| <= len < TWO_32 && |rest| < TWO_31
    ensures Delimited(EncodeVarint(len) + rest) == Stretch(rest, [])
  {
    var head := EncodeVarint(len);
    VarintRoundTrip(len, rest);
    assert (head + rest)[|head|..] == rest;
    assert (head + rest)[|head|..|head| + |rest|] == rest;
    assert (head + rest)[|head| + |rest|..] == [];
  }

  lemma ReadsStretch(d: Layout, m: Msg, k: nat, s: seq<byte>, rest: seq<byte>)
    requires Numbered(d) && Shaped(d, m) && k < |d.fields| && !d.fields[k].Single?
    requires Delimited(s) == Stretch(rest, [])
    ensures Parse(d, m, EncodeVarint(8 * d.fields[k].number + 2) + s) == AtStretch(d, m, k, Stretch(rest, []))
  {
    assert NumberAt(d, k);
    DelimitedStep(d, m, k, s);
    TagFirst(d, m, 8 * d.fields[k].number + 2, s);
  }

  /** A length that promises more than there is gives a known field what is there. */
  lemma CutShortRead(d: Layout, m: Msg, k: nat, len: nat, rest: seq<byte>)
    requires Numbered(d) && Shaped(d, m) && k < |d.fields| && !d.fields[k].Single?
    requires |rest| < len < 0x1_0000_0000 && |rest| < 0x8000_0000
    ensures var tag := EncodeVarint(8 * d.fields[k].number + 2);
      Parse(d, m, tag + (EncodeVarint(len) + rest)) == Parse(d, m, tag + (EncodeVarint(|rest|) + rest))
  {
    Stretched(len, rest);
    Stretched(|rest|, rest);
    ReadsStretch(d, m, k, EncodeVarint(len) + rest, rest);
    ReadsStretch(d, m, k, EncodeVarint(|rest|) + rest, rest);
  }

  /** The field at the head is cut short: what two more bytes make of it. */
  lemma HeadStretch(d: Layout, m: Msg, k: nat, a: seq<byte>, b: seq<byte>) returns (data: seq<byte>)
    requires Numbered(d) && Shaped(d, m) && NextRec(a).CutShort? && |b| == 2
    requires Route(d, NextRec(a).tag / 8, NextRec(a).tag % 8) == Known(k)
    ensures !d.fields[k].Single? && Parse(d, m, a) == AtStretch(d, m, k, Stretch(data, []))
    ensures
      || Parse(d, m, a + b) == AtStretch(d, m, k, Stretch(data + b, []))
      || Parse(d, m, a + b) == AtStretch(d, m, k, Stretch(data + b[..1], b[1..]))
  {
    var tagRead := ReadVarint32(a);
    var tag, s := tagRead.value, a[tagRead.len..];
    assert tag == MakeTag(d.fields[k].number, WT_LENGTH_DELIMITED);
    VarintIgnoresTail(a, b, MAX_VARINT_BYTES);
    assert (a + b)[tagRead.len..] == s + b;
    ParseReadsTag(d, m, a);
    ParseReadsTag(d, m, a + b);
    PartIsCut(tag / 8, s);
    StretchTakesMore(s, b);
    DelimitedStep(d, m, k, s);
    DelimitedStep(d, m, k, s + b);
    data := Delimited(s).data;
  }

  lemma StretchCounts(d: Layout, m: Msg, k: nat, data: seq<byte>)
    requires Shaped(d, m) && k < |d.fields| && !d.fields[k].Single?
    ensures Count(AtStretch(d, m, k, Stretch(data, [])).msg.slots[k])
         == Count(m.slots[k]) + if d.fields[k].Repeated? then |ReadPacked(d.fields[k].ty, data).vals| else 1
    ensures AtStretch(d, m, k, Stretch(data, [])).outcome == Complete && d.fields[k].Repeated?
        ==> ReadPacked(d.fields[k].ty, data).ok
  {
    NothingLeft(d, m.(slots := m.slots[k := Store(d.fields[k], m.slots[k], Bytes(data)).slot]));
  }

  /** A zero byte left over ends the parse without completing it. */
  lemma ZeroLeft(d: Layout, m: Msg, k: nat, data: seq<byte>)
    requires Shaped(d, m) && k < |d.fields| && !d.fields[k].Single?
    ensures AtStretch(d, m, k, Stretch(data, [0])).outcome != Complete
  {
    ParseReadsTag(d, m.(slots := m.slots[k := Store(d.fields[k], m.slots[k], Bytes(data)).slot]), [0]);
  }

  /** Two one-byte varints are no or two more elements, not one. */
  lemma BothTaken(d: Layout, m: Msg, k: nat, data: seq<byte>, b: seq<byte>)
    requires Shaped(d, m) && k < |d.fields| && !d.fields[k].Single?
    requires AtStretch(d, m, k, Stretch(data, [])).outcome == Complete
    requires |b| == 2 && b[0] < 128 && b[1] < 128
    ensures Count(AtStretch(d, m, k, Stretch(data + b, [])).msg.slots[k])
         != Count(AtStretch(d, m, k, Stretch(data, [])).msg.slots[k]) + 1
  {
    StretchCounts(d, m, k, data);
    StretchCounts(d, m, k, data + b);
    if d.fields[k].Repeated? {
      PackedAppend(d.fields[k].ty, data, b);
      ProbeHoldsTwo(d.fields[k].ty, b);
    }
  }

  /** `y` does not complete with one element more than `x` in list `k`. */
  predicate NotOneMore(x: Parsed, y: Parsed, k: nat)
    requires k < |x.msg.slots| && k < |y.msg.slots|
  {
    y.outcome == Complete ==> Count(y.msg.slots[k]) != Count(x.msg.slots[k]) + 1
  }

  lemma StretchTakesBytes(d: Layout, m: Msg, k: nat, data: seq<byte>, b: seq<byte>, x: Parsed, y: Parsed)
    requires Shaped(d, m) && k < |d.fields| && !d.fields[k].Single?
    requires |b| == 2 && b[0] < 128 && b[1] == 0
    requires x == AtStretch(d, m, k, Stretch(data, [])) && x.outcome == Complete
    requires
      || y == AtStretch(d, m, k, Stretch(data + b, []))
      || y == AtStretch(d, m, k, Stretch(data + b[..1], b[1..]))
    ensures NotOneMore(x, y, k)
  {
    BothTaken(d, m, k, data, b);
    assert b[1..] == [0];
    ZeroLeft(d, m, k, data + b[..1]);
  }

  lemma HeadTakesMore(d: Layout, m: Msg, k: nat, a: seq<byte>, b: seq<byte>)
    requires Numbered(d) && Shaped(d, m) && NextRec(a).CutShort?
    requires Route(d, NextRec(a).tag / 8, NextRec(a).tag % 8) == Known(k)
    requires Parse(d, m, a).outcome == Complete
    requires |b| == 2 && b[0] < 128 && b[1] == 0
    ensures !d.fields[k].Single? && NotOneMore(Parse(d, m, a), Parse(d, m, a + b), k)
  {
    var data := HeadStretch(d, m, k, a, b);
    StretchTakesBytes(d, m, k, data, b, Parse(d, m, a), Parse(d, m, a + b));
  }

  lemma ProbeHoldsTwo(ty: IntType, b: seq<byte>)
    requires |b| == 2 && b[0] < 128 && b[1] < 128
    ensures |ReadPacked(ty, b).vals| == 2
  {
    assert b[1..] == [b[1]] && [b[1]][1..] == [];
    assert |ReadPacked(ty, [b[1]]).vals| == 1;
  }

  /** Wherever the last record of an accepted input breaks off. */
  lemma {:induction false} CutTakesMore(d: Layout, m: Msg, k: nat, a: seq<byte>, b: seq<byte>)
    requires Numbered(d) && Shaped(d, m) && Parse(d, m, a).outcome == Complete && Tokenize(a).stop.Cut?
    requires Route(d, Tokenize(a).stop.tag / 8, Tokenize(a).stop.tag % 8) == Known(k)
    requires |b| == 2 && b[0] < 128 && b[1] == 0
    ensures !d.fields[k].Single? && NotOneMore(Parse(d, m, a), Parse(d, m, a + b), k)
    decreases |a|
  {
    match NextRec(a)
    case Good(rec, n) =>
      ReadIsValid(a);
      NextIgnoresTail(a, b);
      assert (a + b)[n..] == a[n..] + b;
      CutTakesMore(d, Apply(d, m, rec).msg, k, a[n..], b);
    case CutShort(_, _, _) => HeadTakesMore(d, m, k, a, b);
  }

  lemma MergeCounts(d: Layout, a: Msg, b: Msg, k: nat)
    requires Shaped(d, a) && Shaped(d, b) && k < |d.fields| && !d.fields[k].Single?
    ensures Count(Merge(a, b).slots[k]) == Count(a.slots[k]) + Count(b.slots[k])
  {
    assert HasKind(d.fields[k], a.slots[k]) && HasKind(d.fields[k], b.slots[k]);
  }

  /** The converse of ConcatenationIsMerge: behind an accepted input that is cut short there
      is an accepted one that is not merged in. */
  lemma CutShortBreaksMerge(d: Layout, a: seq<byte>) returns (b: seq<byte>)
    requires Numbered(d) && Parse(d, Empty(d), a).outcome == Complete && Tokenize(a).stop != End
    ensures Parse(d, Empty(d), b).outcome == Complete && !Concatenates(d, a, b)
  {
    ParseIsFold(d, Empty(d), a);
    var stop := Tokenize(a).stop;
    var k := Route(d, stop.tag / 8, stop.tag % 8).index;
    b := Probe(d, k);
    CutTakesMore(d, Empty(d), k, a, b);
    ProbeAddsOne(d, k);
    MergeCounts(d, Parse(d, Empty(d), a).msg, Parse(d, Empty(d), b).msg, k);
  }

  /** Concatenation is merge behind an accepted input exactly when that input is a run of
      whole records. */
  lemma ConcatenationIff(d: Layout, a: seq<byte>)
    requires Numbered(d) && Parse(d, Empty(d), a).outcome == Complete
    ensures Tokenize(a).stop == End <==>
              forall b :: Parse(d, Empty(d), b).outcome == Complete ==> Concatenates(d, a, b)
  {
    if Tokenize(a).stop == End {
      forall b | Parse(d, Empty(d), b).outcome == Complete
        ensures Concatenates(d, a, b)
      {
        ConcatenationIsMerge(d, a, b);
      }
    } else {
      var b := CutShortBreaksMerge(d, a);
    }
  }

  // ------------------------------------------------------------------ an instance

  /** A play-log message whose one log is said to have five bytes and has none, and one whose
      log is empty: each is accepted as one empty log, and so are the two together. */
  lemma CutShortPlayLog(a: seq<byte>, b: seq<byte>)
    requires a == [10, 5] && b == [10, 0]
    ensures var d, one := BainiuPlayLogRep, Msg([Msgs([Msg([Ints([])], [])])], []);
      && Parse(d, Empty(d), a) == Parsed(one, Complete)
      && Parse(d, Empty(d), b) == Parsed(one, Complete)
      && Parse(d, Empty(d), a + b) == Parsed(one, Complete)
      && !Concatenates(d, a, b)
  {
    OneLog(a, a[1..], []);
    OneLog(b, b[1..], []);
    OneLog(a + b, (a + b)[1..], b);
    NotMerged(BainiuPlayLogRep, a, b, Msg([Ints([])], []));
  }

  lemma NotMerged(d: Layout, a: seq<byte>, b: seq<byte>, e: Msg)
    requires var one := Msg([Msgs([e])], []);
      && Shaped(d, one) && Parse(d, Empty(d), a).msg == Parse(d, Empty(d), b).msg == one
      && Parse(d, Empty(d), a + b).msg == one
    ensures !Concatenates(d, a, b)
  {
    var one := Msg([Msgs([e])], []);
    assert |Merge(one, one).slots[0].msgs| == 2;
  }

  lemma OneLog(s: seq<byte>, rest: seq<byte>, data: seq<byte>)
    requires s != [] && s[0] == 10 && s[1..] == rest && Delimited(rest) == Stretch(data, [])
    requires data == [] || data == [10, 0]
    ensures Parse(BainiuPlayLogRep, Empty(BainiuPlayLogRep), s)
         == Parsed(Msg([Msgs([Msg([Ints([])], [])])], []), Complete)
  {
    var d := BainiuPlayLogRep;
    LogsWellFormed();
    NoInts(data);
    ExpectedTag(d, Empty(d), 0, s);
    DelimitedStep(d, Empty(d), 0, rest);
    var one := Msg([Ints([])], []);
    assert [] + [one] == [one];
    assert Empty(d).slots == [Msgs([])];
    assert Empty(d).(slots := [Msgs([])][0 := Msgs([] + [one])]) == Msg([Msgs([one])], []);
    NothingLeft(d, Msg([Msgs([one])], []));
  }

  lemma NoInts(data: seq<byte>)
    requires data == [] || data == [10, 0]
    ensures Parse(BainiuPlayLog, Empty(BainiuPlayLog), data) == Parsed(Msg([Ints([])], []), Complete)
  {
    var d := BainiuPlayLog;
    assert Empty(d).slots == [Ints([])];
    NothingLeft(d, Empty(d));
    if data == [10, 0] {
      LogsWellFormed();
      ParseReadsByte(d, Empty(d), data);
      assert data[1..] == [0];
      EmptyBlock(d, Empty(d));
    }
  }

  lemma EmptyBlock(d: Layout, m: Msg)
    requires Numbered(d) && Shaped(d, m) && |d.fields| == 1 && d.fields[0] == Repeated(1, UInt32)
    ensures AfterTag(d, m, 10, [0]) == Parsed(m, Complete)
  {
    DelimitedStep(d, m, 0, [0]);
    assert m.slots[0].vals + [] == m.slots[0].vals;
    assert m.slots[0 := m.slots[0]] == m.slots;
    NothingLeft(d, m);
  }
}
