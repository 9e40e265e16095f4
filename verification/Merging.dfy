/** Merging as a monoid, and parsing as merging: what a run of records does to a
    message is a merge of what it does to an empty one. */
module Merging {
  import opened Wire
  import opened Records
  import opened Layouts
  import opened Messages

  // --------------------------------------------------------------- the monoid

  lemma MergeIdentity(d: Layout, m: Msg)
    requires Shaped(d, m)
    ensures Merge(Empty(d), m) == m == Merge(m, Empty(d))
  {
    var l, r := Merge(Empty(d), m), Merge(m, Empty(d));
    forall k | 0 <= k < |d.fields|
      ensures l.slots[k] == m.slots[k] == r.slots[k]
    {
      SlotIdentity(d.fields[k], m.slots[k]);
    }
    assert l.unknown == m.unknown == r.unknown;
    assert l.slots == m.slots == r.slots;
  }

  lemma SlotIdentity(f: Field, s: Slot)
    requires HasKind(f, s)
    ensures MergeSlot(EmptySlot(f), s) == s == MergeSlot(s, EmptySlot(f))
  {
    match s
    case Opt(_) =>
    case Ints(v) => assert [] + v == v == v + [];
    case Msgs(v) => assert [] + v == v == v + [];
  }

  lemma SlotAssociative(a: Slot, b: Slot, c: Slot)
    requires (a.Opt? && b.Opt? && c.Opt?) || (a.Ints? && b.Ints? && c.Ints?) || (a.Msgs? && b.Msgs? && c.Msgs?)
    ensures MergeSlot(MergeSlot(a, b), c) == MergeSlot(a, MergeSlot(b, c))
  {
    match a
    case Opt(_) =>
    case Ints(v) => AppendAssoc(v, b.vals, c.vals);
    case Msgs(v) => AppendAssoc(v, b.msgs, c.msgs);
  }

  lemma MergeAssociative(d: Layout, a: Msg, b: Msg, c: Msg)
    requires Shaped(d, a) && Shaped(d, b) && Shaped(d, c)
    ensures Merge(Merge(a, b), c) == Merge(a, Merge(b, c))
  {
    var l, r := Merge(Merge(a, b), c), Merge(a, Merge(b, c));
    forall k | 0 <= k < |d.fields|
      ensures l.slots[k] == r.slots[k]
    {
      assert HasKind(d.fields[k], a.slots[k]) && HasKind(d.fields[k], b.slots[k]) && HasKind(d.fields[k], c.slots[k]);
      SlotAssociative(a.slots[k], b.slots[k], c.slots[k]);
    }
    assert l.slots == r.slots;
    AppendAssoc(a.unknown, b.unknown, c.unknown);
  }

  // --------------------------------------------------------- parsing as a fold

  predicate Readable(rs: seq<Rec>)
  {
    forall i :: 0 <= i < |rs| && rs[i].payload.Varint64? ==> rs[i].payload.value < TWO_64
  }

  /** Whether a record's case succeeds. */
  predicate Taken(d: Layout, r: Rec)
    requires r.payload.Varint64? ==> r.payload.value < TWO_64
  {
    Apply(d, Empty(d), r).ok
  }

  predicate AllTaken(d: Layout, rs: seq<Rec>)
    requires Readable(rs)
  {
    forall i :: 0 <= i < |rs| ==> Taken(d, rs[i])
  }

  /** The message after a run of records. */
  function Fold(d: Layout, m: Msg, rs: seq<Rec>): (m': Msg)
    requires Shaped(d, m) && Readable(rs)
    ensures Shaped(d, m')
    decreases |rs|
  {
    if rs == [] then m else Fold(d, Apply(d, m, rs[0]).msg, rs[1..])
  }

  /** Success never depends on what was parsed before. */
  lemma TakenAnywhere(d: Layout, m: Msg, r: Rec)
    requires Shaped(d, m)
    requires r.payload.Varint64? ==> r.payload.value < TWO_64
    ensures Apply(d, m, r).ok == Taken(d, r)
  {
    match RouteRec(d, r)
    case Uninterpreted =>
    case Known(k) =>
      var f := d.fields[k];
      assert Store(f, m.slots[k], r.payload).ok == Store(f, EmptySlot(f), r.payload).ok;
  }

  /** The records of a whole input.  One that breaks off ends the run, but a known field
      takes what is there for its value, which makes it a record like any other. */
  function RecordsOf(d: Layout, s: seq<byte>): (t: Tokens)
    ensures Readable(t.recs)
  {
    TokensAreValid(s);
    var t := Tokenize(s);
    if t.stop.Cut? && Route(d, t.stop.tag / 8, t.stop.tag % 8).Known?
    then Tokens(t.recs + [Rec(t.stop.tag / 8, Bytes(t.stop.rest))], End)
    else t
  }

  lemma RecordsStep(d: Layout, s: seq<byte>)
    requires NextRec(s).Good?
    ensures var rest := RecordsOf(d, s[NextRec(s).len..]);
      RecordsOf(d, s) == Tokens([NextRec(s).rec] + rest.recs, rest.stop)
  {
    var t := Tokenize(s[NextRec(s).len..]);
    if t.stop.Cut? {
      AppendAssoc([NextRec(s).rec], t.recs, [Rec(t.stop.tag / 8, Bytes(t.stop.rest))]);
    }
  }

  /** The parser reaches the end exactly when the bytes are a run of records that are all
      accepted, and then it has folded those records. */
  lemma {:induction false} ParseIsFold(d: Layout, m: Msg, s: seq<byte>)
    requires Shaped(d, m)
    ensures var t := RecordsOf(d, s);
      && (Parse(d, m, s).outcome == Complete <==> t.stop == End && AllTaken(d, t.recs))
      && (Parse(d, m, s).outcome == Complete ==> Parse(d, m, s).msg == Fold(d, m, t.recs))
    decreases |s|
  {
    match NextRec(s)
    case Good(rec, n) =>
      ReadIsValid(s);
      TakenAnywhere(d, m, rec);
      var a := Apply(d, m, rec);
      var rest := RecordsOf(d, s[n..]);
      ParseIsFold(d, a.msg, s[n..]);
      RecordsStep(d, s);
      var rs := [rec] + rest.recs;
      assert rs[0] == rec && rs[1..] == rest.recs;
      AllTakenCons(d, rec, rest.recs);
    case CutShort(tag, kept, rest) =>
      if Route(d, tag / 8, tag % 8).Known? {
        var r := Rec(tag / 8, Bytes(rest));
        TakenAnywhere(d, m, r);
        assert RecordsOf(d, s).recs == [r];
        FoldOne(d, m, r);
      }
    case _ =>
  }

  lemma FoldOne(d: Layout, m: Msg, r: Rec)
    requires Shaped(d, m) && (r.payload.Varint64? ==> r.payload.value < TWO_64)
    ensures Fold(d, m, [r]) == Apply(d, m, r).msg && (AllTaken(d, [r]) <==> Taken(d, r))
  {
    assert [r][0] == r && [r][1..] == [];
  }

  lemma AllTakenCons(d: Layout, r: Rec, rs: seq<Rec>)
    requires Readable([r] + rs)
    ensures Readable(rs) && (r.payload.Varint64? ==> r.payload.value < TWO_64)
    ensures AllTaken(d, [r] + rs) <==> Taken(d, r) && AllTaken(d, rs)
  {
    var all := [r] + rs;
    assert all[0] == r && all[1..] == rs;
    assert forall i :: 0 <= i < |rs| ==> rs[i] == all[i + 1];
    assert forall i :: 0 < i < |all| ==> all[i] == rs[i - 1];
  }

  lemma {:induction false} FoldAppend(d: Layout, m: Msg, a: seq<Rec>, b: seq<Rec>)
    requires Shaped(d, m) && Readable(a) && Readable(b)
    ensures Readable(a + b)
    ensures Fold(d, m, a + b) == Fold(d, Fold(d, m, a), b)
    decreases |a|
  {
    if a == [] {
      assert a + b == b;
    } else {
      assert (a + b)[0] == a[0] && (a + b)[1..] == a[1..] + b;
      FoldAppend(d, Apply(d, m, a[0]).msg, a[1..], b);
    }
  }

  // ---------------------------------------------------------- folds are merges

  lemma StoreIsMerge(f: Field, s: Slot, p: Payload)
    requires HasKind(f, s) && Accepts(f, WireType(p))
    requires p.Varint64? ==> p.value < TWO_64
    ensures Store(f, s, p).slot == MergeSlot(s, Store(f, EmptySlot(f), p).slot)
  {
    match f
    case Single(_, _, _) =>
    case Repeated(_, ty) =>
      assert forall v: seq<int> :: [] + v == v;
    case SubMessages(_, sub) =>
      assert forall v: seq<Msg> :: [] + v == v;
  }

  lemma ApplyIsMerge(d: Layout, m: Msg, r: Rec)
    requires Shaped(d, m)
    requires r.payload.Varint64? ==> r.payload.value < TWO_64
    ensures Apply(d, m, r).msg == Merge(m, Apply(d, Empty(d), r).msg)
  {
    var l, e := Apply(d, m, r).msg, Apply(d, Empty(d), r).msg;
    var x := Merge(m, e);
    var t := RouteRec(d, r);
    forall k | 0 <= k < |d.fields|
      ensures l.slots[k] == x.slots[k]
    {
      if t == Known(k) {
        StoreIsMerge(d.fields[k], m.slots[k], r.payload);
      } else {
        SlotIdentity(d.fields[k], m.slots[k]);
      }
    }
    assert l.slots == x.slots;
    assert l.unknown == x.unknown;
  }

  // --------------------------------------------------------------- the theorems

  /** An input that is a run of whole records can be gone on with: parsing `a + b` is
      parsing `a`, and then `b` into what that left, unless `a` has already failed. */
  lemma {:induction false} ParseResumes(d: Layout, m: Msg, a: seq<byte>, b: seq<byte>)
    requires Shaped(d, m) && Tokenize(a).stop == End
    ensures var p := Parse(d, m, a);
      Parse(d, m, a + b) == if p.outcome == Complete then Parse(d, p.msg, b) else p
    decreases |a|
  {
    if a == [] {
      assert a + b == b;
    } else {
      var Good(rec, n) := NextRec(a);
      ReadIsValid(a);
      NextIgnoresTail(a, b);
      assert (a + b)[n..] == a[n..] + b;
      if Apply(d, m, rec).ok {
        ParseResumes(d, Apply(d, m, rec).msg, a[n..], b);
      }
    }
  }

  lemma AbandonIsMerge(d: Layout, m: Msg, tag: nat)
    requires Shaped(d, m)
    ensures Abandon(d, m, tag) == Merge(m, Abandon(d, Empty(d), tag))
  {
    var l, x := Abandon(d, m, tag), Merge(m, Abandon(d, Empty(d), tag));
    forall k | 0 <= k < |d.fields|
      ensures l.slots[k] == x.slots[k]
    {
      SlotIdentity(d.fields[k], m.slots[k]);
    }
    assert l.slots == x.slots && l.unknown == x.unknown;
  }

  lemma CutIsMerge(d: Layout, m: Msg, tag: nat, kept: Payload, rest: seq<byte>)
    requires Shaped(d, m) && (kept.Bytes? || kept.Group?)
    ensures var e := ParseCut(d, Empty(d), tag, kept, rest);
      ParseCut(d, m, tag, kept, rest) == Parsed(Merge(m, e.msg), e.outcome)
  {
    match Route(d, tag / 8, tag % 8)
    case Known(_) =>
      var r := Rec(tag / 8, Bytes(rest));
      ApplyIsMerge(d, m, r);
      TakenAnywhere(d, m, r);
    case Uninterpreted =>
      MergeIdentity(d, m);
      var l, x := m.(unknown := m.unknown + [Rec(tag / 8, kept)]), Empty(d).(unknown := [Rec(tag / 8, kept)]);
      assert Empty(d).unknown + [Rec(tag / 8, kept)] == x.unknown;
      assert Merge(m, x).slots == Merge(m, Empty(d)).slots;
  }

  /** Parsing into a message that already has content merges in what parsing into an empty
      one gives, however either ends. */
  lemma {:induction false} ParseIsMerge(d: Layout, m: Msg, s: seq<byte>)
    requires Shaped(d, m)
    ensures var e := Parse(d, Empty(d), s);
      Parse(d, m, s) == Parsed(Merge(m, e.msg), e.outcome)
    decreases |s|
  {
    match NextRec(s)
    case Good(rec, n) =>
      ReadIsValid(s);
      ApplyIsMerge(d, m, rec);
      TakenAnywhere(d, m, rec);
      var e := Apply(d, Empty(d), rec);
      if e.ok {
        ParseIsMerge(d, Merge(m, e.msg), s[n..]);
        ParseIsMerge(d, e.msg, s[n..]);
        MergeAssociative(d, m, e.msg, Parse(d, Empty(d), s[n..]).msg);
      }
    case NoValue(tag) => AbandonIsMerge(d, m, tag);
    case CutShort(tag, kept, rest) => CutIsMerge(d, m, tag, kept, rest);
    case _ => MergeIdentity(d, m);
  }

  /** Parsing `a + b` gives the merge of the two separate results. */
  predicate Concatenates(d: Layout, a: seq<byte>, b: seq<byte>)
  {
    var x, y := Parse(d, Empty(d), a), Parse(d, Empty(d), b);
    Parse(d, Empty(d), a + b) == Parsed(Merge(x.msg, y.msg), y.outcome)
  }

  /** Behind an accepted run of whole records, any input is merged in. */
  lemma {:induction false} ConcatenationIsMerge(d: Layout, a: seq<byte>, b: seq<byte>)
    requires Parse(d, Empty(d), a).outcome == Complete && Tokenize(a).stop == End
    ensures Concatenates(d, a, b)
  {
    ParseResumes(d, Empty(d), a, b);
    ParseIsMerge(d, Parse(d, Empty(d), a).msg, b);
  }
}
