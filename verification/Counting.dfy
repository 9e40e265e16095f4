/** ByteSize visits the optional fields group by group and the lists after them; its
    sums are those of the fields in declaration order. */
module Counting {
  import opened Wire
  import opened Words
  import opened Layouts
  import opened Messages
  import opened HasBits

  predicate AreSingles(fields: seq<Field>, ks: seq<nat>)
  {
    forall i :: 0 <= i < |ks| ==> ks[i] < |fields| && fields[ks[i]].Single?
  }

  /** What the optional fields `ks` add to the size of `m`. */
  ghost function MembersSize(d: Layout, m: Msg, ks: seq<nat>): nat
    requires MsgOk(d, m) && AreSingles(d.fields, ks)
  {
    if ks == [] then 0
    else
      assert SlotOk(d.fields[ks[0]], m.slots[ks[0]]);
      SlotSize(d.fields[ks[0]], m.slots[ks[0]]) + MembersSize(d, m, ks[1..])
  }

  lemma {:induction false} MembersSizeAppend(d: Layout, m: Msg, a: seq<nat>, b: seq<nat>)
    requires MsgOk(d, m) && AreSingles(d.fields, a) && AreSingles(d.fields, b)
    ensures AreSingles(d.fields, a + b)
    ensures MembersSize(d, m, a + b) == MembersSize(d, m, a) + MembersSize(d, m, b)
    decreases |a|
  {
    if a == [] {
      assert a + b == b;
    } else {
      MembersSizeAppend(d, m, a[1..], b);
      assert (a + b)[1..] == a[1..] + b;
    }
  }

  lemma {:induction false} MembersAreSingles(d: Layout, g: nat)
    requires Guarded(d) && g <= |d.guards|
    ensures AreSingles(d.fields, Members(d.guards, g))
    decreases |d.guards| - g
  {
    if g < |d.guards| {
      assert GuardAt(d, g);
      MembersAreSingles(d, g + 1);
    }
  }

  /** What the object's own fields say a single optional field adds: its one-byte tag
      and its value, if its bit is on. */
  lemma SingleSize(d: Layout, c: Cells, subs: seq<Msg>, m: Msg, k: nat)
    requires CellsOk(d, c) && m == ValueOf(d, c, subs) && k < |d.fields| && d.fields[k].Single?
    ensures InRange(d.fields[k].ty, c.scalars[k]) && SlotOk(d.fields[k], m.slots[k])
    ensures SlotSize(d.fields[k], m.slots[k])
         == if d.fields[k].bit in c.hasBits then 1 + IntSize(d.fields[k].ty, c.scalars[k]) else 0
  {
    assert CellAt(d, c, k);
  }

  /** A group whose guard tests zero would have added nothing. */
  lemma SkippedGroupSize(d: Layout, c: Cells, subs: seq<Msg>, m: Msg, g: nat)
    requires Guarded(d) && CellsOk(d, c) && m == ValueOf(d, c, subs) && MsgOk(d, m)
    requires g < |d.guards| && !Touches(c.hasBits, d.guards[g].shift)
    ensures AreSingles(d.fields, d.guards[g].members)
    ensures MembersSize(d, m, d.guards[g].members) == 0
  {
    assert GuardAt(d, g);
    forall i | 0 <= i < |d.guards[g].members|
      ensures m.slots[d.guards[g].members[i]] == Opt(Absent)
    {
      GuardSound(d, c, g, d.guards[g].members[i]);
    }
    AllAbsent(d, m, d.guards[g].members);
  }

  lemma {:induction false} AllAbsent(d: Layout, m: Msg, ks: seq<nat>)
    requires MsgOk(d, m) && AreSingles(d.fields, ks)
    requires forall i :: 0 <= i < |ks| ==> m.slots[ks[i]] == Opt(Absent)
    ensures MembersSize(d, m, ks) == 0
  {
    if ks != [] {
      AllAbsent(d, m, ks[1..]);
    }
  }

  /** What the lists among the first `n` fields add. */
  ghost function ListsSize(d: Layout, m: Msg, n: nat): nat
    requires MsgOk(d, m) && n <= |d.fields|
  {
    if n == 0 then 0
    else
      assert SlotOk(d.fields[n - 1], m.slots[n - 1]);
      ListsSize(d, m, n - 1) + if d.fields[n - 1].Single? then 0 else SlotSize(d.fields[n - 1], m.slots[n - 1])
  }

  lemma MembersSizeOne(d: Layout, m: Msg, k: nat)
    requires MsgOk(d, m) && k < |d.fields| && d.fields[k].Single?
    ensures SlotOk(d.fields[k], m.slots[k])
    ensures AreSingles(d.fields, [k]) && MembersSize(d, m, [k]) == SlotSize(d.fields[k], m.slots[k])
  {
    assert [k][1..] == [];
  }

  /** Groups first and lists after is the same total as field by field. */
  lemma {:induction false} SizeByGroups(d: Layout, m: Msg, n: nat)
    requires MsgOk(d, m) && n <= |d.fields|
    ensures AreSingles(d.fields, Singles(d.fields, n))
    ensures FieldsSize(d, m, n) == MembersSize(d, m, Singles(d.fields, n)) + ListsSize(d, m, n)
  {
    if n > 0 {
      SizeByGroups(d, m, n - 1);
      if d.fields[n - 1].Single? {
        MembersSizeOne(d, m, n - 1);
        MembersSizeAppend(d, m, Singles(d.fields, n - 1), [n - 1]);
      }
    }
  }

  lemma IntsSizeSnoc(ty: IntType, vals: seq<int>, i: nat)
    requires i < |vals| && forall j :: 0 <= j < |vals| ==> InRange(ty, vals[j])
    ensures IntsSize(ty, vals[..i + 1]) == IntsSize(ty, vals[..i]) + IntSize(ty, vals[i])
  {
    assert vals[..i + 1][..i] == vals[..i];
  }

  lemma CountedSizeSnoc(d: Layout, msgs: seq<Msg>, i: nat)
    requires i < |msgs| && forall j :: 0 <= j < |msgs| ==> MsgOk(d, msgs[j])
    ensures MsgsSize(d, msgs[..i + 1])
         == MsgsSize(d, msgs[..i]) + VarintSize32(Size(d, msgs[i])) + Size(d, msgs[i])
  {
    assert msgs[..i + 1][..i] == msgs[..i];
  }
}
