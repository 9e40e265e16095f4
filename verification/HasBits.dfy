/** The fields a message object owns, with its word of presence bits, and the value
    they stand for. */
module HasBits {
  import opened Wire
  import opened Records
  import opened Words
  import opened Layouts
  import opened Messages

  /** Everything but the submessages: `scalars[k]` and `ints[k]` belong to field `k`
      and stay at their default when the field is of another kind. */
  datatype Cells = Cells(hasBits: Word, scalars: seq<int>, ints: seq<seq<int>>, unknown: seq<Rec>)

  /** Values fit their types, and an absent field holds its default. */
  predicate CellOk(f: Field, bits: Word, scalar: int, vals: seq<int>)
  {
    match f
    case Single(_, ty, bit) => InRange(ty, scalar) && (bit !in bits ==> scalar == 0) && vals == []
    case Repeated(_, ty) => scalar == 0 && forall i :: 0 <= i < |vals| ==> InRange(ty, vals[i])
    case SubMessages(_, _) => scalar == 0 && vals == []
  }

  /** The bits the layout declares. */
  predicate Declared(d: Layout, bit: nat)
  {
    exists k :: 0 <= k < |d.fields| && d.fields[k].Single? && d.fields[k].bit == bit
  }

  predicate CellAt(d: Layout, c: Cells, k: nat)
    requires k < |c.scalars| == |c.ints| == |d.fields|
  {
    CellOk(d.fields[k], c.hasBits, c.scalars[k], c.ints[k])
  }

  ghost predicate CellsOk(d: Layout, c: Cells)
  {
    && |c.scalars| == |c.ints| == |d.fields|
    && (forall k :: 0 <= k < |d.fields| ==> CellAt(d, c, k))
    && (forall b :: b in c.hasBits ==> Declared(d, b))
    && UnknownOk(d, c.unknown)
  }

  function FreshCells(d: Layout): (c: Cells)
    ensures CellsOk(d, c)
  {
    Cells({}, seq(|d.fields|, _ => 0), seq(|d.fields|, _ => []), [])
  }

  function SlotOf(f: Field, bits: Word, scalar: int, vals: seq<int>, subs: seq<Msg>): (s: Slot)
    ensures HasKind(f, s)
  {
    match f
    case Single(_, _, bit) => Opt(if bit in bits then Present(scalar) else Absent)
    case Repeated(_, _) => Ints(vals)
    case SubMessages(_, _) => Msgs(subs)
  }

  /** The message value an object stands for. */
  function ValueOf(d: Layout, c: Cells, subs: seq<Msg>): (m: Msg)
    requires |c.scalars| == |c.ints| == |d.fields|
    ensures Shaped(d, m)
  {
    Msg(seq(|d.fields|, k requires 0 <= k < |d.fields| =>
          SlotOf(d.fields[k], c.hasBits, c.scalars[k], c.ints[k], subs)),
        c.unknown)
  }

  lemma ValueOfFresh(d: Layout)
    ensures ValueOf(d, FreshCells(d), []) == Empty(d)
  {
    assert ValueOf(d, FreshCells(d), []).slots == Empty(d).slots;
  }

  lemma ValueOfOk(d: Layout, c: Cells, subs: seq<Msg>)
    requires CellsOk(d, c)
    requires forall k :: 0 <= k < |d.fields| && d.fields[k].SubMessages? ==>
               forall i :: 0 <= i < |subs| ==> MsgOk(d.fields[k].sub, subs[i])
    ensures MsgOk(d, ValueOf(d, c, subs))
  {
    var m := ValueOf(d, c, subs);
    forall k | 0 <= k < |d.fields|
      ensures SlotOk(d.fields[k], m.slots[k])
    {
      assert CellAt(d, c, k);
    }
  }

  // -------------------------------------------------------- setting and clearing

  /** `set_x`: the bit goes on and the value is stored. */
  function SetScalar(c: Cells, k: nat, bit: nat, v: int): Cells
    requires k < |c.scalars|
  {
    c.(hasBits := c.hasBits + {bit}, scalars := c.scalars[k := v])
  }

  /** `clear_x`: the value goes back to its default and the bit goes off. */
  function ClearScalar(c: Cells, k: nat, bit: nat): Cells
    requires k < |c.scalars|
  {
    c.(scalars := c.scalars[k := 0], hasBits := c.hasBits - {bit})
  }

  lemma OwnBit(d: Layout, j: nat, k: nat)
    requires Guarded(d) && j < |d.fields| && k < |d.fields| && d.fields[j].Single? && d.fields[k].Single?
    ensures d.fields[j].bit == d.fields[k].bit <==> j == k
  {
    assert j < k ==> BitsApart(d, j, k);
    assert k < j ==> BitsApart(d, k, j);
  }

  /** Setting a field keeps the invariant and makes exactly that field present. */
  lemma SetScalarEffect(d: Layout, c: Cells, subs: seq<Msg>, k: nat, v: int)
    requires Guarded(d) && CellsOk(d, c)
    requires k < |d.fields| && d.fields[k].Single? && InRange(d.fields[k].ty, v)
    ensures var c' := SetScalar(c, k, d.fields[k].bit, v);
      && CellsOk(d, c')
      && ValueOf(d, c', subs)
         == ValueOf(d, c, subs).(slots := ValueOf(d, c, subs).slots[k := Opt(Present(v))])
  {
    var c' := SetScalar(c, k, d.fields[k].bit, v);
    forall j | 0 <= j < |d.fields|
      ensures CellAt(d, c', j)
      ensures j != k ==> ValueOf(d, c', subs).slots[j] == ValueOf(d, c, subs).slots[j]
    {
      assert CellAt(d, c, j);
      if d.fields[j].Single? {
        OwnBit(d, j, k);
      }
    }
    assert Declared(d, d.fields[k].bit);
    assert ValueOf(d, c', subs).slots == ValueOf(d, c, subs).slots[k := Opt(Present(v))];
  }

  /** Clearing a field keeps the invariant and makes exactly that field absent. */
  lemma ClearScalarEffect(d: Layout, c: Cells, subs: seq<Msg>, k: nat)
    requires Guarded(d) && CellsOk(d, c)
    requires k < |d.fields| && d.fields[k].Single?
    ensures var c' := ClearScalar(c, k, d.fields[k].bit);
      && CellsOk(d, c')
      && ValueOf(d, c', subs)
         == ValueOf(d, c, subs).(slots := ValueOf(d, c, subs).slots[k := Opt(Absent)])
  {
    var c' := ClearScalar(c, k, d.fields[k].bit);
    forall j | 0 <= j < |d.fields|
      ensures CellAt(d, c', j)
      ensures j != k ==> ValueOf(d, c', subs).slots[j] == ValueOf(d, c, subs).slots[j]
    {
      assert CellAt(d, c, j);
      if d.fields[j].Single? {
        OwnBit(d, j, k);
      }
    }
    assert ValueOf(d, c', subs).slots == ValueOf(d, c, subs).slots[k := Opt(Absent)];
  }

  /** Replacing a list of repeated integers changes that slot alone. */
  lemma SetIntsEffect(d: Layout, c: Cells, subs: seq<Msg>, k: nat, vals: seq<int>)
    requires CellsOk(d, c) && k < |d.fields| && d.fields[k].Repeated?
    requires forall i :: 0 <= i < |vals| ==> InRange(d.fields[k].ty, vals[i])
    ensures var c' := c.(ints := c.ints[k := vals]);
      && CellsOk(d, c')
      && ValueOf(d, c', subs)
         == ValueOf(d, c, subs).(slots := ValueOf(d, c, subs).slots[k := Ints(vals)])
  {
    var c' := c.(ints := c.ints[k := vals]);
    forall j | 0 <= j < |d.fields|
      ensures CellAt(d, c', j)
    {
      assert CellAt(d, c, j);
    }
    assert ValueOf(d, c', subs).slots == ValueOf(d, c, subs).slots[k := Ints(vals)];
  }

  /** Replacing the submessages changes the list's slot alone. */
  lemma SetSubsEffect(d: Layout, c: Cells, subs: seq<Msg>, k: nat, more: seq<Msg>)
    requires OneList(d) && |c.scalars| == |c.ints| == |d.fields|
    requires k < |d.fields| && d.fields[k].SubMessages?
    ensures ValueOf(d, c, more)
         == ValueOf(d, c, subs).(slots := ValueOf(d, c, subs).slots[k := Msgs(more)])
  {
    forall j | 0 <= j < |d.fields| && j != k
      ensures !d.fields[j].SubMessages?
    {
      assert j < k ==> ListsApart(d, j, k);
      assert k < j ==> ListsApart(d, k, j);
    }
    assert ValueOf(d, c, more).slots == ValueOf(d, c, subs).slots[k := Msgs(more)];
  }

  // ------------------------------------------------------------- group guards

  /** A guard that tests zero has only absent members: skipping it skips nothing. */
  lemma GuardSound(d: Layout, c: Cells, g: nat, k: nat)
    requires Guarded(d) && CellsOk(d, c) && g < |d.guards| && k in d.guards[g].members
    requires !Touches(c.hasBits, d.guards[g].shift)
    ensures k < |d.fields| && d.fields[k].Single? && d.fields[k].bit !in c.hasBits && c.scalars[k] == 0
  {
    assert GuardAt(d, g);
    TouchesIff(c.hasBits, d.guards[g].shift);
    assert CellAt(d, c, k);
  }

  /** The scalars that may still be non-default are pending: in a group to come. */
  ghost predicate PendingOnly(d: Layout, scalars: seq<int>, g: nat)
    requires g <= |d.guards|
  {
    forall k :: 0 <= k < |scalars| && scalars[k] != 0 ==> k in Members(d.guards, g)
  }

  lemma AllPending(d: Layout, c: Cells)
    requires Guarded(d) && CellsOk(d, c)
    ensures PendingOnly(d, c.scalars, 0)
  {
    forall k | 0 <= k < |c.scalars| && c.scalars[k] != 0
      ensures k in Members(d.guards, 0)
    {
      assert CellAt(d, c, k);
      GuardsCoverAll(d, k);
    }
  }

  /** A group that is skipped has nothing to reset. */
  lemma SkipPending(d: Layout, c: Cells, scalars: seq<int>, g: nat)
    requires Guarded(d) && CellsOk(d, c) && g < |d.guards|
    requires |scalars| == |c.scalars| && PendingOnly(d, scalars, g)
    requires forall k :: 0 <= k < |scalars| ==> scalars[k] == 0 || scalars[k] == c.scalars[k]
    requires !Touches(c.hasBits, d.guards[g].shift)
    ensures PendingOnly(d, scalars, g + 1)
  {
    forall k | 0 <= k < |scalars| && scalars[k] != 0
      ensures k in Members(d.guards, g + 1)
    {
      if k in d.guards[g].members {
        GuardSound(d, c, g, k);
      }
    }
  }

  /** Field `k` of `now` has the merged value, or is pending and still as in `was`. */
  ghost predicate MergedOrPending(d: Layout, was: Msg, from: Msg, now: Msg, pending: seq<nat>)
    requires Shaped(d, was) && Shaped(d, from) && Shaped(d, now)
  {
    forall k :: 0 <= k < |d.fields| && d.fields[k].Single? ==>
      || now.slots[k] == MergeSlot(was.slots[k], from.slots[k])
      || (now.slots[k] == was.slots[k] && k in pending)
  }

  lemma AllUnmerged(d: Layout, was: Msg, from: Msg)
    requires Guarded(d) && Shaped(d, was) && Shaped(d, from)
    ensures MergedOrPending(d, was, from, was, Members(d.guards, 0))
  {
    forall k | 0 <= k < |d.fields| && d.fields[k].Single?
      ensures k in Members(d.guards, 0)
    {
      GuardsCoverAll(d, k);
    }
  }

  /** A group that is skipped has nothing to merge. */
  lemma SkipUnmerged(d: Layout, was: Msg, c: Cells, subs: seq<Msg>, now: Msg, g: nat)
    requires Guarded(d) && CellsOk(d, c) && Shaped(d, was) && Shaped(d, now) && g < |d.guards|
    requires MergedOrPending(d, was, ValueOf(d, c, subs), now, Members(d.guards, g))
    requires !Touches(c.hasBits, d.guards[g].shift)
    ensures MergedOrPending(d, was, ValueOf(d, c, subs), now, Members(d.guards, g + 1))
  {
    var from := ValueOf(d, c, subs);
    forall k | 0 <= k < |d.fields| && d.fields[k].Single?
      ensures now.slots[k] == MergeSlot(was.slots[k], from.slots[k])
           || (now.slots[k] == was.slots[k] && k in Members(d.guards, g + 1))
    {
      if k in d.guards[g].members {
        GuardSound(d, c, g, k);
        assert HasKind(d.fields[k], was.slots[k]);
      }
    }
  }

  /** `from`'s field overwrites when it is present, and nothing else changes. */
  lemma MergeStep(d: Layout, was: Msg, fc: Cells, fv: seq<Msg>, c: Cells, sv: seq<Msg>, pending: seq<nat>)
    requires Guarded(d) && CellsOk(d, fc) && CellsOk(d, c) && Shaped(d, was)
    requires pending != [] && pending[0] < |d.fields| && d.fields[pending[0]].Single?
    requires MergedOrPending(d, was, ValueOf(d, fc, fv), ValueOf(d, c, sv), pending)
    ensures var k := pending[0];
      var c' := if d.fields[k].bit in fc.hasBits then SetScalar(c, k, d.fields[k].bit, fc.scalars[k]) else c;
      && CellsOk(d, c')
      && MergedOrPending(d, was, ValueOf(d, fc, fv), ValueOf(d, c', sv), pending[1..])
  {
    var k := pending[0];
    assert CellAt(d, fc, k);
    assert HasKind(d.fields[k], was.slots[k]);
    SetScalarEffect(d, c, sv, k, fc.scalars[k]);
    forall j | 0 <= j < |d.fields| && j != k && j in pending
      ensures j in pending[1..]
    {
    }
  }

  lemma AppendInts(d: Layout, c: Cells, k: nat, vals: seq<int>)
    requires CellsOk(d, c) && k < |d.fields| && d.fields[k].Repeated?
    requires forall i :: 0 <= i < |vals| ==> InRange(d.fields[k].ty, vals[i])
    ensures CellsOk(d, c.(ints := c.ints[k := c.ints[k] + vals]))
  {
    assert CellAt(d, c, k);
    SetIntsEffect(d, c, [], k, c.ints[k] + vals);
  }

  lemma IntsAside(d: Layout, c: Cells, mid: Cells, sv: seq<Msg>, other: Msg, now: Msg)
    requires |c.scalars| == |c.ints| == |d.fields| == |mid.ints|
    requires mid == c.(ints := mid.ints) && Shaped(d, other) && Shaped(d, now)
    requires MergedOrPending(d, ValueOf(d, mid, sv), other, now, [])
    ensures MergedOrPending(d, ValueOf(d, c, sv), other, now, [])
  {
  }

  lemma AppendUnknown(d: Layout, c: Cells, rs: seq<Rec>)
    requires CellsOk(d, c) && UnknownOk(d, rs)
    ensures CellsOk(d, c.(unknown := c.unknown + rs))
  {
    var c' := c.(unknown := c.unknown + rs);
    forall k | 0 <= k < |d.fields|
      ensures CellAt(d, c', k)
    {
      assert CellAt(d, c, k);
    }
  }

  /** Merging the own fields piece by piece merges the values. */
  lemma MergedCells(d: Layout, c: Cells, sv: seq<Msg>, fc: Cells, fv: seq<Msg>, c': Cells)
    requires CellsOk(d, c) && CellsOk(d, fc) && |c'.scalars| == |c'.ints| == |d.fields|
    requires forall k :: 0 <= k < |d.fields| ==> c'.ints[k] == c.ints[k] + fc.ints[k]
    requires MergedOrPending(d, ValueOf(d, c, sv), ValueOf(d, fc, fv), ValueOf(d, c', sv), [])
    requires c'.unknown == c.unknown + fc.unknown
    ensures ValueOf(d, c', sv + fv) == Merge(ValueOf(d, c, sv), ValueOf(d, fc, fv))
  {
    var m := Merge(ValueOf(d, c, sv), ValueOf(d, fc, fv));
    forall k | 0 <= k < |d.fields|
      ensures ValueOf(d, c', sv + fv).slots[k] == m.slots[k]
    {
      assert d.fields[k].Single? ==> ValueOf(d, c', sv).slots[k] == m.slots[k];
    }
    assert ValueOf(d, c', sv + fv).slots == m.slots;
  }

  lemma {:induction false} SinglesHas(fields: seq<Field>, n: nat, k: nat)
    requires n <= |fields|
    ensures k in Singles(fields, n) <==> k < n && fields[k].Single?
  {
    if n > 0 {
      SinglesHas(fields, n - 1, k);
    }
  }

  /** The guards miss no optional field and name nothing else. */
  lemma GuardsCoverAll(d: Layout, k: nat)
    requires Guarded(d)
    ensures k in Members(d.guards, 0) <==> k < |d.fields| && d.fields[k].Single?
  {
    SinglesHas(d.fields, |d.fields|, k);
  }

  // ------------------------------------------ the value determines the fields

  /** Under the invariant an object has no hidden state: two objects with the same
      value have the same bits and the same fields, absent ones included. */
  lemma ValueDeterminesCells(d: Layout, a: Cells, b: Cells, x: seq<Msg>, y: seq<Msg>)
    requires CellsOk(d, a) && CellsOk(d, b)
    requires ValueOf(d, a, x) == ValueOf(d, b, y)
    ensures a == b
  {
    var n := |d.fields|;
    forall k | 0 <= k < n
      ensures d.fields[k].Single? ==> (d.fields[k].bit in a.hasBits <==> d.fields[k].bit in b.hasBits)
      ensures a.scalars[k] == b.scalars[k] && a.ints[k] == b.ints[k]
    {
      assert ValueOf(d, a, x).slots[k] == ValueOf(d, b, y).slots[k];
      assert CellAt(d, a, k);
      assert CellAt(d, b, k);
    }
    assert a.hasBits == b.hasBits;
    assert a.scalars == b.scalars;
    assert a.ints == b.ints;
  }
}
