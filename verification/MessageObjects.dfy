/** The generated message class: an object with its fields, its presence bits, its
    unknown-field set, its submessages and its cached size, updated in place. */
module MessageObjects {
  import opened Wire
  import opened Records
  import opened Words
  import opened Layouts
  import opened Messages
  import opened Merging
  import opened HasBits
  import opened Counting
  import opened RoundTrip
  import opened Writing
  import opened Streams
  import opened Stepping

  /** `sub` is the class of the layout's submessages. */
  predicate IsElement(d: Layout, sub: Layout)
  {
    forall k :: 0 <= k < |d.fields| && d.fields[k].SubMessages? ==> d.fields[k].sub == sub
  }

  lemma ElementClass(d: Layout, k: nat)
    requires OneList(d) && k < |d.fields| && d.fields[k].SubMessages?
    ensures IsElement(d, d.fields[k].sub) && HasList(d)
  {
    forall j | 0 <= j < |d.fields| && j != k
      ensures !d.fields[j].SubMessages?
    {
      assert j < k ==> ListsApart(d, j, k);
      assert k < j ==> ListsApart(d, k, j);
    }
  }

  /** The submessages `ms` of an object of class `d` are valid objects of the right
      class, and each has a part of the footprint `R` to itself. */
  ghost predicate Elements(d: Layout, ms: seq<Message>, R: set<Message>)
    reads R`Repr, R`hasBits, R`scalars, R`ints, R`subs, R`unknown
    decreases R, 2, |ms|
  {
    ms != [] ==>
      var e := ms[|ms| - 1];
      && HasList(d) && IsElement(d, e.layout)
      && e in R && e.Repr <= R && e.Valid()
      && Elements(d, ms[..|ms| - 1], R - e.Repr)
  }

  ghost function Values(d: Layout, ms: seq<Message>, R: set<Message>): (s: seq<Msg>)
    requires Elements(d, ms, R)
    reads R`Repr, R`hasBits, R`scalars, R`ints, R`subs, R`unknown
    ensures |s| == |ms|
    decreases R, 2, |ms|
  {
    if ms == [] then []
    else
      var e := ms[|ms| - 1];
      Values(d, ms[..|ms| - 1], R - e.Repr) + [e.Value()]
  }

  lemma ElementIsSmaller(d: Layout, sub: Layout)
    requires HasList(d) && IsElement(d, sub)
    ensures sub < d
    ensures Guarded(d) ==> Guarded(sub)
    ensures OneList(d) ==> OneList(sub)
    ensures Numbered(d) ==> Numbered(sub)
  {
    var k :| 0 <= k < |d.fields| && d.fields[k].SubMessages?;
    assert d.fields[k].sub == sub;
    assert Guarded(d) ==> HasBitAt(d, k);
    assert OneList(d) ==> ListAt(d, k);
    assert Numbered(d) ==> NumberAt(d, k);
  }

  lemma {:induction false} ElementAt(d: Layout, ms: seq<Message>, R: set<Message>, i: nat)
    requires Elements(d, ms, R) && i < |ms|
    ensures ms[i] in R && ms[i].Repr <= R && ms[i].Valid()
    ensures HasList(d) && IsElement(d, ms[i].layout)
    ensures Values(d, ms, R)[i] == ms[i].Value()
    decreases |ms|
  {
    var e := ms[|ms| - 1];
    if i < |ms| - 1 {
      ElementAt(d, ms[..|ms| - 1], R - e.Repr, i);
    }
  }

  lemma {:induction false} ElementsApart(d: Layout, ms: seq<Message>, R: set<Message>, i: nat, j: nat)
    requires Elements(d, ms, R) && i < j < |ms|
    ensures ms[i].Repr !! ms[j].Repr
    decreases |ms|
  {
    var e := ms[|ms| - 1];
    if j < |ms| - 1 {
      ElementsApart(d, ms[..|ms| - 1], R - e.Repr, i, j);
    } else {
      ElementAt(d, ms[..|ms| - 1], R - e.Repr, i);
    }
  }

  lemma ElementsSnoc(d: Layout, ms: seq<Message>, R: set<Message>, e: Message)
    requires Elements(d, ms, R) && e.Valid() && e.Repr !! R && IsElement(d, e.layout) && HasList(d)
    ensures Elements(d, ms + [e], R + e.Repr)
    ensures Values(d, ms + [e], R + e.Repr) == Values(d, ms, R) + [e.Value()]
  {
    assert (R + e.Repr) - e.Repr == R;
    assert (ms + [e])[..|ms|] == ms;
  }

  lemma {:induction false} ElementsGrow(d: Layout, ms: seq<Message>, R: set<Message>, S: set<Message>)
    requires Elements(d, ms, R) && R <= S
    ensures Elements(d, ms, S) && Values(d, ms, S) == Values(d, ms, R)
    decreases |ms|
  {
    if ms != [] {
      var e := ms[|ms| - 1];
      ElementsGrow(d, ms[..|ms| - 1], R - e.Repr, S - e.Repr);
    }
  }

  /** Two lists with disjoint footprints make one list. */
  lemma {:induction false} ElementsAppend(d: Layout, ms: seq<Message>, R: set<Message>,
                                          es: seq<Message>, F: set<Message>)
    requires Elements(d, ms, R) && Elements(d, es, F) && R !! F
    ensures Elements(d, ms + es, R + F)
    ensures Values(d, ms + es, R + F) == Values(d, ms, R) + Values(d, es, F)
    decreases |es|
  {
    if es == [] {
      assert ms + es == ms;
      ElementsGrow(d, ms, R, R + F);
    } else {
      var e, init := es[|es| - 1], es[..|es| - 1];
      ElementsAppend(d, ms, R, init, F - e.Repr);
      assert (R + F) - e.Repr == R + (F - e.Repr);
      assert (ms + es)[..|ms + es| - 1] == ms + init;
    }
  }

  /** A valid object stands for a well-formed message. */
  lemma {:induction false} ValueIsOk(m: Message)
    requires m.Valid()
    ensures MsgOk(m.layout, m.Value())
    decreases m.Repr, 1
  {
    var d, vs := m.layout, Values(m.layout, m.subs, m.Below());
    forall k | 0 <= k < |d.fields| && d.fields[k].SubMessages?
      ensures forall i :: 0 <= i < |vs| ==> MsgOk(d.fields[k].sub, vs[i])
    {
      ElementsAreOk(d, k, m.subs, m.Below());
    }
    ValueOfOk(d, m.Own(), vs);
  }

  lemma {:induction false} ElementsAreOk(d: Layout, k: nat, ms: seq<Message>, R: set<Message>)
    requires Elements(d, ms, R) && k < |d.fields| && d.fields[k].SubMessages?
    ensures forall i :: 0 <= i < |ms| ==> MsgOk(d.fields[k].sub, Values(d, ms, R)[i])
    decreases R, 2, |ms|
  {
    if ms != [] {
      var e := ms[|ms| - 1];
      ElementsAreOk(d, k, ms[..|ms| - 1], R - e.Repr);
      ValueIsOk(e);
    }
  }

  // ------------------------------------------------------------ cached sizes

  /** The first `n` objects of the list have their exact sizes cached, nested ones
      included. */
  ghost predicate AllCached(ms: seq<Message>, R: set<Message>, n: nat)
    requires n <= |ms|
    reads R`Repr, R`hasBits, R`scalars, R`ints, R`subs, R`unknown, R`cachedSize
    decreases R, 2
  {
    forall i {:trigger ms[i].Cached()} :: 0 <= i < n ==>
      ms[i] in R && ms[i].Repr <= R && ms[i].Valid() && ms[i].Cached()
  }

  /** A parse has ended as `r` says: with this value, with `ok` unless it failed, and at
      the limit of the input exactly when it is complete. */
  ghost predicate EndsWith(r: Parsed, value: Msg, input: CodedInputStream, ok: bool)
    requires input.Valid()
    reads input
  {
    && value == r.msg
    && (ok <==> r.outcome != Failed)
    && (ok && input.legitimateEnd <==> r.outcome == Complete)
    && (r.outcome == Complete ==> input.Rest() == [])
  }

  /** A submessage with value `m` was filled from the length-delimited stretch at the head
      of `s`, up to value `v`; only a stretch parsed to its end counts. */
  ghost predicate Filled(d: Layout, m: Msg, s: seq<byte>, v: Msg, input: CodedInputStream, ok: bool)
    requires Shaped(d, m) && input.Valid()
    reads input
  {
    var r := Delimited(s);
    if r.NoLength? then !ok && v == m
    else
      && v == Parse(d, m, r.data).msg
      && (ok <==> Parse(d, m, r.data).outcome == Complete)
      && (ok ==> input.Rest() == r.after)
  }

  /** List `k` of a message with value `m` got the values of the packed block at the head
      of `s`, and the message has value `v`. */
  ghost predicate Unpacked(ty: IntType, m: Msg, k: nat, was: seq<int>, s: seq<byte>, v: Msg,
                           input: CodedInputStream, ok: bool)
    requires k < |m.slots| && input.Valid()
    reads input
  {
    var r := Delimited(s);
    if r.NoLength? then !ok && v == m
    else
      && v == m.(slots := m.slots[k := Ints(was + ReadPacked(ty, r.data).vals)])
      && ok == ReadPacked(ty, r.data).ok
      && (ok ==> input.Rest() == r.after)
  }

  class Message {
    const layout: Layout
    var hasBits: Word
    var scalars: seq<int>
    var ints: seq<seq<int>>
    var subs: seq<Message>
    var unknown: seq<Rec>
    var cachedSize: nat
    ghost var Repr: set<Message>

    /** The object's own fields, submessages aside. */
    ghost function Own(): Cells
      reads this`hasBits, this`scalars, this`ints, this`unknown
    {
      Cells(hasBits, scalars, ints, unknown)
    }

    /** The part of the footprint that belongs to the submessages. */
    ghost function Below(): set<Message>
      reads this`Repr
    {
      Repr - {this}
    }

    /** The class invariant: the has-bit invariant on the object's own fields, and
        submessages owned by this object alone. */
    ghost predicate Valid()
      reads this`hasBits, this`scalars, this`ints, this`unknown, this`Repr, this`subs,
            Below()`Repr, Below()`hasBits, Below()`scalars, Below()`ints, Below()`subs, Below()`unknown
      decreases Repr, 1
    {
      && this in Repr
      && CellsOk(layout, Own())
      && Elements(layout, subs, Below())
    }

    ghost function SubValues(): (s: seq<Msg>)
      requires Elements(layout, subs, Below())
      reads this`Repr, this`subs,
            Below()`Repr, Below()`hasBits, Below()`scalars, Below()`ints, Below()`subs, Below()`unknown
      decreases Repr, 3
    {
      Values(layout, subs, Below())
    }

    /** The message value this object stands for. */
    ghost function Value(): (m: Msg)
      requires Valid()
      reads this`hasBits, this`scalars, this`ints, this`unknown, this`Repr, this`subs,
            Below()`Repr, Below()`hasBits, Below()`scalars, Below()`ints, Below()`subs, Below()`unknown
      ensures Shaped(layout, m)
      decreases Repr, 1
    {
      ValueOf(layout, Own(), Values(layout, subs, Below()))
    }

    constructor (d: Layout)
      ensures Valid() && fresh(Repr) && Repr == {this}
      ensures layout == d && Own() == FreshCells(d) && subs == [] && cachedSize == 0
      ensures hasBits == {} && unknown == []
      ensures forall k :: 0 <= k < |scalars| ==> scalars[k] == 0
      ensures Value() == Empty(d)
    {
      layout := d;
      hasBits := {};
      scalars := seq(|d.fields|, _ => 0);
      ints := seq(|d.fields|, _ => []);
      subs := [];
      unknown := [];
      cachedSize := 0;
      Repr := {this};
      new;
      ValueOfFresh(d);
    }

    // -------------------------------------------------------------- accessors

    /** has_x and x: an absent field reads as 0. */
    method GetScalarField(k: nat) returns (has: bool, v: int)
      requires Valid() && k < |layout.fields| && layout.fields[k].Single?
      ensures Value().slots[k] == Opt(if has then Present(v) else Absent)
      ensures !has ==> v == 0
    {
      assert CellAt(layout, Own(), k);
      has, v := layout.fields[k].bit in hasBits, scalars[k];
    }

    /** x_size and x(i) of a repeated integer field. */
    method GetInts(k: nat) returns (vals: seq<int>)
      requires Valid() && k < |layout.fields| && layout.fields[k].Repeated?
      ensures Value().slots[k] == Ints(vals)
    {
      assert CellAt(layout, Own(), k);
      vals := ints[k];
    }

    method SetScalarField(k: nat, v: int)
      requires Guarded(layout) && Valid() && k < |layout.fields| && layout.fields[k].Single?
      requires InRange(layout.fields[k].ty, v)
      modifies this`hasBits, this`scalars
      ensures Valid()
      ensures Own() == SetScalar(old(Own()), k, layout.fields[k].bit, v)
      ensures hasBits == old(hasBits) + {layout.fields[k].bit} && scalars == old(scalars)[k := v]
      ensures Value() == old(Value()).(slots := old(Value()).slots[k := Opt(Present(v))])
    {
      ghost var c, sv := Own(), SubValues();
      hasBits := hasBits + {layout.fields[k].bit};
      scalars := scalars[k := v];
      SetScalarEffect(layout, c, sv, k, v);
      assert Own() == SetScalar(c, k, layout.fields[k].bit, v);
    }

    method ClearScalarField(k: nat)
      requires Guarded(layout) && Valid() && k < |layout.fields| && layout.fields[k].Single?
      modifies this`hasBits, this`scalars
      ensures Valid()
      ensures Own() == ClearScalar(old(Own()), k, layout.fields[k].bit)
      ensures hasBits == old(hasBits) - {layout.fields[k].bit} && scalars == old(scalars)[k := 0]
      ensures Value() == old(Value()).(slots := old(Value()).slots[k := Opt(Absent)])
    {
      ghost var c, sv := Own(), SubValues();
      scalars := scalars[k := 0];
      hasBits := hasBits - {layout.fields[k].bit};
      ClearScalarEffect(layout, c, sv, k);
      assert Own() == ClearScalar(c, k, layout.fields[k].bit);
    }

    /** Replaces the list of a repeated integer field. */
    method SetInts(k: nat, vals: seq<int>)
      requires Valid() && k < |layout.fields| && layout.fields[k].Repeated?
      requires forall i :: 0 <= i < |vals| ==> InRange(layout.fields[k].ty, vals[i])
      modifies this`ints
      ensures Valid()
      ensures Own() == old(Own()).(ints := old(ints)[k := vals])
      ensures Value() == old(Value()).(slots := old(Value()).slots[k := Ints(vals)])
    {
      ghost var c, sv := Own(), SubValues();
      ints := ints[k := vals];
      SetIntsEffect(layout, c, sv, k, vals);
      assert Own() == c.(ints := c.ints[k := vals]);
    }

    /** clear_x of a repeated integer field. */
    method ClearInts(k: nat)
      requires Valid() && k < |layout.fields| && layout.fields[k].Repeated?
      modifies this`ints
      ensures Valid() && ints == old(ints)[k := []]
      ensures Value() == old(Value()).(slots := old(Value()).slots[k := Ints([])])
    {
      SetInts(k, []);
    }

    /** set_x(i, v): one element of the list. */
    method SetInt(k: nat, i: nat, v: int)
      requires Valid() && k < |layout.fields| && layout.fields[k].Repeated? && InRange(layout.fields[k].ty, v)
      requires |ints| == |layout.fields| && i < |ints[k]|
      modifies this`ints
      ensures Valid() && ints == old(ints)[k := old(ints)[k][i := v]]
      ensures Value() == old(Value()).(slots := old(Value()).slots[k := Ints(old(ints)[k][i := v])])
    {
      assert CellAt(layout, Own(), k);
      SetInts(k, ints[k][i := v]);
    }

    /** add_x(v): one element more. */
    method AddInt(k: nat, v: int)
      requires Valid() && k < |layout.fields| && layout.fields[k].Repeated? && InRange(layout.fields[k].ty, v)
      modifies this`ints
      ensures Valid()
      ensures Own() == old(Own()).(ints := old(ints)[k := old(ints)[k] + [v]])
      ensures Value() == old(Value()).(slots := old(Value()).slots[k := Ints(old(ints)[k] + [v])])
    {
      assert CellAt(layout, Own(), k);
      SetInts(k, ints[k] + [v]);
    }

    /** Hands elements with a footprint of their own to the list. */
    method AddElements(es: seq<Message>, ghost F: set<Message>)
      requires this in Repr && Elements(layout, subs, Below()) && Elements(layout, es, F) && F !! Repr
      modifies this`subs, this`Repr
      ensures this in Repr && Elements(layout, subs, Below())
      ensures Repr == old(Repr) + F && subs == old(subs) + es
      ensures SubValues() == old(SubValues() + Values(layout, es, F))
    {
      ghost var R := Below() + F;
      ElementsAppend(layout, subs, Below(), es, F);
      subs := subs + es;
      Repr := Repr + F;
      assert Below() == R;
    }

    /** The object takes in the footprint of its last element. */
    ghost method OwnLast(k: nat, was: seq<Message>, R: set<Message>, e: Message, vs: seq<Msg>)
      requires OneList(layout) && k < |layout.fields| && layout.fields[k].SubMessages?
      requires this in Repr && CellsOk(layout, Own()) && R == Below()
      requires subs == was + [e] && Repr !! e.Repr
      requires Elements(layout, was, R) && Values(layout, was, R) == vs
      requires e.Valid() && e.layout == layout.fields[k].sub
      modifies this`Repr
      ensures Valid() && Repr == old(Repr) + e.Repr
      ensures var m := ValueOf(layout, Own(), vs);
        Value() == m.(slots := m.slots[k := Msgs(vs + [old(e.Value())])])
    {
      Repr := Repr + e.Repr;
      assert Below() == R + e.Repr;
      LastWritten(k, was, R, e, vs);
    }

    /** add_x: a new empty element at the end of the list, returned to be written to. */
    method AddSub(k: nat) returns (e: Message)
      requires Valid() && OneList(layout) && k < |layout.fields| && layout.fields[k].SubMessages?
      modifies this`subs, this`Repr
      ensures Valid() && subs == old(subs) + [e] && Repr == old(Repr) + {e}
      ensures fresh(e) && e.Repr == {e} && e.layout == layout.fields[k].sub
      ensures e.Valid() && e.Value() == Empty(e.layout)
      ensures Value() == old(Value()).(slots := old(Value()).slots[k := Msgs(old(SubValues()) + [e.Value()])])
      ensures old(Value()).slots[k] == Msgs(old(SubValues()))
    {
      ghost var was, R, vs := subs, Below(), SubValues();
      e := new Message(layout.fields[k].sub);
      subs := subs + [e];
      OwnLast(k, was, R, e, vs);
    }

    /** After writing through the pointer `e` that add_x returned: with the elements before
        it as they were, the object is valid and holds what `e` now holds. */
    lemma LastWritten(k: nat, was: seq<Message>, R: set<Message>, e: Message, vs: seq<Msg>)
      requires OneList(layout) && k < |layout.fields| && layout.fields[k].SubMessages?
      requires this in Repr && CellsOk(layout, Own()) && subs == was + [e] && e.layout == layout.fields[k].sub
      requires Below() == R + e.Repr && R !! e.Repr
      requires Elements(layout, was, R) && Values(layout, was, R) == vs && e.Valid()
      ensures Valid() && SubValues() == vs + [e.Value()]
      ensures var m := ValueOf(layout, Own(), vs);
        Value() == m.(slots := m.slots[k := Msgs(vs + [e.Value()])])
    {
      ElementClass(layout, k);
      ElementsSnoc(layout, was, R, e);
      SetSubsEffect(layout, Own(), vs, k, vs + [e.Value()]);
    }

    // ------------------------------------------------------------------ clear

    method Clear()
      requires Guarded(layout) && Valid()
      modifies this`hasBits, this`scalars, this`ints, this`unknown, this`subs, this`Repr
      ensures Valid() && Repr == {this}
      ensures Own() == FreshCells(layout) && subs == []
      ensures Value() == Empty(layout)
    {
      forall j | 0 <= j < |layout.fields| && !layout.fields[j].Repeated?
        ensures ints[j] == []
      {
        assert CellAt(layout, Own(), j);
      }
      ClearGuarded();
      var n := |layout.fields|;
      for k := 0 to n
        modifies this`ints, this`subs
        invariant |ints| == n
        invariant forall j :: 0 <= j < n && (j < k || !layout.fields[j].Repeated?) ==> ints[j] == []
        invariant subs == [] || (subs == old(subs) && forall j :: 0 <= j < k ==> !layout.fields[j].SubMessages?)
      {
        match layout.fields[k]
        case Repeated(_, _) => ints := ints[k := []];
        case SubMessages(_, _) => subs := [];
        case Single(_, _, _) =>
      }
      hasBits := {};
      unknown := [];
      Repr := {this};
      assert scalars == FreshCells(layout).scalars && ints == FreshCells(layout).ints;
      ValueOfFresh(layout);
    }

    /** The guarded resets: a group whose bits are all zero is not touched. */
    method ClearGuarded()
      requires Guarded(layout) && Valid()
      modifies this`scalars
      ensures |scalars| == |layout.fields| && forall k :: 0 <= k < |scalars| ==> scalars[k] == 0
    {
      ghost var c := Own();
      AllPending(layout, c);
      for g := 0 to |layout.guards|
        invariant |scalars| == |layout.fields|
        invariant forall k :: 0 <= k < |scalars| ==> scalars[k] == 0 || scalars[k] == c.scalars[k]
        invariant PendingOnly(layout, scalars, g)
      {
        if Touches(hasBits, layout.guards[g].shift) {
          assert GuardAt(layout, g);
          ResetMembers(layout.guards[g]);
        } else {
          SkipPending(layout, c, scalars, g);
        }
      }
    }

    method ResetMembers(g: Guard)
      requires |scalars| == |layout.fields| && GuardCovers(layout.fields, g)
      modifies this`scalars
      ensures |scalars| == |old(scalars)|
      ensures forall k :: 0 <= k < |scalars| ==> scalars[k] == if k in g.members then 0 else old(scalars)[k]
    {
      for i := 0 to |g.members|
        invariant |scalars| == |layout.fields|
        invariant forall k :: 0 <= k < |scalars| ==>
                    scalars[k] == if k in g.members[..i] then 0 else old(scalars)[k]
      {
        scalars := scalars[g.members[i] := 0];
      }
    }

    // ------------------------------------------------------------------ merge

    /** MergeFrom: optional fields present in `from` overwrite, lists are appended,
        submessages are copied; `from` stays as it is. */
    method MergeFrom(from: Message)
      requires Guarded(layout) && Valid() && from.Valid() && from.layout == layout && Repr !! from.Repr
      modifies this
      ensures Valid() && fresh(Repr - old(Repr))
      ensures Value() == Merge(old(Value()), old(from.Value()))
      ensures cachedSize == old(cachedSize)
      decreases layout, 3
    {
      ghost var sv, fv := SubValues(), from.SubValues();
      MergeSubs(from);
      MergeOwn(from, sv, fv);
    }

    /** Appends copies of `from`'s submessages. */
    method MergeSubs(from: Message)
      requires Guarded(layout) && from.layout == layout && Repr !! from.Repr
      requires this in Repr && Elements(layout, subs, Below())
      requires Elements(layout, from.subs, from.Below())
      modifies this`subs, this`Repr
      ensures this in Repr && Elements(layout, subs, Below())
      ensures fresh(Repr - old(Repr))
      ensures SubValues() == old(SubValues() + from.SubValues())
      decreases layout, 2
    {
      var es, F := CopyElements(layout, from.subs, from.Below());
      AddElements(es, F);
    }

    /** Everything but the submessages. */
    method MergeOwn(from: Message, ghost sv: seq<Msg>, ghost fv: seq<Msg>)
      requires Guarded(layout) && from.layout == layout && from != this
      requires CellsOk(layout, Own()) && CellsOk(layout, from.Own())
      modifies this`hasBits, this`scalars, this`ints, this`unknown
      ensures CellsOk(layout, Own())
      ensures ValueOf(layout, Own(), sv + fv)
           == Merge(old(ValueOf(layout, Own(), sv)), ValueOf(layout, from.Own(), fv))
    {
      ghost var c, fc := Own(), from.Own();
      MergeInts(from);
      ghost var mid := Own();
      MergeGuarded(from, sv, fv);
      AppendUnknown(layout, Own(), from.unknown);
      unknown := unknown + from.unknown;
      IntsAside(layout, c, mid, sv, ValueOf(layout, fc, fv), ValueOf(layout, Own(), sv));
      MergedCells(layout, c, sv, fc, fv, Own());
    }

    /** Appends every list of repeated integers. */
    method MergeInts(from: Message)
      requires from.layout == layout && from != this
      requires CellsOk(layout, Own()) && CellsOk(layout, from.Own())
      modifies this`ints
      ensures CellsOk(layout, Own())
      ensures forall k :: 0 <= k < |ints| ==> ints[k] == old(ints)[k] + from.ints[k]
    {
      ghost var c := Own();
      for k := 0 to |layout.fields|
        invariant CellsOk(layout, Own())
        invariant forall j :: 0 <= j < k ==> ints[j] == c.ints[j] + from.ints[j]
        invariant forall j :: k <= j < |ints| ==> ints[j] == c.ints[j]
      {
        assert CellAt(layout, from.Own(), k);
        assert CellAt(layout, Own(), k);
        if layout.fields[k].Repeated? {
          AppendInts(layout, Own(), k, from.ints[k]);
          ints := ints[k := ints[k] + from.ints[k]];
        }
      }
    }

    /** Copies of the submessages `ms`, in order. */
    static method CopyElements(d: Layout, ms: seq<Message>, ghost R: set<Message>)
      returns (es: seq<Message>, ghost F: set<Message>)
      requires Guarded(d) && Elements(d, ms, R)
      ensures Elements(d, es, F) && fresh(F) && Values(d, es, F) == Values(d, ms, R)
      decreases d, 1, |ms|
    {
      if ms == [] {
        es, F := [], {};
      } else {
        var m := ms[|ms| - 1];
        es, F := CopyElements(d, ms[..|ms| - 1], R - m.Repr);
        es, F := CopyOnto(d, es, F, m);
      }
    }

    /** One more copy at the end of the list. */
    static method CopyOnto(d: Layout, ms: seq<Message>, ghost R: set<Message>, m: Message)
      returns (es: seq<Message>, ghost F: set<Message>)
      requires Guarded(d) && Elements(d, ms, R) && HasList(d) && m.Valid() && IsElement(d, m.layout)
      ensures Elements(d, es, F) && R <= F && fresh(F - R)
      ensures Values(d, es, F) == old(Values(d, ms, R) + [m.Value()])
      decreases d, 0
    {
      ElementIsSmaller(d, m.layout);
      var e := CopyOf(m);
      ElementsSnoc(d, ms, R, e);
      es, F := ms + [e], R + e.Repr;
    }

    /** A new object with the value of `m`: Add, then MergeFrom. */
    static method CopyOf(m: Message) returns (e: Message)
      requires Guarded(m.layout) && m.Valid()
      ensures e.Valid() && fresh(e.Repr) && e.layout == m.layout && e.Value() == m.Value()
      decreases m.layout, 4
    {
      e := new Message(m.layout);
      e.MergeFrom(m);
      MergeIdentity(m.layout, m.Value());
    }

    /** The guarded overwrites: a group whose bits are all zero in `from` is skipped. */
    method MergeGuarded(from: Message, ghost sv: seq<Msg>, ghost fv: seq<Msg>)
      requires from.layout == layout && from != this && Guarded(layout)
      requires CellsOk(layout, Own()) && CellsOk(layout, from.Own())
      modifies this`hasBits, this`scalars
      ensures CellsOk(layout, Own())
      ensures MergedOrPending(layout, old(ValueOf(layout, Own(), sv)), ValueOf(layout, from.Own(), fv),
                              ValueOf(layout, Own(), sv), [])
    {
      ghost var was, fc := ValueOf(layout, Own(), sv), from.Own();
      ghost var other := ValueOf(layout, fc, fv);
      AllUnmerged(layout, was, other);
      for g := 0 to |layout.guards|
        invariant CellsOk(layout, Own())
        invariant MergedOrPending(layout, was, other, ValueOf(layout, Own(), sv), Members(layout.guards, g))
      {
        if Touches(from.hasBits, layout.guards[g].shift) {
          MergeGroup(from, g, was, sv, fv);
        } else {
          SkipUnmerged(layout, was, fc, fv, ValueOf(layout, Own(), sv), g);
        }
      }
    }

    method MergeGroup(from: Message, g: nat, ghost was: Msg, ghost sv: seq<Msg>, ghost fv: seq<Msg>)
      requires from.layout == layout && from != this && Guarded(layout) && g < |layout.guards|
      requires CellsOk(layout, Own()) && CellsOk(layout, from.Own()) && Shaped(layout, was)
      requires MergedOrPending(layout, was, ValueOf(layout, from.Own(), fv), ValueOf(layout, Own(), sv),
                               Members(layout.guards, g))
      modifies this`hasBits, this`scalars
      ensures CellsOk(layout, Own())
      ensures MergedOrPending(layout, was, ValueOf(layout, from.Own(), fv), ValueOf(layout, Own(), sv),
                              Members(layout.guards, g + 1))
    {
      var ks := layout.guards[g].members;
      ghost var fc := from.Own();
      assert ks[0..] == ks;
      for i := 0 to |ks|
        invariant CellsOk(layout, Own())
        invariant MergedOrPending(layout, was, ValueOf(layout, fc, fv), ValueOf(layout, Own(), sv),
                                  ks[i..] + Members(layout.guards, g + 1))
      {
        assert GuardAt(layout, g);
        var k := ks[i];
        MergeStep(layout, was, fc, fv, Own(), sv, ks[i..] + Members(layout.guards, g + 1));
        assert (ks[i..] + Members(layout.guards, g + 1))[1..] == ks[i + 1..] + Members(layout.guards, g + 1);
        if layout.fields[k].bit in from.hasBits {
          hasBits := hasBits + {layout.fields[k].bit};
          scalars := scalars[k := from.scalars[k]];
        }
      }
      assert ks[|ks|..] + Members(layout.guards, g + 1) == Members(layout.guards, g + 1);
    }

    // ---------------------------------------------------------- copy and swap

    /** CopyFrom: whatever this object held, it ends up equal to `from`. */
    method CopyFrom(from: Message)
      requires Guarded(layout) && Valid() && from.Valid() && from.layout == layout
      requires from == this || Repr !! from.Repr
      modifies this
      ensures Valid() && fresh(Repr - old(Repr))
      ensures Value() == old(from.Value())
      ensures from != this ==> from.Valid() && from.Value() == old(from.Value())
      ensures from == this ==> unchanged(this)
    {
      if from == this { return; }
      ghost var v := from.Value();
      Clear();
      assert from.Valid() && from.Value() == v;
      MergeFrom(from);
      MergeIdentity(layout, v);
    }

    /** Swap: the two objects exchange everything, cached sizes included. */
    method Swap(other: Message)
      requires Valid() && other.Valid() && other.layout == layout
      requires other == this || Repr !! other.Repr
      modifies this, other
      ensures Valid() && other.Valid()
      ensures Value() == old(other.Value()) && other.Value() == old(Value())
      ensures cachedSize == old(other.cachedSize) && other.cachedSize == old(cachedSize)
    {
      if other != this {
        ghost var ss, os, mine, theirs := subs, other.subs, Below(), other.Below();
        Exchange(other);
        assert Below() == theirs && other.Below() == mine;
        assert Elements(layout, os, theirs) && Elements(layout, ss, mine);
      }
    }

    method Exchange(other: Message)
      requires other != this && this in Repr && other in other.Repr
      modifies this, other
      ensures Own() == old(other.Own()) && other.Own() == old(Own())
      ensures subs == old(other.subs) && other.subs == old(subs)
      ensures cachedSize == old(other.cachedSize) && other.cachedSize == old(cachedSize)
      ensures Repr == old(other.Below()) + {this} && other.Repr == old(Below()) + {other}
    {
      hasBits, other.hasBits := other.hasBits, hasBits;
      scalars, other.scalars := other.scalars, scalars;
      ints, other.ints := other.ints, ints;
      subs, other.subs := other.subs, subs;
      unknown, other.unknown := other.unknown, unknown;
      cachedSize, other.cachedSize := other.cachedSize, cachedSize;
      Repr, other.Repr := other.Below() + {this}, Below() + {other};
    }

    // ------------------------------------------------------------------- size

    /** This object and everything nested in it has its exact size cached. */
    ghost predicate Cached()
      requires Valid()
      reads this`hasBits, this`scalars, this`ints, this`unknown, this`Repr, this`subs, this`cachedSize,
            Below()`Repr, Below()`hasBits, Below()`scalars, Below()`ints, Below()`subs, Below()`unknown,
            Below()`cachedSize
      decreases Repr, 1
    {
      && MsgOk(layout, Value())
      && cachedSize == Size(layout, Value())
      && AllCached(subs, Below(), |subs|)
    }

    /** ByteSize: the exact size of the encoding, cached here and in every submessage. */
    method ByteSize() returns (total: nat)
      requires Valid() && Guarded(layout) && OneList(layout)
      modifies Repr`cachedSize
      ensures MsgOk(layout, Value()) && total == Size(layout, Value()) == cachedSize
      ensures Cached()
      decreases layout, 1
    {
      ghost var m := Value();
      ValueIsOk(this);
      total := TotalSize(m, SubValues());
      SetCachedSize(total, m);
    }

    /** The sum itself; sizing the nested messages fills their caches. */
    method TotalSize(ghost m: Msg, ghost vs: seq<Msg>) returns (total: nat)
      requires Guarded(layout) && OneList(layout) && CellsOk(layout, Own())
      requires Elements(layout, subs, Below()) && Values(layout, subs, Below()) == vs
      requires m == ValueOf(layout, Own(), vs) && MsgOk(layout, m)
      modifies Below()`cachedSize
      ensures total == Size(layout, m)
      ensures Elements(layout, subs, Below()) && Values(layout, subs, Below()) == vs
      ensures AllCached(subs, Below(), |subs|)
      decreases layout, 0, 4
    {
      total := GuardedSize(m, vs);
      SizeByGroups(layout, m, |layout.fields|);
      var lists := ListsByteSize(m, vs);
      total := total + lists + RecsSize(unknown);
    }

    /** The last step: the nested sizes are in their caches, and now this one. */
    method SetCachedSize(size: nat, ghost m: Msg)
      requires Valid() && Value() == m && MsgOk(layout, m) && size == Size(layout, m)
      requires AllCached(subs, Below(), |subs|)
      modifies this`cachedSize
      ensures Valid() && Value() == m && cachedSize == size && Cached()
    {
      cachedSize := size;
    }

    /** The guarded part: a group whose bits are all zero is not looked at. */
    method GuardedSize(ghost m: Msg, ghost vs: seq<Msg>) returns (total: nat)
      requires Guarded(layout) && CellsOk(layout, Own()) && m == ValueOf(layout, Own(), vs) && MsgOk(layout, m)
      ensures AreSingles(layout.fields, Singles(layout.fields, |layout.fields|))
      ensures total == MembersSize(layout, m, Singles(layout.fields, |layout.fields|))
    {
      total := 0;
      var gs := layout.guards;
      MembersAreSingles(layout, 0);
      ghost var all := MembersSize(layout, m, Members(gs, 0));
      for g := 0 to |gs|
        invariant AreSingles(layout.fields, Members(gs, g))
        invariant total + MembersSize(layout, m, Members(gs, g)) == all
      {
        MembersAreSingles(layout, g + 1);
        assert GuardAt(layout, g);
        MembersSizeAppend(layout, m, gs[g].members, Members(gs, g + 1));
        if Touches(hasBits, gs[g].shift) {
          var size := GroupSize(gs[g].members, m, vs);
          total := total + size;
        } else {
          SkippedGroupSize(layout, Own(), vs, m, g);
        }
      }
    }

    method GroupSize(ks: seq<nat>, ghost m: Msg, ghost vs: seq<Msg>) returns (size: nat)
      requires CellsOk(layout, Own()) && m == ValueOf(layout, Own(), vs) && MsgOk(layout, m)
      requires AreSingles(layout.fields, ks)
      ensures size == MembersSize(layout, m, ks)
    {
      size := 0;
      assert ks[0..] == ks;
      for i := 0 to |ks|
        invariant size + MembersSize(layout, m, ks[i..]) == MembersSize(layout, m, ks)
      {
        var k := ks[i];
        assert ks[i..][1..] == ks[i + 1..];
        SingleSize(layout, Own(), vs, m, k);
        if layout.fields[k].bit in hasBits {
          size := size + 1 + IntSize(layout.fields[k].ty, scalars[k]);
        }
      }
    }

    /** The lists, in declaration order: one tag byte per element, plus the elements. */
    method ListsByteSize(ghost m: Msg, ghost vs: seq<Msg>) returns (total: nat)
      requires Guarded(layout) && OneList(layout) && CellsOk(layout, Own())
      requires Elements(layout, subs, Below()) && Values(layout, subs, Below()) == vs
      requires m == ValueOf(layout, Own(), vs) && MsgOk(layout, m)
      modifies Below()`cachedSize
      ensures total == ListsSize(layout, m, |layout.fields|)
      ensures Elements(layout, subs, Below()) && Values(layout, subs, Below()) == vs
      ensures AllCached(subs, Below(), |subs|)
      decreases layout, 0, 3, 1
    {
      total := 0;
      ghost var sized := subs == [];
      for k := 0 to |layout.fields|
        invariant total == ListsSize(layout, m, k)
        invariant Elements(layout, subs, Below()) && Values(layout, subs, Below()) == vs
        invariant forall j :: 0 <= j < k && layout.fields[j].SubMessages? ==> sized
        invariant sized ==> AllCached(subs, Below(), |subs|)
      {
        var size := ListByteSize(k, m, vs, sized);
        total := total + size;
        sized := sized || layout.fields[k].SubMessages?;
      }
    }

    /** What field `k` adds, if it is a list. */
    method ListByteSize(k: nat, ghost m: Msg, ghost vs: seq<Msg>, ghost sized: bool) returns (size: nat)
      requires Guarded(layout) && OneList(layout) && CellsOk(layout, Own()) && k < |layout.fields|
      requires Elements(layout, subs, Below()) && Values(layout, subs, Below()) == vs
      requires m == ValueOf(layout, Own(), vs) && MsgOk(layout, m)
      requires sized ==> AllCached(subs, Below(), |subs|)
      modifies Below()`cachedSize
      ensures ListsSize(layout, m, k + 1) == ListsSize(layout, m, k) + size
      ensures Elements(layout, subs, Below()) && Values(layout, subs, Below()) == vs
      ensures sized || layout.fields[k].SubMessages? ==> AllCached(subs, Below(), |subs|)
      decreases layout, 0, 3, 0
    {
      size := 0;
      if layout.fields[k].Repeated? {
        size := RepeatedByteSize(k, m, vs);
      } else if layout.fields[k].SubMessages? {
        size := SubMessagesByteSize(k, m, vs);
      }
    }

    method RepeatedByteSize(k: nat, ghost m: Msg, ghost vs: seq<Msg>) returns (size: nat)
      requires CellsOk(layout, Own()) && m == ValueOf(layout, Own(), vs) && MsgOk(layout, m)
      requires k < |layout.fields| && layout.fields[k].Repeated?
      ensures SlotOk(layout.fields[k], m.slots[k]) && size == SlotSize(layout.fields[k], m.slots[k])
    {
      assert CellAt(layout, Own(), k);
      size := IntsByteSize(layout.fields[k].ty, ints[k]);
      size := |ints[k]| + size;
    }

    method SubMessagesByteSize(k: nat, ghost m: Msg, ghost vs: seq<Msg>) returns (size: nat)
      requires Guarded(layout) && OneList(layout) && |scalars| == |ints| == |layout.fields|
      requires Elements(layout, subs, Below()) && Values(layout, subs, Below()) == vs
      requires m == ValueOf(layout, Own(), vs) && k < |layout.fields| && layout.fields[k].SubMessages?
      modifies Below()`cachedSize
      ensures Elements(layout, subs, Below()) && Values(layout, subs, Below()) == vs
      ensures SlotOk(layout.fields[k], m.slots[k]) && size == SlotSize(layout.fields[k], m.slots[k])
      ensures AllCached(subs, Below(), |subs|)
      decreases layout, 0, 2
    {
      ElementClass(layout, k);
      ElementsAreOk(layout, k, subs, Below());
      size := ElementsByteSize(layout, layout.fields[k].sub, subs, Below(), vs);
      size := |subs| + size;
    }

    static method IntsByteSize(ty: IntType, vals: seq<int>) returns (size: nat)
      requires forall i :: 0 <= i < |vals| ==> InRange(ty, vals[i])
      ensures size == IntsSize(ty, vals)
    {
      size := 0;
      for i := 0 to |vals|
        invariant size == IntsSize(ty, vals[..i])
      {
        IntsSizeSnoc(ty, vals, i);
        size := size + IntSize(ty, vals[i]);
      }
      assert vals[..|vals|] == vals;
    }

    /** The submessages: each is sized, which fills its own cache, and counted with its
        length prefix. */
    static method ElementsByteSize(d: Layout, sub: Layout, ms: seq<Message>, ghost R: set<Message>, ghost vs: seq<Msg>)
      returns (size: nat)
      requires Guarded(d) && OneList(d) && IsElement(d, sub) && HasList(d)
      requires Elements(d, ms, R) && Values(d, ms, R) == vs
      requires forall i :: 0 <= i < |vs| ==> MsgOk(sub, vs[i])
      modifies R`cachedSize
      ensures size == MsgsSize(sub, vs)
      ensures Elements(d, ms, R) && Values(d, ms, R) == vs && AllCached(ms, R, |ms|)
      decreases d, 0, 1
    {
      size := 0;
      for i := 0 to |ms|
        invariant Elements(d, ms, R) && Values(d, ms, R) == vs
        invariant AllCached(ms, R, i)
        invariant size == MsgsSize(sub, vs[..i])
      {
        var n := SizeElement(d, sub, ms, R, i, vs);
        CountedSizeSnoc(sub, vs, i);
        size := size + VarintSize32(n) + n;
      }
      assert vs[..|ms|] == vs;
    }

    /** Sizes element `i`; the caches of those before it stay as they are. */
    static method SizeElement(d: Layout, sub: Layout, ms: seq<Message>, ghost R: set<Message>, i: nat,
                              ghost vs: seq<Msg>)
      returns (n: nat)
      requires Guarded(d) && OneList(d) && IsElement(d, sub) && HasList(d)
      requires Elements(d, ms, R) && Values(d, ms, R) == vs && i < |ms| && AllCached(ms, R, i)
      modifies R`cachedSize
      ensures Elements(d, ms, R) && Values(d, ms, R) == vs && AllCached(ms, R, i + 1)
      ensures MsgOk(sub, vs[i]) && n == Size(sub, vs[i])
      decreases d, 0, 0
    {
      ElementAt(d, ms, R, i);
      ElementIsSmaller(d, ms[i].layout);
      forall j | 0 <= j < i
        ensures ms[j].Repr !! ms[i].Repr && ms[j].Valid() && ms[j].Cached()
      {
        ElementsApart(d, ms, R, j, i);
        ElementAt(d, ms, R, j);
      }
      n := SizeInPlace(ms, R, i);
    }

    /** The same, for an element known to be apart from the earlier ones. */
    static method SizeInPlace(ms: seq<Message>, ghost R: set<Message>, i: nat) returns (n: nat)
      requires i < |ms| && ms[i] in R && ms[i].Repr <= R && ms[i].Valid()
      requires Guarded(ms[i].layout) && OneList(ms[i].layout)
      requires AllCached(ms, R, i)
      requires forall j :: 0 <= j < i ==>
                 ms[j].Repr !! ms[i].Repr && ms[j].Valid() && ms[j].Cached()
      modifies R`cachedSize
      ensures AllCached(ms, R, i + 1)
      ensures MsgOk(ms[i].layout, ms[i].Value()) && n == Size(ms[i].layout, ms[i].Value())
      decreases ms[i].layout, 2
    {
      n := ms[i].ByteSize();
    }

    // -------------------------------------------------------------- serialize

    /** Sized, and not mutated since: what the serializers ask of their caller. */
    ghost predicate Ready()
      reads this`hasBits, this`scalars, this`ints, this`unknown, this`Repr, this`subs, this`cachedSize,
            Below()`Repr, Below()`hasBits, Below()`scalars, Below()`ints, Below()`subs, Below()`unknown,
            Below()`cachedSize
    {
      Valid() && Cached() && Numbered(layout) && OneList(layout) && cachedSize < TWO_31
    }

    /** SerializeWithCachedSizes: exactly the encoding of the value, with every length
        prefix taken from a size cache. */
    method SerializeWithCachedSizes(output: CodedOutputStream)
      requires Ready()
      modifies output
      ensures output.data == old(output.data) + Serialize(layout, Value())
      decreases layout, 2
    {
      ghost var m, was := Value(), output.data;
      for k := 0 to |layout.fields|
        invariant Ready() && Value() == m
        invariant output.data == was + FieldBytes(layout, m, k)
      {
        SerializeNext(k, m, was, output);
      }
      LastStep(layout, m, was, output.data);
      output.WriteRaw(EncodeRecs(unknown));
    }

    /** Field `k`, behind those before it. */
    method SerializeNext(k: nat, ghost m: Msg, ghost was: seq<byte>, output: CodedOutputStream)
      requires Ready() && Value() == m && MsgOk(layout, m) && k < |layout.fields|
      requires output.data == was + FieldBytes(layout, m, k)
      modifies output
      ensures output.data == was + FieldBytes(layout, m, k + 1)
      decreases layout, 1, 2
    {
      FieldStep(layout, m, k, was, output.data);
      SerializeField(k, output);
    }

    method SerializeField(k: nat, output: CodedOutputStream)
      requires Ready()
      requires k < |layout.fields|
      modifies output
      ensures SlotOk(layout.fields[k], Value().slots[k])
      ensures output.data == old(output.data) + SlotBytes(layout.fields[k], Value().slots[k])
      decreases layout, 1, 1
    {
      assert SlotOk(layout.fields[k], Value().slots[k]);
      assert CellAt(layout, Own(), k);
      match layout.fields[k]
      case Single(number, ty, bit) =>
        if bit in hasBits {
          IntRecBytes(number, ty, scalars[k]);
          WriteInt(number, ty, scalars[k], output);
        }
      case Repeated(number, ty) =>
        WriteInts(number, ty, ints[k], output);
      case SubMessages(number, sub) =>
        WriteElements(k, output);
        assert SlotRecs(layout.fields[k], Value().slots[k]) == SubRecs(number, sub, SubValues());
    }

    static method WriteInt(number: nat, ty: IntType, v: int, output: CodedOutputStream)
      requires InRange(ty, v)
      modifies output
      ensures output.data == old(output.data) + IntBytes(number, ty, v)
    {
      output.WriteVarint(MakeTag(number, WT_VARINT));
      output.WriteVarint(ToWire(ty, v));
    }

    static method WriteInts(number: nat, ty: IntType, vals: seq<int>, output: CodedOutputStream)
      requires forall i :: 0 <= i < |vals| ==> InRange(ty, vals[i])
      modifies output
      ensures output.data == old(output.data) + EncodeRecs(IntRecs(number, ty, vals))
    {
      ghost var was := output.data;
      for i := 0 to |vals|
        invariant output.data == was + EncodeRecs(IntRecs(number, ty, vals[..i]))
      {
        IntRecsBytes(number, ty, vals, i);
        WriteInt(number, ty, vals[i], output);
        AppendAssoc(was, EncodeRecs(IntRecs(number, ty, vals[..i])), IntBytes(number, ty, vals[i]));
      }
      assert vals[..|vals|] == vals;
    }

    method WriteElements(k: nat, output: CodedOutputStream)
      requires Ready()
      requires k < |layout.fields| && layout.fields[k].SubMessages?
      modifies output
      ensures forall i :: 0 <= i < |subs| ==> MsgOk(layout.fields[k].sub, SubValues()[i])
      ensures output.data == old(output.data) + SubsBytes(layout.fields[k].number, layout.fields[k].sub, SubValues())
      decreases layout, 1, 0
    {
      ghost var was, vs, sub := output.data, SubValues(), layout.fields[k].sub;
      var number := layout.fields[k].number;
      ElementsAreOk(layout, k, subs, Below());
      for i := 0 to |subs|
        invariant Ready() && SubValues() == vs
        invariant output.data == was + SubsBytes(number, sub, vs[..i])
      {
        WriteNth(k, i, was, output);
      }
      assert vs[..|subs|] == vs;
    }

    /** Element `i` of the list, behind those before it. */
    method WriteNth(k: nat, i: nat, ghost was: seq<byte>, output: CodedOutputStream)
      requires Ready() && k < |layout.fields| && layout.fields[k].SubMessages? && i < |subs|
      requires forall j :: 0 <= j < |subs| ==> MsgOk(layout.fields[k].sub, SubValues()[j])
      requires output.data == was + SubsBytes(layout.fields[k].number, layout.fields[k].sub, SubValues()[..i])
      modifies output
      ensures output.data == was + SubsBytes(layout.fields[k].number, layout.fields[k].sub, SubValues()[..i + 1])
      decreases layout, 0
    {
      ElementReady(k, i);
      SubStep(layout.fields[k].number, layout.fields[k].sub, SubValues(), i, was, output.data);
      WriteElement(layout.fields[k].number, subs[i], output);
    }

    /** WriteMessageMaybeToArray: tag, cached size, body. */
    static method WriteElement(number: nat, e: Message, output: CodedOutputStream)
      requires e.Ready()
      modifies output
      ensures output.data == old(output.data) + SubBytes(number, e.layout, e.Value())
      decreases e.layout, 4
    {
      WritePrefix(number, e.cachedSize, output);
      WriteMaybeToArray(e, output);
    }

    static method WritePrefix(number: nat, size: nat, output: CodedOutputStream)
      modifies output
      ensures output.data == old(output.data) + PrefixBytes(number, size)
    {
      output.WriteVarint(MakeTag(number, WT_LENGTH_DELIMITED));
      output.WriteVarint(size);
    }

    /** What an element brings when its turn to be written comes. */
    lemma ElementReady(k: nat, i: nat)
      requires Ready()
      requires k < |layout.fields| && layout.fields[k].SubMessages? && i < |subs|
      ensures subs[i] in Below() && subs[i].Repr <= Below() && subs[i].Ready()
      ensures subs[i].layout == layout.fields[k].sub && subs[i].layout < layout
      ensures subs[i].Value() == SubValues()[i]
      ensures MsgOk(subs[i].layout, SubValues()[i])
      ensures Size(subs[i].layout, SubValues()[i]) == subs[i].cachedSize
    {
      ElementAt(layout, subs, Below(), i);
      ElementIsSmaller(layout, subs[i].layout);
      assert AllCached(subs, Below(), |subs|) by {
        assert Cached();
      }
      assert subs[i].Cached();
      assert Value().slots[k] == Msgs(SubValues());
      ElementBelowMessage(layout, Value(), k, i);
    }

    /** The body of an element goes through a buffer of exactly its cached size, or
        straight to the stream; the bytes are the same. */
    static method WriteMaybeToArray(e: Message, output: CodedOutputStream)
      requires e.Ready()
      modifies output
      ensures output.data == old(output.data) + Serialize(e.layout, e.Value())
      decreases e.layout, 3, 1
    {
      var direct: bool := *;
      if direct {
        var bytes := BytesByArray(e);
        output.WriteRaw(bytes);
      } else {
        e.SerializeWithCachedSizes(output);
      }
    }

    /** A buffer of exactly the cached size, filled by the array serializer. */
    static method BytesByArray(e: Message) returns (bytes: seq<byte>)
      requires e.Ready()
      ensures bytes == Serialize(e.layout, e.Value())
      decreases e.layout, 3, 0
    {
      var buffer := new byte[e.cachedSize](_ => 0);
      var end := e.SerializeWithCachedSizesToArray(buffer, 0);
      bytes := buffer[..];
    }

    // ------------------------------------------------------- serialize to array

    /** SerializeWithCachedSizesToArray: the same bytes, written over `target` from
        `start` on; it ends exactly one cached size further and touches nothing else. */
    method SerializeWithCachedSizesToArray(target: array<byte>, start: nat) returns (end: nat)
      requires Ready()
      requires start + cachedSize <= target.Length
      modifies target
      ensures end == start + cachedSize
      ensures |Serialize(layout, Value())| == cachedSize
      ensures target[..] == Placed(old(target[..]), start, Serialize(layout, Value()))
      decreases layout, 2
    {
      ghost var m, was := Value(), target[..];
      SizeExact(layout, m);
      end := SerializeFieldsToArray(m, target, start);
      end := SerializeUnknownToArray(m, was, start, target, end);
    }

    /** The declared fields, in order. */
    method SerializeFieldsToArray(ghost m: Msg, target: array<byte>, start: nat) returns (end: nat)
      requires Ready() && Value() == m && MsgOk(layout, m)
      requires start + |Serialize(layout, m)| <= target.Length
      modifies target
      ensures FieldsPlaced(layout, m, |layout.fields|, old(target[..]), start, target[..], end)
      decreases layout, 1, 3
    {
      ghost var was := target[..];
      end := start;
      NoFieldsPlaced(layout, m, was, start);
      for k := 0 to |layout.fields|
        invariant FieldsPlaced(layout, m, k, was, start, target[..], end)
      {
        end := SerializeNextToArray(k, m, was, start, target, end);
      }
    }

    /** The unknown fields, behind all declared ones. */
    method SerializeUnknownToArray(ghost m: Msg, ghost was: seq<byte>, ghost first: nat,
                                   target: array<byte>, start: nat)
      returns (end: nat)
      requires MsgOk(layout, m) && m.unknown == unknown
      requires first + |Serialize(layout, m)| <= |was|
      requires FieldsPlaced(layout, m, |layout.fields|, was, first, target[..], start)
      modifies target
      ensures end == first + |Serialize(layout, m)|
      ensures target[..] == Placed(was, first, Serialize(layout, m))
    {
      LastStepToArray(layout, m, was, first, target[..], start);
      end := WriteToArray(target, start, EncodeRecs(unknown));
    }

    /** Field `k`, behind those before it. */
    method SerializeNextToArray(k: nat, ghost m: Msg, ghost was: seq<byte>, ghost first: nat,
                                target: array<byte>, start: nat)
      returns (end: nat)
      requires Ready() && Value() == m && MsgOk(layout, m) && k < |layout.fields|
      requires first + |Serialize(layout, m)| <= |was|
      requires FieldsPlaced(layout, m, k, was, first, target[..], start)
      modifies target
      ensures FieldsPlaced(layout, m, k + 1, was, first, target[..], end)
      decreases layout, 1, 2
    {
      FieldStepToArray(layout, m, k, was, first, target[..], start);
      end := SerializeFieldToArray(k, target, start);
    }

    method SerializeFieldToArray(k: nat, target: array<byte>, start: nat) returns (end: nat)
      requires Ready()
      requires k < |layout.fields| && SlotOk(layout.fields[k], Value().slots[k])
      requires start + |SlotBytes(layout.fields[k], Value().slots[k])| <= target.Length
      modifies target
      ensures end == start + |SlotBytes(layout.fields[k], Value().slots[k])|
      ensures target[..] == Placed(old(target[..]), start, SlotBytes(layout.fields[k], Value().slots[k]))
      decreases layout, 1, 1
    {
      assert CellAt(layout, Own(), k);
      end := start;
      match layout.fields[k]
      case Single(number, ty, bit) =>
        if bit in hasBits {
          IntRecBytes(number, ty, scalars[k]);
          end := WriteIntToArray(number, ty, scalars[k], target, start);
        } else {
          NothingPlaced(target[..], start);
        }
      case Repeated(number, ty) =>
        end := WriteIntsToArray(number, ty, ints[k], target, start);
      case SubMessages(number, sub) =>
        assert SlotRecs(layout.fields[k], Value().slots[k]) == SubRecs(number, sub, SubValues());
        end := WriteElementsToArray(k, target, start);
    }

    static method WriteIntToArray(number: nat, ty: IntType, v: int, target: array<byte>, start: nat) returns (end: nat)
      requires InRange(ty, v) && start + |IntBytes(number, ty, v)| <= target.Length
      modifies target
      ensures end == start + |IntBytes(number, ty, v)|
      ensures target[..] == Placed(old(target[..]), start, IntBytes(number, ty, v))
    {
      PlacedTwice(target[..], start, EncodeVarint(MakeTag(number, WT_VARINT)), EncodeVarint(ToWire(ty, v)));
      end := WriteToArray(target, start, EncodeVarint(MakeTag(number, WT_VARINT)));
      end := WriteToArray(target, end, EncodeVarint(ToWire(ty, v)));
    }

    static method WriteIntsToArray(number: nat, ty: IntType, vals: seq<int>, target: array<byte>, start: nat)
      returns (end: nat)
      requires forall i :: 0 <= i < |vals| ==> InRange(ty, vals[i])
      requires start + |EncodeRecs(IntRecs(number, ty, vals))| <= target.Length
      modifies target
      ensures end == start + |EncodeRecs(IntRecs(number, ty, vals))|
      ensures target[..] == Placed(old(target[..]), start, EncodeRecs(IntRecs(number, ty, vals)))
    {
      ghost var was := target[..];
      end := start;
      NothingPlaced(was, start);
      for i := 0 to |vals|
        invariant end == start + |EncodeRecs(IntRecs(number, ty, vals[..i]))| <= target.Length
        invariant target[..] == Placed(was, start, EncodeRecs(IntRecs(number, ty, vals[..i])))
      {
        IntStepToArray(number, ty, vals, i, was, start, target[..], end);
        end := WriteIntToArray(number, ty, vals[i], target, end);
      }
      assert vals[..|vals|] == vals;
    }

    method WriteElementsToArray(k: nat, target: array<byte>, start: nat) returns (end: nat)
      requires Ready()
      requires k < |layout.fields| && layout.fields[k].SubMessages?
      requires forall i :: 0 <= i < |subs| ==> MsgOk(layout.fields[k].sub, SubValues()[i])
      requires start + |SubsBytes(layout.fields[k].number, layout.fields[k].sub, SubValues())| <= target.Length
      modifies target
      ensures end == start + |SubsBytes(layout.fields[k].number, layout.fields[k].sub, SubValues())|
      ensures target[..] == Placed(old(target[..]), start,
                              SubsBytes(layout.fields[k].number, layout.fields[k].sub, SubValues()))
      decreases layout, 1, 0
    {
      ghost var was := target[..];
      end := start;
      NoneBehind(k, was, start);
      for i := 0 to |subs|
        invariant Behind(k, i, was, start, target[..], end)
      {
        end := WriteNthToArray(k, i, was, start, target, end);
      }
      AllBehind(k, was, start, target[..], end);
    }

    /** `now` is `was` with the first `i` elements written from `start` to `end`. */
    ghost predicate Behind(k: nat, i: nat, was: seq<byte>, start: nat, now: seq<byte>, end: nat)
      requires Ready() && k < |layout.fields| && layout.fields[k].SubMessages? && i <= |subs|
      requires forall j :: 0 <= j < |subs| ==> MsgOk(layout.fields[k].sub, SubValues()[j])
      reads this`hasBits, this`scalars, this`ints, this`unknown, this`Repr, this`subs, this`cachedSize,
            Below()`Repr, Below()`hasBits, Below()`scalars, Below()`ints, Below()`subs, Below()`unknown,
            Below()`cachedSize
    {
      var bytes := SubsBytes(layout.fields[k].number, layout.fields[k].sub, SubValues()[..i]);
      end == start + |bytes| <= |was| && now == Placed(was, start, bytes)
    }

    lemma NoneBehind(k: nat, was: seq<byte>, start: nat)
      requires Ready() && k < |layout.fields| && layout.fields[k].SubMessages? && start <= |was|
      requires forall j :: 0 <= j < |subs| ==> MsgOk(layout.fields[k].sub, SubValues()[j])
      ensures Behind(k, 0, was, start, was, start)
    {
      NothingPlaced(was, start);
    }

    lemma AllBehind(k: nat, was: seq<byte>, start: nat, now: seq<byte>, end: nat)
      requires Ready() && k < |layout.fields| && layout.fields[k].SubMessages?
      requires forall j :: 0 <= j < |subs| ==> MsgOk(layout.fields[k].sub, SubValues()[j])
      requires Behind(k, |subs|, was, start, now, end)
      ensures var bytes := SubsBytes(layout.fields[k].number, layout.fields[k].sub, SubValues());
        end == start + |bytes| <= |was| && now == Placed(was, start, bytes)
    {
      assert SubValues()[..|subs|] == SubValues();
    }

    /** Element `i` of the list, behind those before it. */
    method WriteNthToArray(k: nat, i: nat, ghost was: seq<byte>, ghost first: nat, target: array<byte>, start: nat)
      returns (end: nat)
      requires Ready()
      requires k < |layout.fields| && layout.fields[k].SubMessages? && i < |subs|
      requires forall j :: 0 <= j < |subs| ==> MsgOk(layout.fields[k].sub, SubValues()[j])
      requires first + |SubsBytes(layout.fields[k].number, layout.fields[k].sub, SubValues())| <= |was|
      requires Behind(k, i, was, first, target[..], start)
      modifies target
      ensures Behind(k, i + 1, was, first, target[..], end)
      decreases layout, 0
    {
      ElementStepToArray(k, i, was, first, target[..], start);
      end := WriteElementToArray(layout.fields[k].number, subs[i], target, start);
    }

    lemma ElementStepToArray(k: nat, i: nat, was: seq<byte>, start: nat, now: seq<byte>, pos: nat)
      requires Ready()
      requires k < |layout.fields| && layout.fields[k].SubMessages? && i < |subs|
      requires forall j :: 0 <= j < |subs| ==> MsgOk(layout.fields[k].sub, SubValues()[j])
      requires start + |SubsBytes(layout.fields[k].number, layout.fields[k].sub, SubValues())| <= |was|
      requires Behind(k, i, was, start, now, pos)
      ensures var f, e := layout.fields[k], subs[i];
        && e.Ready() && e.layout < layout && MsgOk(e.layout, e.Value())
        && pos + |SubBytes(f.number, e.layout, e.Value())|
           == start + |SubsBytes(f.number, f.sub, SubValues()[..i + 1])| <= |was|
        && Placed(now, pos, SubBytes(f.number, e.layout, e.Value()))
           == Placed(was, start, SubsBytes(f.number, f.sub, SubValues()[..i + 1]))
    {
      ElementReady(k, i);
      SubStepToArray(layout.fields[k].number, layout.fields[k].sub, SubValues(), i, was, start, now, pos);
    }

    /** WriteMessageNoVirtualToArray: tag, cached size, body. */
    static method WriteElementToArray(number: nat, e: Message, target: array<byte>, start: nat) returns (end: nat)
      requires e.Ready()
      requires start + |SubBytes(number, e.layout, e.Value())| <= target.Length
      modifies target
      ensures end == start + |SubBytes(number, e.layout, e.Value())|
      ensures target[..] == Placed(old(target[..]), start, SubBytes(number, e.layout, e.Value()))
      decreases e.layout, 5
    {
      ghost var m, was := e.Value(), target[..];
      end := WritePrefixToArray(number, e.cachedSize, target, start);
      end := WriteBodyToArray(number, e, target, end, was, start, m);
    }

    /** The body behind its prefix, which starts at `first`. */
    static method WriteBodyToArray(number: nat, e: Message, target: array<byte>, start: nat,
                                   ghost was: seq<byte>, ghost first: nat, ghost m: Msg)
      returns (end: nat)
      requires e.Ready() && m == e.Value() && first + |SubBytes(number, e.layout, m)| <= |was|
      requires start == first + |PrefixBytes(number, e.cachedSize)| <= |was|
      requires target[..] == Placed(was, first, PrefixBytes(number, e.cachedSize))
      modifies target
      ensures end == first + |SubBytes(number, e.layout, m)|
      ensures target[..] == Placed(was, first, SubBytes(number, e.layout, m))
      decreases e.layout, 4
    {
      SubBytesPlaced(number, e.layout, m, was, first, target[..]);
      end := WriteExactly(e, target, start, Placed(was, first, SubBytes(number, e.layout, m)));
    }

    /** As many bytes as the cache says, with which the buffer reads `goal`. */
    static method WriteExactly(e: Message, target: array<byte>, start: nat, ghost goal: seq<byte>)
      returns (end: nat)
      requires e.Ready() && start + e.cachedSize <= target.Length
      requires |Serialize(e.layout, e.Value())| == e.cachedSize
      requires Placed(target[..], start, Serialize(e.layout, e.Value())) == goal
      modifies target
      ensures end == start + e.cachedSize && target[..] == goal
      decreases e.layout, 3
    {
      end := e.SerializeWithCachedSizesToArray(target, start);
    }

    static method WritePrefixToArray(number: nat, size: nat, target: array<byte>, start: nat) returns (end: nat)
      requires start + |PrefixBytes(number, size)| <= target.Length
      modifies target
      ensures end == start + |PrefixBytes(number, size)|
      ensures target[..] == Placed(old(target[..]), start, PrefixBytes(number, size))
    {
      PlacedTwice(target[..], start, EncodeVarint(MakeTag(number, WT_LENGTH_DELIMITED)), EncodeVarint(size));
      end := WriteToArray(target, start, EncodeVarint(MakeTag(number, WT_LENGTH_DELIMITED)));
      end := WriteToArray(target, end, EncodeVarint(size));
    }

    // ------------------------------------------------------------------ parse

    /** MergePartialFromCodedStream, with its shortcuts: after a field's case the parser
        may jump straight to the case it expects next.  Whatever the hints answer, the
        result and the message are those of reading one tag after the other. */
    method MergePartialFromCodedStream(input: CodedInputStream) returns (ok: bool)
      requires Valid() && WellFormed(layout) && input.Open()
      modifies this, input
      ensures Valid() && fresh(Repr - old(Repr)) && cachedSize == old(cachedSize)
      ensures input.Valid() && (ok ==> input.limit == old(input.limit))
      ensures EndsWith(Parse(layout, old(Value()), old(input.Rest())), Value(), input, ok)
      decreases layout, 5, 3, 1
    {
      ghost var goal := Parse(layout, Value(), input.Rest());
      var next, more := Uninterpreted, true;
      ok := true;
      while true
        invariant ok && Valid() && fresh(Repr - old(Repr)) && cachedSize == old(cachedSize)
        invariant input.Open() && input.limit == old(input.limit)
        invariant next.Known? ==> next.index < |layout.fields|
        invariant goal == Remaining(layout, Value(), next, input.Rest())
        decreases input.limit - input.pos
      {
        ok, more, next := ParseStep(next, input);
        if !more {
          return;
        }
      }
    }

    /** Once around the loop: a field, and the hints behind it. */
    method ParseStep(next: Target, input: CodedInputStream) returns (ok: bool, more: bool, onward: Target)
      requires Valid() && WellFormed(layout) && input.Open() && (next.Known? ==> next.index < |layout.fields|)
      modifies this, input
      ensures Valid() && fresh(Repr - old(Repr)) && cachedSize == old(cachedSize)
      ensures input.Valid() && (ok ==> input.limit == old(input.limit))
      ensures more ==> ok && input.Open() && old(input.pos) < input.pos
      ensures onward.Known? ==> onward.index < |layout.fields|
      ensures more ==>
        Remaining(layout, old(Value()), next, old(input.Rest())) == Remaining(layout, Value(), onward, input.Rest())
      ensures !more ==> EndsWith(Remaining(layout, old(Value()), next, old(input.Rest())), Value(), input, ok)
      decreases layout, 5, 3, 0
    {
      var target;
      ok, more, target := NextField(next, input);
      onward := Uninterpreted;
      if more {
        more, onward := HintsBehind(target, input);
      }
    }

    /** The hints behind a field's case; an uninterpreted record has none. */
    method HintsBehind(target: Target, input: CodedInputStream) returns (more: bool, onward: Target)
      requires Valid() && WellFormed(layout) && input.Open() && (target.Known? ==> target.index < |layout.fields|)
      modifies input
      ensures input.Valid() && input.limit == old(input.limit) && old(input.pos) <= input.pos
      ensures onward.Known? ==> onward.index < |layout.fields|
      ensures !more ==> EndsWith(Parse(layout, Value(), old(input.Rest())), Value(), input, true)
      ensures more ==> input.Open()
      ensures more ==> Parse(layout, Value(), old(input.Rest())) == Remaining(layout, Value(), onward, input.Rest())
    {
      more, onward := true, Uninterpreted;
      if target.Known? {
        var stop;
        stop, onward := ExpectNext(target.index, input);
        more := !stop;
      }
    }

    /** One field: the one a `goto` has entered, or the one the next tag announces. */
    method NextField(next: Target, input: CodedInputStream) returns (ok: bool, more: bool, target: Target)
      requires Valid() && WellFormed(layout) && input.Open() && (next.Known? ==> next.index < |layout.fields|)
      modifies this, input
      ensures Valid() && fresh(Repr - old(Repr)) && cachedSize == old(cachedSize)
      ensures input.Valid() && (ok ==> input.limit == old(input.limit))
      ensures more ==>
        && ok && input.Open() && old(input.pos) < input.pos
        && (next.Known? ==> target == next)
        && (target.Known? ==> target.index < |layout.fields|)
        && Remaining(layout, old(Value()), next, old(input.Rest())) == Parse(layout, Value(), input.Rest())
      ensures !more ==> EndsWith(Remaining(layout, old(Value()), next, old(input.Rest())), Value(), input, ok)
      decreases layout, 5, 2
    {
      if next.Known? {
        ok := ParseField(next.index, input);
        more, target := ok, next;
      } else {
        ok, more, target := ReadField(input);
      }
    }

    /** The head of the loop: read a tag, and handle the field it announces. */
    method ReadField(input: CodedInputStream) returns (ok: bool, more: bool, target: Target)
      requires Valid() && WellFormed(layout) && input.Open()
      modifies this, input
      ensures Valid() && fresh(Repr - old(Repr)) && cachedSize == old(cachedSize)
      ensures input.Valid() && (ok ==> input.limit == old(input.limit))
      ensures more ==>
        && ok && input.Open() && old(input.pos) < input.pos
        && (target.Known? ==> target.index < |layout.fields|)
        && Parse(layout, old(Value()), old(input.Rest())) == Parse(layout, Value(), input.Rest())
      ensures !more ==> EndsWith(Parse(layout, old(Value()), old(input.Rest())), Value(), input, ok)
      decreases layout, 5, 1
    {
      ParseReadsTag(layout, Value(), input.Rest());
      ok, more, target := true, false, Uninterpreted;
      var tag := input.ReadTag();
      if tag == 0 {
        return;
      }
      target := Route(layout, tag / 8, tag % 8);
      if target == Uninterpreted && tag % 8 == WT_END_GROUP {
        return;
      }
      ok := HandleTag(tag, target, input);
      more := ok;
    }

    /** The switch on the field number, and in each case on the wire type. */
    method HandleTag(tag: nat, target: Target, input: CodedInputStream) returns (ok: bool)
      requires Valid() && WellFormed(layout) && input.Open() && 0 < tag < TWO_32
      requires target == Route(layout, tag / 8, tag % 8)
      requires target == Uninterpreted ==> tag % 8 != WT_END_GROUP
      modifies this, input
      ensures Valid() && fresh(Repr - old(Repr)) && cachedSize == old(cachedSize)
      ensures input.Valid() && (ok ==> input.Open() && input.limit == old(input.limit) && old(input.pos) <= input.pos)
      ensures AfterTag(layout, old(Value()), tag, old(input.Rest())) == GoesOn(layout, Value(), input.Rest(), ok)
      decreases layout, 5, 0
    {
      match target
      case Uninterpreted =>
        ok := SkipField(tag, input);
      case Known(k) =>
        assert tag == MakeTag(layout.fields[k].number, tag % 8);
        if tag == PrimaryTag(layout.fields[k]) {
          ok := ParseField(k, input);
        } else {
          ok := ParsePacked(k, input);
        }
    }

    /** The hints at the end of field `k`'s case: its own tag again for a repeated field,
        then the tag of the field after it, or the end of the message. */
    method ExpectNext(k: nat, input: CodedInputStream) returns (stop: bool, next: Target)
      requires Valid() && WellFormed(layout) && input.Open() && k < |layout.fields|
      modifies input
      ensures input.Valid() && input.limit == old(input.limit) && old(input.pos) <= input.pos
      ensures next.Known? ==> next.index < |layout.fields|
      ensures stop ==> EndsWith(Parse(layout, Value(), old(input.Rest())), Value(), input, true)
      ensures !stop ==> input.Open()
      ensures !stop ==> Parse(layout, Value(), old(input.Rest())) == Remaining(layout, Value(), next, input.Rest())
    {
      stop, next := false, Uninterpreted;
      if !layout.fields[k].Single? {
        next := ExpectField(k, input);
      }
      if next == Uninterpreted {
        if k + 1 < |layout.fields| {
          next := ExpectField(k + 1, input);
        } else {
          stop := input.ExpectAtEnd();
        }
      }
    }

    method ExpectField(k: nat, input: CodedInputStream) returns (next: Target)
      requires Valid() && WellFormed(layout) && input.Valid() && k < |layout.fields|
      modifies input`pos
      ensures input.Valid() && old(input.pos) <= input.pos
      ensures next == Known(k) || (next == Uninterpreted && input.Rest() == old(input.Rest()))
      ensures Parse(layout, Value(), old(input.Rest())) == Remaining(layout, Value(), next, input.Rest())
    {
      PrimaryTagByte(layout, k);
      ghost var s := input.Rest();
      var yes := input.ExpectTag(PrimaryTag(layout.fields[k]));
      next := Uninterpreted;
      if yes {
        ExpectedTag(layout, Value(), k, s);
        next := Known(k);
      }
    }

    /** The label `parse_x` of field `k`: its value in the form the serializer writes. */
    method ParseField(k: nat, input: CodedInputStream) returns (ok: bool)
      requires Valid() && WellFormed(layout) && input.Open() && k < |layout.fields|
      modifies this, input
      ensures Valid() && fresh(Repr - old(Repr)) && cachedSize == old(cachedSize)
      ensures input.Valid() && (ok ==> input.Open() && input.limit == old(input.limit) && old(input.pos) < input.pos)
      ensures AfterTag(layout, old(Value()), PrimaryTag(layout.fields[k]), old(input.Rest()))
           == GoesOn(layout, Value(), input.Rest(), ok)
      decreases layout, 4
    {
      match layout.fields[k]
      case Single(_, _, _) => ok := ReadPrimitive(k, input);
      case Repeated(_, _) => ok := ReadRepeatedPrimitive(k, input);
      case SubMessages(_, _) => ok := ReadMessage(k, input);
    }

    method ReadPrimitive(k: nat, input: CodedInputStream) returns (ok: bool)
      requires Valid() && WellFormed(layout) && input.Valid() && k < |layout.fields| && layout.fields[k].Single?
      modifies this`hasBits, this`scalars, input`pos
      ensures Valid()
      ensures input.Valid() && (ok ==> input.limit == old(input.limit) && old(input.pos) < input.pos)
      ensures AfterTag(layout, old(Value()), PrimaryTag(layout.fields[k]), old(input.Rest()))
           == GoesOn(layout, Value(), input.Rest(), ok)
    {
      VarintStep(layout, Value(), k, input.Rest());
      var v: nat;
      ok, v := input.ReadVarint64();
      if ok {
        SetScalarField(k, FromWire(layout.fields[k].ty, v));
      }
    }

    /** One value, then more of them while the stream already shows the same tag; when to
        stop looking is left to the capacity of the list. */
    method ReadRepeatedPrimitive(k: nat, input: CodedInputStream) returns (ok: bool)
      requires Valid() && WellFormed(layout) && input.Valid() && k < |layout.fields| && layout.fields[k].Repeated?
      modifies this`ints, input`pos
      ensures Valid()
      ensures input.Valid() && (ok ==> old(input.pos) < input.pos)
      ensures AfterTag(layout, old(Value()), PrimaryTag(layout.fields[k]), old(input.Rest()))
           == GoesOn(layout, Value(), input.Rest(), ok)
    {
      ghost var goal := AfterTag(layout, Value(), PrimaryTag(layout.fields[k]), input.Rest());
      ok := ReadOne(k, input);
      var reserved: bool := *;
      while ok && reserved
        invariant Valid() && input.Valid()
        invariant ok ==> old(input.pos) < input.pos
        invariant goal == GoesOn(layout, Value(), input.Rest(), ok)
        decreases ok, input.limit - input.pos
      {
        var found;
        ok, found := ReadAnother(k, input);
        if !found {
          break;
        }
        reserved := *;
      }
    }

    /** A further value, if the stream shows the tag of one. */
    method ReadAnother(k: nat, input: CodedInputStream) returns (ok: bool, found: bool)
      requires Valid() && WellFormed(layout) && input.Valid() && k < |layout.fields| && layout.fields[k].Repeated?
      modifies this`ints, input`pos
      ensures Valid()
      ensures input.Valid() && old(input.pos) <= input.pos && (found && ok ==> old(input.pos) < input.pos)
      ensures !found ==> ok
      ensures Parse(layout, old(Value()), old(input.Rest())) == GoesOn(layout, Value(), input.Rest(), ok)
    {
      var next := ExpectField(k, input);
      found := next.Known?;
      ok := true;
      if found {
        ok := ReadOne(k, input);
      }
    }

    method ReadOne(k: nat, input: CodedInputStream) returns (ok: bool)
      requires Valid() && WellFormed(layout) && input.Valid() && k < |layout.fields| && layout.fields[k].Repeated?
      modifies this`ints, input`pos
      ensures Valid()
      ensures input.Valid() && old(input.pos) <= input.pos && (ok ==> old(input.pos) < input.pos)
      ensures AfterTag(layout, old(Value()), PrimaryTag(layout.fields[k]), old(input.Rest()))
           == GoesOn(layout, Value(), input.Rest(), ok)
    {
      VarintStep(layout, Value(), k, input.Rest());
      var v: nat;
      ok, v := input.ReadVarint64();
      if ok {
        AddInt(k, FromWire(layout.fields[k].ty, v));
      }
    }

    /** ReadPackedPrimitive: varints up to the end of the block. */
    method ParsePacked(k: nat, input: CodedInputStream) returns (ok: bool)
      requires Valid() && WellFormed(layout) && input.Open() && k < |layout.fields| && layout.fields[k].Repeated?
      modifies this`ints, input
      ensures Valid()
      ensures input.Valid() && (ok ==> input.Open() && input.limit == old(input.limit) && old(input.pos) < input.pos)
      ensures AfterTag(layout, old(Value()), MakeTag(layout.fields[k].number, WT_LENGTH_DELIMITED), old(input.Rest()))
           == GoesOn(layout, Value(), input.Rest(), ok)
    {
      DelimitedStep(layout, Value(), k, input.Rest());
      ok := ReadPackedBlock(k, input);
    }

    method ReadPackedBlock(k: nat, input: CodedInputStream) returns (ok: bool)
      requires Valid() && input.Open() && k < |layout.fields| && layout.fields[k].Repeated?
      modifies this`ints, input
      ensures Valid()
      ensures input.Valid() && (ok ==> input.Open() && input.limit == old(input.limit) && old(input.pos) < input.pos)
      ensures Unpacked(layout.fields[k].ty, old(Value()), k, old(ints)[k], old(input.Rest()), Value(), input, ok)
    {
      var oldLimit: nat;
      ok, oldLimit := input.PushLength();
      if !ok {
        return;
      }
      ghost var after := input.buf[input.limit..oldLimit];
      ok := ReadPackedValues(k, input);
      if ok {
        input.PopLimit(oldLimit);
        assert input.Rest() == after;
      }
    }

    method ReadPackedValues(k: nat, input: CodedInputStream) returns (ok: bool)
      requires Valid() && input.Valid() && k < |layout.fields| && layout.fields[k].Repeated?
      modifies this`ints, input`pos
      ensures Valid() && input.Valid() && old(input.pos) <= input.pos
      ensures ok ==> input.pos == input.limit
      ensures var r := ReadPacked(layout.fields[k].ty, old(input.Rest()));
        && ok == r.ok
        && Value() == old(Value()).(slots := old(Value()).slots[k := Ints(old(ints)[k] + r.vals)])
    {
      var ty := layout.fields[k].ty;
      ghost var data, got, m := input.Rest(), [], Value();
      ok := true;
      assert m.slots[k := Ints(ints[k] + [])] == m.slots by { assert ints[k] + [] == ints[k]; }
      while input.pos < input.limit
        invariant ok && Valid() && input.Valid() && old(input.pos) <= input.pos
        invariant |ints| == |old(ints)| && ints[k] == old(ints)[k] + got
        invariant Value() == m.(slots := m.slots[k := Ints(old(ints)[k] + got)])
        invariant ReadPacked(ty, data)
               == Packed(got + ReadPacked(ty, input.Rest()).vals, ReadPacked(ty, input.Rest()).ok)
        decreases input.limit - input.pos
      {
        PackedStep(ty, input.Rest(), got, data);
        var v: nat;
        ok, v := input.ReadVarint64();
        if !ok {
          return;
        }
        AddPacked(k, FromWire(ty, v), old(ints)[k], got, m);
        got := got + [FromWire(ty, v)];
      }
      assert got + [] == got;
    }

    /** One more value of the block, behind those `got` before it. */
    method AddPacked(k: nat, v: int, ghost was: seq<int>, ghost got: seq<int>, ghost m: Msg)
      requires Valid() && k < |layout.fields| && layout.fields[k].Repeated? && InRange(layout.fields[k].ty, v)
      requires k < |m.slots| && ints[k] == was + got && Value() == m.(slots := m.slots[k := Ints(was + got)])
      modifies this`ints
      ensures Valid() && |ints| == |old(ints)| && ints[k] == was + (got + [v])
      ensures Value() == m.(slots := m.slots[k := Ints(was + (got + [v]))])
    {
      AddInt(k, v);
      AppendAssoc(was, got, [v]);
    }

    /** SkipField: the record is kept, decoded, among the unknown fields. */
    method SkipField(tag: nat, input: CodedInputStream) returns (ok: bool)
      requires Valid() && input.Valid() && 0 < tag < TWO_32 && tag % 8 != WT_END_GROUP
      requires Route(layout, tag / 8, tag % 8) == Uninterpreted
      modifies this`unknown, input`pos
      ensures Valid() && input.Valid() && old(input.pos) <= input.pos
      ensures AfterTag(layout, old(Value()), tag, old(input.Rest())) == GoesOn(layout, Value(), input.Rest(), ok)
    {
      UnknownStep(layout, Value(), tag, input.Rest());
      SkippedIsValid(tag, input.Rest());
      var skipped;
      ok, skipped := input.SkipField(tag);
      AddUnknown(skipped);
    }

    method AddUnknown(recs: seq<Rec>)
      requires Valid() && UnknownOk(layout, recs)
      modifies this`unknown
      ensures Valid() && Value() == old(Value()).(unknown := old(Value()).unknown + recs)
    {
      ghost var c, m := Own(), Value();
      AppendUnknown(layout, c, recs);
      unknown := unknown + recs;
      assert Own() == c.(unknown := c.unknown + recs);
      assert Value().slots == m.slots;
    }

    /** ReadMessageNoVirtual(input, add_x()): the element is added first, then filled from
        a length-delimited stretch that must end exactly where its parse does. */
    method ReadMessage(k: nat, input: CodedInputStream) returns (ok: bool)
      requires Valid() && WellFormed(layout) && input.Open() && k < |layout.fields| && layout.fields[k].SubMessages?
      modifies this`subs, this`Repr, input
      ensures Valid() && fresh(Repr - old(Repr))
      ensures input.Valid() && (ok ==> input.Open() && input.limit == old(input.limit) && old(input.pos) < input.pos)
      ensures AfterTag(layout, old(Value()), PrimaryTag(layout.fields[k]), old(input.Rest()))
           == GoesOn(layout, Value(), input.Rest(), ok)
      decreases layout, 3
    {
      DelimitedStep(layout, Value(), k, input.Rest());
      ElementClass(layout, k);
      ElementIsSmaller(layout, layout.fields[k].sub);
      ghost var v;
      ok, v := ReadElement(k, input);
    }

    /** The element's own part of that: `v` is what its parse leaves in it. */
    method ReadElement(k: nat, input: CodedInputStream) returns (ok: bool, ghost v: Msg)
      requires Valid() && OneList(layout) && input.Open() && k < |layout.fields| && layout.fields[k].SubMessages?
      requires WellFormed(layout.fields[k].sub)
      modifies this`subs, this`Repr, input
      ensures Valid() && fresh(Repr - old(Repr))
      ensures input.Valid() && (ok ==> input.Open() && input.limit == old(input.limit) && old(input.pos) < input.pos)
      ensures Value() == old(Value()).(slots := old(Value()).slots[k := Msgs(old(SubValues()) + [v])])
      ensures old(Value()).slots[k] == Msgs(old(SubValues()))
      ensures Filled(layout.fields[k].sub, Empty(layout.fields[k].sub), old(input.Rest()), v, input, ok)
      decreases layout, 2
    {
      ghost var vs, was, R := SubValues(), subs, Below();
      var e;
      ok, e := AddAndFill(layout.fields[k].sub, input);
      v := e.Value();
      OwnLast(k, was, R, e, vs);
    }

    /** The new element is in the list before anything is read into it. */
    method AddAndFill(sub: Layout, input: CodedInputStream) returns (ok: bool, e: Message)
      requires WellFormed(sub) && input.Open()
      modifies this`subs, input
      ensures e.Valid() && fresh(e.Repr) && e.layout == sub && subs == old(subs) + [e]
      ensures input.Valid() && (ok ==> input.Open() && input.limit == old(input.limit) && old(input.pos) < input.pos)
      ensures Filled(sub, Empty(sub), old(input.Rest()), e.Value(), input, ok)
      decreases sub, 7
    {
      e := new Message(sub);
      subs := subs + [e];
      ok := FillElement(e, input);
    }

    /** ReadMessageNoVirtual: a length prefix, a parse of just that stretch, and the check
        that the parse stopped at its end. */
    static method FillElement(e: Message, input: CodedInputStream) returns (ok: bool)
      requires e.Valid() && WellFormed(e.layout) && input.Open()
      modifies e, input
      ensures e.Valid() && fresh(e.Repr - old(e.Repr))
      ensures input.Valid() && (ok ==> input.Open() && input.limit == old(input.limit) && old(input.pos) < input.pos)
      ensures Filled(e.layout, old(e.Value()), old(input.Rest()), e.Value(), input, ok)
      decreases e.layout, 6, 1
    {
      var oldLimit: nat;
      ok, oldLimit := input.PushLength();
      if ok {
        ok := FillStretch(e, input, oldLimit);
      }
    }

    /** The parse of the stretch, and back to the limit around it. */
    static method FillStretch(e: Message, input: CodedInputStream, oldLimit: nat) returns (ok: bool)
      requires e.Valid() && WellFormed(e.layout) && input.Open() && input.limit <= oldLimit <= |input.buf|
      modifies e, input
      ensures e.Valid() && fresh(e.Repr - old(e.Repr))
      ensures input.Valid() && (ok ==> input.Open() && input.limit == oldLimit && old(input.pos) <= input.pos)
      ensures var p := Parse(e.layout, old(e.Value()), old(input.Rest()));
        && e.Value() == p.msg
        && (ok <==> p.outcome == Complete)
        && (ok ==> input.Rest() == input.buf[old(input.limit)..oldLimit])
      decreases e.layout, 6, 0
    {
      ok := e.MergePartialFromCodedStream(input);
      ok := ok && input.legitimateEnd;
      if ok {
        input.PopLimit(oldLimit);
      }
    }

    /** ParseFromArray: clear, merge from the bytes, and insist that all of them were used. */
    method ParseFromArray(data: seq<byte>) returns (ok: bool)
      requires Valid() && WellFormed(layout)
      modifies this
      ensures Valid() && fresh(Repr - old(Repr))
      ensures Value() == Parse(layout, Empty(layout), data).msg
      ensures ok <==> Parse(layout, Empty(layout), data).outcome == Complete
    {
      Clear();
      var input := new CodedInputStream(data);
      ok := MergePartialFromCodedStream(input);
      ok := ok && input.legitimateEnd;
    }

    /** SerializeToArray: the encoding at the front of `buffer` if it takes at most `limit`
        bytes, and otherwise nothing at all. */
    method SerializeToArray(buffer: array<byte>, limit: nat) returns (ok: bool)
      requires Valid() && WellFormed(layout) && limit <= buffer.Length && limit < TWO_31
      modifies Repr`cachedSize, buffer
      ensures MsgOk(layout, Value()) && (ok <==> Size(layout, Value()) <= limit)
      ensures ok ==> |Serialize(layout, Value())| == Size(layout, Value())
      ensures ok ==> buffer[..] == Placed(old(buffer[..]), 0, Serialize(layout, Value()))
      ensures !ok ==> buffer[..] == old(buffer[..])
    {
      var size := ByteSize();
      ok := size <= limit;
      if ok {
        SizeExact(layout, Value());
        var end := SerializeWithCachedSizesToArray(buffer, 0);
      }
    }
  }
}
