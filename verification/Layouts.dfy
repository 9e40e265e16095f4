/** The layout of a generated message class: its fields in declaration order, the
    has-bit of each optional field, and the guarded groups of has-bits that Clear,
    ByteSize and MergeFrom test before they look at single bits. */
module Layouts {
  import opened Wire
  import opened Records

  datatype Field =
    | Single(number: nat, ty: IntType, bit: nat)   // optional integer and its has-bit
    | Repeated(number: nat, ty: IntType)           // repeated integer
    | SubMessages(number: nat, sub: Layout)        // repeated message

  /** `if (_has_bits_[0] & (0xffu << shift))` around the fields with the given indices. */
  datatype Guard = Guard(shift: nat, members: seq<nat>)

  datatype Layout = Layout(fields: seq<Field>, guards: seq<Guard>)

  /** Indices of the optional fields among the first `n`, in order. */
  function Singles(fields: seq<Field>, n: nat): seq<nat>
    requires n <= |fields|
  {
    if n == 0 then []
    else if fields[n - 1].Single? then Singles(fields, n - 1) + [n - 1]
    else Singles(fields, n - 1)
  }

  /** The members of the guards from index `g` on, in the order they are visited. */
  function Members(guards: seq<Guard>, g: nat): seq<nat>
    requires g <= |guards|
    decreases |guards| - g
  {
    if g == |guards| then [] else guards[g].members + Members(guards, g + 1)
  }

  predicate GuardCovers(fields: seq<Field>, g: Guard)
  {
    forall i :: 0 <= i < |g.members| ==>
      && g.members[i] < |fields|
      && fields[g.members[i]].Single?
      && g.shift <= fields[g.members[i]].bit < g.shift + 8
  }

  // The conditions are stated index by index through the predicates named `...At` and
  // `...Apart`, so that a proof picks the indices it needs by naming them.

  predicate NumberAt(d: Layout, k: nat)
    requires k < |d.fields|
    decreases d, 0
  {
    1 <= d.fields[k].number < 16 && (d.fields[k].SubMessages? ==> Numbered(d.fields[k].sub))
  }

  predicate NumbersApart(d: Layout, j: nat, k: nat)
    requires j < |d.fields| && k < |d.fields|
  {
    d.fields[j].number < d.fields[k].number
  }

  /** Field numbers increase and stay below 16, so numbers are distinct and every
      known tag is one byte, in nested layouts too. */
  predicate Numbered(d: Layout)
    decreases d, 1
  {
    && (forall k :: 0 <= k < |d.fields| ==> NumberAt(d, k))
    && (forall j, k :: 0 <= j < k < |d.fields| ==> NumbersApart(d, j, k))
  }

  predicate HasBitAt(d: Layout, k: nat)
    requires k < |d.fields|
    decreases d, 0
  {
    && (d.fields[k].Single? ==> d.fields[k].bit < 32)
    && (d.fields[k].SubMessages? ==> Guarded(d.fields[k].sub))
  }

  predicate BitsApart(d: Layout, j: nat, k: nat)
    requires j < |d.fields| && k < |d.fields|
  {
    d.fields[j].Single? && d.fields[k].Single? ==> d.fields[j].bit != d.fields[k].bit
  }

  predicate GuardAt(d: Layout, g: nat)
    requires g < |d.guards|
  {
    GuardCovers(d.fields, d.guards[g])
  }

  /** Has-bits are distinct bits of one 32-bit word, and each optional field sits in
      exactly one group, in order, whose mask reaches its bit; in nested layouts too. */
  predicate Guarded(d: Layout)
    decreases d, 1
  {
    && (forall k :: 0 <= k < |d.fields| ==> HasBitAt(d, k))
    && (forall j, k :: 0 <= j < k < |d.fields| ==> BitsApart(d, j, k))
    && (forall g :: 0 <= g < |d.guards| ==> GuardAt(d, g))
    && Members(d.guards, 0) == Singles(d.fields, |d.fields|)
  }

  predicate ListAt(d: Layout, k: nat)
    requires k < |d.fields|
    decreases d, 0
  {
    d.fields[k].SubMessages? ==> OneList(d.fields[k].sub)
  }

  predicate ListsApart(d: Layout, j: nat, k: nat)
    requires j < |d.fields| && k < |d.fields|
  {
    !(d.fields[j].SubMessages? && d.fields[k].SubMessages?)
  }

  /** No generated class of these games has two repeated message fields, so its
      objects can keep their submessages in one list. */
  predicate OneList(d: Layout)
    decreases d, 1
  {
    && (forall k :: 0 <= k < |d.fields| ==> ListAt(d, k))
    && (forall j, k :: 0 <= j < k < |d.fields| ==> ListsApart(d, j, k))
  }

  predicate HasList(d: Layout)
  {
    exists k :: 0 <= k < |d.fields| && d.fields[k].SubMessages?
  }

  predicate WellFormed(d: Layout)
  {
    Numbered(d) && Guarded(d) && OneList(d)
  }

  // ----------------------------------------------------------------- dispatch

  /** Which case of the parser's switch handles a record. */
  datatype Target = Uninterpreted | Known(index: nat)

  /** The wire types a field's case accepts; repeated integers accept both the
      one-value form and the packed form. */
  predicate Accepts(f: Field, wireType: nat)
  {
    match f
    case Single(_, _, _) => wireType == WT_VARINT
    case Repeated(_, _) => wireType == WT_VARINT || wireType == WT_LENGTH_DELIMITED
    case SubMessages(_, _) => wireType == WT_LENGTH_DELIMITED
  }

  function FieldIndex(fields: seq<Field>, number: nat, from: nat): (t: Target)
    requires from <= |fields|
    ensures t.Known? ==> from <= t.index < |fields| && fields[t.index].number == number
    ensures t.Uninterpreted? ==> forall k :: from <= k < |fields| ==> fields[k].number != number
    decreases |fields| - from
  {
    if from == |fields| then Uninterpreted
    else if fields[from].number == number then Known(from)
    else FieldIndex(fields, number, from + 1)
  }

  function Route(d: Layout, number: nat, wireType: nat): (t: Target)
    ensures t.Known? ==> t.index < |d.fields| && d.fields[t.index].number == number
                         && Accepts(d.fields[t.index], wireType)
  {
    match FieldIndex(d.fields, number, 0)
    case Uninterpreted => Uninterpreted
    case Known(k) => if Accepts(d.fields[k], wireType) then Known(k) else Uninterpreted
  }

  function RouteRec(d: Layout, r: Rec): (t: Target)
    ensures t.Known? ==> t.index < |d.fields| && d.fields[t.index].number == r.number
                         && Accepts(d.fields[t.index], WireType(r.payload))
  {
    Route(d, r.number, WireType(r.payload))
  }

  /** Distinct numbers make the dispatch unambiguous. */
  lemma RouteIsUnique(d: Layout, k: nat, wireType: nat)
    requires Numbered(d) && k < |d.fields| && Accepts(d.fields[k], wireType)
    ensures Route(d, d.fields[k].number, wireType) == Known(k)
  {
    var t := FieldIndex(d.fields, d.fields[k].number, 0);
    assert t.Known?;
    assert t.index < k ==> NumbersApart(d, t.index, k);
    assert k < t.index ==> NumbersApart(d, k, t.index);
  }
}
