/** The coded streams the generated code reads from and writes to.  The input is a
    byte sequence with a position and a limit; nothing past the limit is ever read. */
module Streams {
  import opened Wire
  import opened Records

  class CodedInputStream {
    const buf: seq<byte>
    var pos: nat
    var limit: nat
    var legitimateEnd: bool   // a tag was looked for at the limit, and the limit not moved since

    ghost predicate Valid()
      reads this
    {
      pos <= limit <= |buf|
    }

    /** No end of a message has been reported at this point of the stream. */
    ghost predicate Open()
      reads this
    {
      Valid() && !legitimateEnd
    }

    /** The bytes up to the current limit that are still to be read. */
    ghost function Rest(): seq<byte>
      reads this
      requires Valid()
    {
      buf[pos..limit]
    }

    constructor (data: seq<byte>)
      ensures Open() && buf == data && pos == 0 && limit == |data|
      ensures Rest() == data
    {
      buf := data;
      pos, limit, legitimateEnd := 0, |data|, false;
    }

    /** 0 at the limit, on a zero tag and on a tag that is no varint. */
    method ReadTag() returns (tag: nat)
      requires Valid()
      modifies this`pos, this`legitimateEnd
      ensures Valid() && old(pos) <= pos
      ensures legitimateEnd <==> old(legitimateEnd) || old(Rest()) == []
      ensures match ReadVarint32(old(Rest()))
              case NoVarint => tag == 0 && pos == old(pos)
              case Varint(t, n) => tag == t && Rest() == old(Rest())[n..]
    {
      if pos == limit {
        legitimateEnd := true;
      }
      match ReadVarint32(buf[pos..limit])
      case NoVarint => tag := 0;
      case Varint(t, n) =>
        tag := t;
        assert buf[pos..limit][n..] == buf[pos + n..limit];
        pos := pos + n;
    }

    method ReadVarint64() returns (ok: bool, v: nat)
      requires Valid()
      modifies this`pos
      ensures Valid() && old(pos) <= pos
      ensures match Wire.ReadVarint64(old(Rest()))
              case NoVarint => !ok && pos == old(pos)
              case Varint(u, n) => ok && v == u && Rest() == old(Rest())[n..]
    {
      match Wire.ReadVarint64(buf[pos..limit])
      case NoVarint => ok, v := false, 0;
      case Varint(u, n) =>
        ok, v := true, u;
        assert buf[pos..limit][n..] == buf[pos + n..limit];
        pos := pos + n;
    }

    /** A length prefix, and PushLimit: the limit moves to where the prefix says, or stays
        where it is when that is further, or no length an `int` can hold. */
    method PushLength() returns (ok: bool, oldLimit: nat)
      requires Valid()
      modifies this`pos, this`limit
      ensures Valid() && oldLimit == old(limit) && old(pos) <= pos <= limit <= oldLimit
      ensures ok <==> Delimited(old(Rest())).Stretch?
      ensures !ok ==> pos == old(pos) && limit == old(limit)
      ensures ok ==> old(pos) < pos
      ensures ok ==> Stretch(Rest(), buf[limit..oldLimit]) == Delimited(old(Rest()))
    {
      oldLimit := limit;
      ok := false;
      var s := buf[pos..limit];
      match ReadVarint32(s)
      case NoVarint =>
      case Varint(len, n) =>
        ok := true;
        assert s[n..] == buf[pos + n..limit];
        pos := pos + n;
        if len < TWO_31 && len <= limit - pos {
          assert s[n..n + len] == buf[pos..pos + len];
          assert s[n + len..] == buf[pos + len..limit];
          limit := pos + len;
        }
    }

    method PopLimit(oldLimit: nat)
      requires Valid() && limit <= oldLimit <= |buf|
      modifies this`limit, this`legitimateEnd
      ensures Open() && limit == oldLimit
    {
      limit := oldLimit;
      legitimateEnd := false;
    }

    /** A hint: it may say no at any time, but a yes has consumed exactly that tag. */
    method ExpectTag(expected: nat) returns (yes: bool)
      requires Valid() && expected < 128
      modifies this`pos
      ensures Valid() && old(pos) <= pos
      ensures yes ==> old(Rest()) != [] && old(Rest())[0] == expected && Rest() == old(Rest())[1..]
      ensures !yes ==> pos == old(pos)
    {
      var buffered: bool := *;
      yes := buffered && pos < limit && buf[pos] == expected;
      if yes {
        assert buf[pos..limit][1..] == buf[pos + 1..limit];
        pos := pos + 1;
      }
    }

    /** A hint: a yes means the input really is at its limit. */
    method ExpectAtEnd() returns (yes: bool)
      requires Valid()
      modifies this`legitimateEnd
      ensures yes ==> Rest() == [] && legitimateEnd
      ensures !yes ==> legitimateEnd == old(legitimateEnd)
    {
      var buffered: bool := *;
      yes := buffered && pos == limit;
      if yes {
        legitimateEnd := true;
      }
    }

    /** SkipField: the payload after an uninterpreted tag, decoded into what goes to the
        unknown-field set: the record, or the part of it that is there. */
    method SkipField(tag: nat) returns (ok: bool, skipped: seq<Rec>)
      requires Valid()
      modifies this`pos
      ensures Valid() && old(pos) <= pos
      ensures skipped == Skipped(tag, old(Rest()))
      ensures ok <==> ReadPayload(tag / 8, tag % 8, old(Rest())).GotPayload?
      ensures ok ==> Rest() == old(Rest())[ReadPayload(tag / 8, tag % 8, old(Rest())).len..]
    {
      match ReadPayload(tag / 8, tag % 8, buf[pos..limit])
      case NoPayload => ok, skipped := false, [];
      case PartPayload(kept, _) => ok, skipped := false, [Rec(tag / 8, kept)];
      case GotPayload(p, n) =>
        ok, skipped := true, [Rec(tag / 8, p)];
        assert buf[pos..limit][n..] == buf[pos + n..limit];
        pos := pos + n;
    }
  }

  class CodedOutputStream {
    var data: seq<byte>

    constructor ()
      ensures data == []
    {
      data := [];
    }

    method WriteVarint(v: nat)
      modifies this
      ensures data == old(data) + EncodeVarint(v)
    {
      data := data + EncodeVarint(v);
    }

    method WriteRaw(bytes: seq<byte>)
      modifies this
      ensures data == old(data) + bytes
    {
      data := data + bytes;
    }
  }

  // ----------------------------------------------------------- output to arrays

  /** `was` with `bytes` written over it from `start` on. */
  function Placed(was: seq<byte>, start: nat, bytes: seq<byte>): (r: seq<byte>)
    requires start + |bytes| <= |was|
    ensures |r| == |was|
  {
    was[..start] + bytes + was[start + |bytes|..]
  }

  lemma NothingPlaced(was: seq<byte>, start: nat)
    requires start <= |was|
    ensures Placed(was, start, []) == was
  {
  }

  /** Writing `a` and then `b` behind it is writing `a + b`. */
  lemma PlacedTwice(was: seq<byte>, start: nat, a: seq<byte>, b: seq<byte>)
    requires start + |a| + |b| <= |was|
    ensures Placed(Placed(was, start, a), start + |a|, b) == Placed(was, start, a + b)
  {
    var mid := Placed(was, start, a);
    assert mid[..start + |a|] == was[..start] + a;
    assert mid[start + |a| + |b|..] == was[start + |a| + |b|..];
  }

  method WriteToArray(target: array<byte>, start: nat, bytes: seq<byte>) returns (end: nat)
    requires start + |bytes| <= target.Length
    modifies target
    ensures end == start + |bytes| && target[..] == Placed(old(target[..]), start, bytes)
  {
    ghost var was := target[..];
    end := start;
    for i := 0 to |bytes|
      invariant end == start + i
      invariant target[..] == Placed(was, start, bytes[..i])
    {
      target[end] := bytes[i];
      assert target[..] == Placed(was, start, bytes[..i])[end := bytes[i]];
      assert target[..] == Placed(was, start, bytes[..i + 1]);
      end := end + 1;
    }
    assert bytes[..|bytes|] == bytes;
  }
}
