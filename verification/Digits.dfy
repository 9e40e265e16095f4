/** What the bytes of a varint are, digit by digit, and which numbers they stand for: the
    low seven bits first, the top bit set on every byte but the last. */
module Digits {
  import opened Wire

  function Power(i: nat): (p: nat)
    ensures p > 0
  {
    if i == 0 then 1 else 128 * Power(i - 1)
  }

  /** The sum of the seven-bit digits, each times its power of 128. */
  function Sum(s: seq<byte>): nat
  {
    if s == [] then 0 else Sum(s[..|s| - 1]) + s[|s| - 1] % 128 * Power(|s| - 1)
  }

  /** The shape of one varint: the top bit says whether another byte follows. */
  predicate IsVarint(s: seq<byte>)
  {
    s != [] && forall i :: 0 <= i < |s| ==> (s[i] >= 128 <==> i < |s| - 1)
  }

  // ------------------------------------------------------------------ writing

  lemma DivideTwice(n: nat, p: nat)
    requires p > 0
    ensures n / 128 / p == n / (128 * p)
  {
    var m := n / 128;
    Quotient(m, p, m / p);
    Distribute(p, m / p, m - p * (m / p));
    Quotient(n, 128 * p, m / p);
  }

  lemma Distribute(p: nat, q: nat, y: int)
    ensures 128 * (p * q + y) == 128 * p * q + 128 * y
  {
  }

  /** The quotient is the one number that leaves a remainder below the divisor. */
  lemma Quotient(n: nat, p: nat, q: nat)
    requires p > 0
    ensures 0 <= n - p * q < p <==> n / p == q
  {
    var k := n / p;
    assert n == p * k + n % p;
    if q < k {
      Product(p, k - q);
      Apart(p, q, k);
    } else if k < q {
      Product(p, q - k);
      Apart(p, k, q);
    }
  }

  lemma Apart(p: nat, a: nat, b: nat)
    ensures p * b == p * a + p * (b - a)
  {
  }

  lemma Product(p: nat, k: nat)
    requires k > 0
    ensures p * k >= p
  {
    assert p * k == p + p * (k - 1);
  }

  /** Byte `i` of a written number holds digit `i` of it in base 128. */
  lemma {:induction false} WrittenDigits(n: nat, i: nat)
    requires i < |EncodeVarint(n)|
    ensures EncodeVarint(n)[i] >= 128 <==> i < |EncodeVarint(n)| - 1
    ensures EncodeVarint(n)[i] % 128 == n / Power(i) % 128
    decreases i
  {
    if i > 0 {
      WrittenDigits(n / 128, i - 1);
      DivideTwice(n, Power(i - 1));
      assert EncodeVarint(n)[i] == EncodeVarint(n / 128)[i - 1];
    } else {
      assert n / Power(0) == n;
    }
  }

  lemma {:induction false} WrittenTotal(n: nat)
    ensures Sum(EncodeVarint(n)) == n
    decreases n
  {
    if n < 128 {
      SumOne(n);
    } else {
      WrittenTotal(n / 128);
      SumFront(n % 128 + 128, EncodeVarint(n / 128));
    }
  }

  lemma SumOne(b: byte)
    ensures Sum([b]) == b % 128
  {
    assert [b][..0] == [];
    assert Power(0) == 1;
  }

  lemma {:induction false} NoZeroLast(n: nat)
    ensures var s := EncodeVarint(n);
      |s| > 1 ==> s[|s| - 1] != 0
    decreases n
  {
    if n >= 128 {
      NoZeroLast(n / 128);
    }
  }

  /** A written number is one varint, the shortest for it: no zero digit comes last. */
  lemma WrittenSum(n: nat)
    ensures var s := EncodeVarint(n);
      IsVarint(s) && Sum(s) == n && (|s| > 1 ==> s[|s| - 1] != 0)
  {
    WrittenTotal(n);
    NoZeroLast(n);
    forall i | 0 <= i < |EncodeVarint(n)|
      ensures EncodeVarint(n)[i] >= 128 <==> i < |EncodeVarint(n)| - 1
    {
      WrittenDigits(n, i);
    }
  }

  // ------------------------------------------------------------------ reading

  lemma {:induction false} SumFront(b: byte, s: seq<byte>)
    ensures Sum([b] + s) == b % 128 + 128 * Sum(s)
    decreases |s|
  {
    var t := [b] + s;
    if s == [] {
      assert t[..0] == [];
      assert Power(0) == 1;
    } else {
      var init := s[..|s| - 1];
      assert t[..|t| - 1] == [b] + init;
      SumFront(b, init);
      LastDigit(s[|s| - 1] % 128, Power(|s| - 1), Sum(init));
    }
  }

  lemma LastDigit(x: nat, p: nat, sum: nat)
    ensures 128 * sum + x * (128 * p) == 128 * (sum + x * p)
  {
  }

  /** A varint is read as the sum of its digits, whatever follows it. */
  lemma {:induction false} ReadsSum(s: seq<byte>, t: seq<byte>, max: nat)
    requires IsVarint(s) && |s| <= max
    ensures ReadVarintUpTo(s + t, max) == Varint(Sum(s), |s|)
    decreases |s|
  {
    assert s == [s[0]] + s[1..];
    SumFront(s[0], s[1..]);
    if |s| > 1 {
      assert (s + t)[1..] == s[1..] + t;
      ReadsSum(s[1..], t, max - 1);
    }
  }

  /** What is read is a varint. */
  lemma {:induction false} ReadsVarints(s: seq<byte>, max: nat)
    ensures var r := ReadVarintUpTo(s, max);
      r.Varint? ==> IsVarint(s[..r.len]) && r.len <= max
    decreases max
  {
    var r := ReadVarintUpTo(s, max);
    if r.Varint? && s[0] >= 128 {
      ReadsVarints(s[1..], max - 1);
      assert s[..r.len] == [s[0]] + s[1..][..r.len - 1];
    }
  }

  /** The readers accept exactly the varints of up to ten bytes, over-long ones included,
      and give the sum of the digits, cut to 64 or to 32 bits. */
  lemma VarintValue(s: seq<byte>, t: seq<byte>)
    requires IsVarint(s) && |s| <= 10
    ensures ReadVarint64(s + t) == Varint(Sum(s) % 0x1_0000_0000_0000_0000, |s|)
    ensures ReadVarint32(s + t) == Varint(Sum(s) % 0x1_0000_0000, |s|)
  {
    ReadsSum(s, t, MAX_VARINT_BYTES);
    CutTwice(Sum(s));
  }

  lemma CutTwice(n: nat)
    ensures n % 0x1_0000_0000_0000_0000 % 0x1_0000_0000 == n % 0x1_0000_0000
  {
  }

  lemma VarintAccepted(s: seq<byte>)
    ensures ReadVarint64(s).Varint? <==> exists n :: 1 <= n <= 10 && n <= |s| && IsVarint(s[..n])
    ensures ReadVarint32(s).Varint? <==> ReadVarint64(s).Varint?
    ensures ReadVarint64(s).Varint? ==> ReadVarint64(s).len <= 10 && IsVarint(s[..ReadVarint64(s).len])
  {
    ReadsVarints(s, MAX_VARINT_BYTES);
    if n :| 1 <= n <= 10 && n <= |s| && IsVarint(s[..n]) {
      assert s[..n] + s[n..] == s;
      ReadsSum(s[..n], s[n..], MAX_VARINT_BYTES);
    }
  }

  // -------------------------------------------------------------------- signs

  /** What is written for a value is the value modulo 2^64: 32-bit integers are
      sign-extended, and go out as the 64-bit integer they equal. */
  lemma WireIsCongruent(ty: IntType, v: int)
    requires InRange(ty, v)
    ensures 0 <= ToWire(ty, v) < 0x1_0000_0000_0000_0000
    ensures (ToWire(ty, v) - v) % 0x1_0000_0000_0000_0000 == 0
    ensures InRange(Int64, v) && ToWire(ty, v) == ToWire(Int64, v)
  {
  }

  /** What is read of a varint is its value modulo 2^32 or 2^64, in the range of the type. */
  lemma ReadIsCongruent(ty: IntType, u: nat)
    requires u < 0x1_0000_0000_0000_0000
    ensures ty != Int64 ==> (FromWire(ty, u) - u) % 0x1_0000_0000 == 0
    ensures ty == Int64 ==> (FromWire(ty, u) - u) % 0x1_0000_0000_0000_0000 == 0
    ensures match ty
            case UInt32 => 0 <= FromWire(ty, u) < 0x1_0000_0000
            case Int32 => -0x8000_0000 <= FromWire(ty, u) < 0x8000_0000
            case Int64 => -0x8000_0000_0000_0000 <= FromWire(ty, u) < 0x8000_0000_0000_0000
  {
  }

  lemma ThreeHundred(n: nat)
    requires n == 300
    ensures EncodeVarint(n) == [172, 2]
  {
    assert EncodeVarint(n / 128) == [2];
  }

  /** -1 goes out as ten bytes, whatever signed type it has. */
  lemma MinusOne(ty: IntType, v: int)
    requires ty != UInt32 && v == -1
    ensures EncodeVarint(ToWire(ty, v)) == [255, 255, 255, 255, 255, 255, 255, 255, 255, 1]
  {
    PowerNine(9);
    AllOnes(ToWire(ty, v), 10);
  }

  lemma PowerNine(k: nat)
    requires k == 9
    ensures Power(k) == 0x8000_0000_0000_0000
  {
    assert Power(k - 8) == 0x80;
    assert Power(k - 7) == 0x4000;
    assert Power(k - 6) == 0x20_0000;
    assert Power(k - 5) == 0x1000_0000;
    assert Power(k - 4) == 0x8_0000_0000;
    assert Power(k - 3) == 0x400_0000_0000;
    assert Power(k - 2) == 0x2_0000_0000_0000;
    assert Power(k - 1) == 0x100_0000_0000_0000;
  }

  lemma {:induction false} AllOnes(n: nat, len: nat)
    requires 1 <= len && n + 1 == 2 * Power(len - 1)
    ensures EncodeVarint(n) == seq(len - 1, _ => 255) + [1]
    decreases len
  {
    if len > 1 {
      AllOnes(n / 128, len - 1);
      assert seq(len - 1, _ => 255) == [255] + seq(len - 2, _ => 255);
    }
  }
}
