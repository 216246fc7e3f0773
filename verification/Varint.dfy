/** Base-128 varints, as in the Protocol Buffers Encoding guide, section "Base 128
    Varints": seven bits a byte, the least significant first, and the high bit set
    on every byte but the last. */
module Varint {
  import opened Basics

  datatype Varint = Value(value: nat, size: nat) | Incomplete | Invalid

  function Pow128(n: nat): (p: nat)
    ensures p > 0
  {
    if n == 0 then 1 else 128 * Pow128(n - 1)
  }

  /** The seven bits of a byte, at the place of byte `i`. */
  function Bits(b: byte, i: nat): nat {
    if i == 0 then b % 128 else 128 * Bits(b, i - 1)
  }

  /** Reading on at byte `i`, with `value` read so far and `rest` to come. */
  function ReadOn(rest: seq<byte>, i: nat, value: nat): (v: Varint)
    requires i <= 10
    ensures v.Value? ==> i < v.size <= i + |rest| && v.size <= 10
    decreases |rest|
  {
    if i == 10 then Invalid
    else if rest == [] then Incomplete
    else if i == 9 && rest[0] > 1 then Invalid
    else if rest[0] < 128 then Value(value + Bits(rest[0], i), i + 1)
    else ReadOn(rest[1..], i + 1, value + Bits(rest[0], i))
  }

  function Read(buf: seq<byte>): Varint {
    ReadOn(buf, 0, 0)
  }

  lemma TenthPower()
    ensures Pow128(9) == 0x8000_0000_0000_0000
  {
    assert Pow128(3) == 0x20_0000;
    assert Pow128(6) == 0x400_0000_0000;
  }

  lemma {:induction false} BitsAreSmall(b: byte, i: nat)
    ensures Bits(b, i) + Pow128(i) <= Pow128(i + 1)
    ensures b <= 1 ==> Bits(b, i) <= Pow128(i)
  {
    if i > 0 {
      BitsAreSmall(b, i - 1);
    }
  }

  lemma {:induction false} BitsArePlaced(b: byte, i: nat)
    ensures Bits(b, i) == Pow128(i) * (b % 128)
  {
    if i > 0 {
      BitsArePlaced(b, i - 1);
      assert Pow128(i) * (b % 128) == 128 * (Pow128(i - 1) * (b % 128));
    }
  }

  /** Each byte's bits are a multiple of a power of two above all that was read
      before, so that setting them is adding them, and ten bytes never overflow 64
      bits. */
  lemma BitsDoNotOverlap(value: nat, i: nat, b: byte)
    requires i < 10 && value < Pow128(i) && (i == 9 ==> b <= 1)
    ensures Bits(b, i) == Pow128(i) * (b % 128)
    ensures value + Bits(b, i) < Pow128(i + 1)
    ensures value + Bits(b, i) <= U64_MAX
  {
    BitsArePlaced(b, i);
    BitsAreSmall(b, i);
    TenthPower();
    if i < 9 {
      PowersGrow(i + 1, 9);
    }
  }

  lemma {:induction false} PowersGrow(a: nat, b: nat)
    requires a <= b
    ensures Pow128(a) <= Pow128(b)
  {
    if a < b {
      PowersGrow(a, b - 1);
    }
  }

  /** What one more byte makes of reading. */
  lemma ReadsFurther(buf: seq<byte>, i: nat, value: nat)
    requires i < 10 && i < |buf| && value < Pow128(i)
    ensures if i == 9 && buf[i] > 1 then ReadOn(buf[i..], i, value) == Invalid
            else
              var more := value + Bits(buf[i], i);
              more < Pow128(i + 1) && more <= U64_MAX &&
              ReadOn(buf[i..], i, value)
              == if buf[i] < 128 then Value(more, i + 1) else ReadOn(buf[i + 1..], i + 1, more)
  {
    var rest := buf[i..];
    assert rest[0] == buf[i] && rest[1..] == buf[i + 1..];
    if i < 9 || rest[0] <= 1 {
      BitsDoNotOverlap(value, i, rest[0]);
    }
  }

  method ReadVarint(buf: seq<byte>) returns (v: Varint)
    ensures v == Read(buf)
    ensures v.Value? ==> v.value <= U64_MAX
  {
    var value: nat := 0;
    var n := if |buf| < 10 then |buf| else 10;
    assert buf[0..] == buf;
    for i := 0 to n
      invariant value < Pow128(i) && Read(buf) == ReadOn(buf[i..], i, value)
    {
      ReadsFurther(buf, i, value);
      if i == 9 && buf[i] > 1 {
        return Invalid;
      }
      var more := value + Bits(buf[i], i);
      if buf[i] < 128 {
        return Value(more, i + 1);
      }
      value := more;
    }
    return if |buf| >= 10 then Invalid else Incomplete;
  }

  function Encode(v: nat): (code: seq<byte>)
    ensures code != []
  {
    if v < 128 then [v] else [v % 128 + 128] + Encode(v / 128)
  }

  /** The value that `v` stands for at the place of byte `i`. */
  function Shifted(v: nat, i: nat): nat {
    if i == 0 then v else 128 * Shifted(v, i - 1)
  }

  lemma {:induction false} ShiftDown(v: nat, i: nat)
    ensures Shifted(v / 128, i + 1) + Bits(v % 128, i) == Shifted(v, i)
    ensures v < 128 ==> Bits(v, i) == Shifted(v, i)
    ensures Bits(v % 128 + 128, i) == Bits(v % 128, i)
  {
    if i > 0 {
      ShiftDown(v, i - 1);
    }
  }

  lemma {:induction false} ShiftedAtLeastTwo(v: nat, i: nat)
    requires v >= 2
    ensures Shifted(v, i) >= 2 * Pow128(i)
  {
    if i > 0 {
      ShiftedAtLeastTwo(v, i - 1);
    }
  }

  lemma AtMostOne(v: nat)
    requires Shifted(v, 9) <= U64_MAX
    ensures v <= 1
  {
    TenthPower();
    if v >= 2 {
      ShiftedAtLeastTwo(v, 9);
    }
  }

  /** Reading inverts encoding, whatever follows. */
  lemma {:induction false} ReadsBack(v: nat, rest: seq<byte>, i: nat, value: nat)
    requires i <= 9 && Shifted(v, i) <= U64_MAX
    ensures ReadOn(Encode(v) + rest, i, value) == Value(value + Shifted(v, i), i + |Encode(v)|)
    decreases v
  {
    if i == 9 { AtMostOne(v); }
    ShiftDown(v, i);
    if v >= 128 {
      ReadsBack(v / 128, rest, i + 1, value + Bits(v % 128, i));
      assert (Encode(v) + rest)[1..] == Encode(v / 128) + rest;
    }
  }

  /** Every strict prefix of an encoding reads as incomplete. */
  lemma {:induction false} PrefixIsIncomplete(v: nat, cut: nat, i: nat, value: nat)
    requires i <= 9 && Shifted(v, i) <= U64_MAX && cut < |Encode(v)|
    ensures ReadOn(Encode(v)[..cut], i, value) == Incomplete
    decreases v
  {
    if cut > 0 {
      if i == 9 { AtMostOne(v); }
      ShiftDown(v, i);
      PrefixIsIncomplete(v / 128, cut - 1, i + 1, value + Bits(v % 128, i));
      assert Encode(v)[..cut][1..] == Encode(v / 128)[..cut - 1];
    }
  }

  /** The round trip over all 64-bit values. */
  lemma VarintRoundTrip(v: nat, rest: seq<byte>)
    requires v <= U64_MAX
    ensures Read(Encode(v) + rest) == Value(v, |Encode(v)|)
    ensures forall cut | 0 <= cut < |Encode(v)| :: Read(Encode(v)[..cut]) == Incomplete
  {
    assert Shifted(v, 0) == v;
    ReadsBack(v, rest, 0, 0);
    forall cut | 0 <= cut < |Encode(v)| ensures Read(Encode(v)[..cut]) == Incomplete {
      PrefixIsIncomplete(v, cut, 0, 0);
    }
  }

  /** What has been decided stays decided when more bytes arrive. */
  lemma {:induction false} ReadIsStable(a: seq<byte>, b: seq<byte>, i: nat, value: nat)
    requires i <= 10
    ensures ReadOn(a, i, value) != Incomplete ==> ReadOn(a + b, i, value) == ReadOn(a, i, value)
    decreases 10 - i
  {
    if i < 10 && a != [] {
      assert (a + b)[1..] == a[1..] + b;
      ReadIsStable(a[1..], b, i + 1, value + Bits(a[0], i));
    }
  }

  // ------------------------------------------------------- told from the bytes

  /** The number that seven bits of each byte make, the least significant first. */
  function Placed(bytes: seq<byte>): nat {
    if bytes == [] then 0 else bytes[0] % 128 + 128 * Placed(bytes[1..])
  }

  /** Every one of the first `n` bytes says that another follows. */
  predicate GoesOn(bytes: seq<byte>, n: nat) {
    n <= |bytes| && forall i | 0 <= i < n :: bytes[i] >= 128
  }

  /** Ten bytes that 64 bits cannot hold. */
  predicate Overflows(bytes: seq<byte>) {
    |bytes| >= 10 && GoesOn(bytes, 9) && bytes[9] > 1
  }

  lemma {:induction false} RefusedMeans(rest: seq<byte>, i: nat, value: nat)
    requires i <= 9
    ensures ReadOn(rest, i, value) == Invalid <==> |rest| >= 10 - i && GoesOn(rest, 9 - i) && rest[9 - i] > 1
    ensures ReadOn(rest, i, value) == Incomplete <==> |rest| < 10 - i && GoesOn(rest, |rest|)
    decreases |rest|
  {
    if rest != [] && i < 9 && rest[0] >= 128 {
      RefusedMeans(rest[1..], i + 1, value + Bits(rest[0], i));
      GoesOnFrom(rest, 9 - i);
      GoesOnFrom(rest, |rest|);
    }
  }

  lemma {:induction false} SumMeans(rest: seq<byte>, i: nat, value: nat)
    requires i <= 9 && ReadOn(rest, i, value).Value?
    ensures var v := ReadOn(rest, i, value); var n := v.size - i;
            GoesOn(rest, n - 1) && rest[n - 1] < 128 && v.value == value + Shifted(Placed(rest[..n]), i)
    decreases |rest|
  {
    if rest[0] < 128 {
      assert rest[..1] == [rest[0]];
      ShiftDown(rest[0], i);
    } else {
      var more := value + Bits(rest[0], i);
      SumMeans(rest[1..], i + 1, more);
      var n := ReadOn(rest, i, value).size - i;
      GoesOnFrom(rest, n - 1);
      assert rest[..n][1..] == rest[1..][..n - 1];
      ShiftedSum(rest[0], Placed(rest[1..][..n - 1]), i);
    }
  }

  lemma GoesOnFrom(rest: seq<byte>, n: nat)
    requires rest != [] && rest[0] >= 128 && n > 0
    ensures GoesOn(rest, n) <==> GoesOn(rest[1..], n - 1)
  {
    if GoesOn(rest[1..], n - 1) {
      forall i | 0 <= i < n ensures rest[i] >= 128 {
        assert i > 0 ==> rest[i] == rest[1..][i - 1];
      }
    }
  }

  lemma {:induction false} ShiftedSum(b: byte, v: nat, i: nat)
    ensures Shifted(b % 128 + 128 * v, i) == Bits(b, i) + Shifted(v, i + 1)
  {
    if i > 0 {
      ShiftedSum(b, v, i - 1);
    }
  }

  /** Which bytes are refused, which are too few, and what all others read as: any
      number of bytes up to ten, needlessly many included. */
  lemma ReadMeans(buf: seq<byte>)
    ensures Read(buf) == Invalid <==> Overflows(buf)
    ensures Read(buf) == Incomplete <==> |buf| < 10 && GoesOn(buf, |buf|)
    ensures Read(buf).Value? ==>
              && GoesOn(buf, Read(buf).size - 1) && buf[Read(buf).size - 1] < 128
              && Read(buf).value == Placed(buf[..Read(buf).size])
  {
    RefusedMeans(buf, 0, 0);
    if Read(buf).Value? {
      SumMeans(buf, 0, 0);
    }
  }
}
