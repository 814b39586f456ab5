/** Bytes, fixed-width big-endian fields and the bitwise operators of the source.
    A mask `x & (2^k - 1)` is `x % 2^k`, a shift is a product or quotient by a power of two;
    exclusive and inclusive or are defined bit by bit. */
module Bytes {
  type byte = n: nat | n < 256
  type bytes = seq<byte>
  type bit = n: nat | n < 2
  type u16 = n: nat | n < 0x1_0000
  type u32 = n: nat | n < 0x1_0000_0000

  const SEQ_LIMIT := 0x100_0000  // sequence numbers are 24 bits wide

  datatype Option<+T> = None | Some(value: T)

  datatype Error =
    | CryptoError | IndexError | MalformedPacketError | ProtocolError
    | AuthenticationError | ValueError | OverflowError | StructError

  /** A Python call: a value, or an exception that leaves the function. */
  datatype Result<+T> = Ok(value: T) | Raised(error: Error)

  // ---- Slices, in Python's forgiving form

  function Min(a: int, b: int): int { if a < b then a else b }

  function Take<T>(s: seq<T>, n: nat): seq<T> { s[..Min(n, |s|)] }

  function Slice<T>(s: seq<T>, lo: nat, hi: nat): seq<T>
    requires lo <= hi
  {
    s[Min(lo, |s|)..Min(hi, |s|)]
  }

  function Zeros(n: nat): (z: bytes)
    ensures |z| == n && forall i :: 0 <= i < n ==> z[i] == 0
  {
    seq(n, _ => 0)
  }

  function Concat<T>(parts: seq<seq<T>>): seq<T> {
    if parts == [] then [] else parts[0] + Concat(parts[1..])
  }

  lemma {:induction false} ConcatAppend<T>(parts: seq<seq<T>>, last: seq<T>)
    ensures Concat(parts + [last]) == Concat(parts) + last
  {
    if parts == [] {
      assert Concat([last]) == last + Concat([]) == last;
    } else {
      assert (parts + [last])[1..] == parts[1..] + [last];
      ConcatAppend(parts[1..], last);
    }
  }

  // ---- Big-endian fields (struct.pack and the shifts that undo it)

  function U16(n: nat): (b: bytes) ensures |b| == 2 { [n / 0x100 % 256, n % 256] }

  function U24(n: nat): (b: bytes) ensures |b| == 3 { [n / 0x1_0000 % 256, n / 0x100 % 256, n % 256] }

  function U32(n: nat): (b: bytes)
    ensures |b| == 4
  {
    [n / 0x100_0000 % 256, n / 0x1_0000 % 256, n / 0x100 % 256, n % 256]
  }

  /** The number written by a list of bytes, most significant first. */
  function Number(b: bytes): nat {
    if b == [] then 0 else 256 * Number(b[..|b| - 1]) + b[|b| - 1]
  }

  function FromU16(b: bytes): (n: u16)
    requires |b| == 2
  {
    var hi: int, lo: int := b[0], b[1];
    0x100 * hi + lo
  }

  function FromU24(b: bytes): (n: nat)
    requires |b| == 3
    ensures n < SEQ_LIMIT
  {
    var hi: int, mid: int, lo: int := b[0], b[1], b[2];
    0x1_0000 * hi + 0x100 * mid + lo
  }

  lemma U16RoundTrip(n: nat)
    ensures FromU16(U16(n)) == n % 0x1_0000
  {
    var l, h := n / 0x100, n / 0x1_0000;
    assert l == 256 * h + l % 256 && n == 256 * l + n % 256;
  }

  lemma U24RoundTrip(n: nat)
    ensures FromU24(U24(n)) == n % SEQ_LIMIT
  {
    var l, h, t := n / 0x100, n / 0x1_0000, n / SEQ_LIMIT;
    assert n == 256 * l + n % 256;
    assert l == 256 * h + l % 256;
    assert h == 256 * t + h % 256;
  }

  function FromU32(b: bytes): (n: u32)
    requires |b| == 4
  {
    var d3: int, d2: int, d1: int, d0: int := b[0], b[1], b[2], b[3];
    0x100_0000 * d3 + 0x1_0000 * d2 + 0x100 * d1 + d0
  }

  lemma LastDigit(n: nat)
    ensures n == 256 * (n / 256) + n % 256
  {
  }

  lemma QuotientOfQuotient(n: nat)
    ensures n / 0x100 / 256 == n / 0x1_0000
    ensures n / 0x1_0000 / 256 == n / 0x100_0000
  {
  }

  lemma U32RoundTrip(n: u32)
    ensures FromU32(U32(n)) == n
  {
    QuotientOfQuotient(n);
    LastDigit(n);
    LastDigit(n / 0x100);
    LastDigit(n / 0x1_0000);
  }

  lemma U24Injective(a: nat, b: nat)
    requires a < SEQ_LIMIT && b < SEQ_LIMIT
    ensures U24(a) == U24(b) ==> a == b
  {
    hide U24;
    hide FromU24;
    U24RoundTrip(a);
    U24RoundTrip(b);
  }

  lemma DigitsOf24(hi: nat, mid: nat, lo: nat)
    requires hi < 256 && mid < 256 && lo < 256
    ensures var n := 0x1_0000 * hi + 0x100 * mid + lo;
      n / 0x1_0000 % 256 == hi && n / 0x100 % 256 == mid && n % 256 == lo
  {
    var n := 0x1_0000 * hi + 0x100 * mid + lo;
    assert n / 0x1_0000 == hi;
    assert n / 0x100 == 0x100 * hi + mid;
  }

  lemma DigitsOf16(hi: nat, lo: nat)
    requires hi < 256 && lo < 256
    ensures var n := 0x100 * hi + lo; n / 0x100 % 256 == hi && n % 256 == lo
  {
  }

  lemma FieldsFromBytes(b: bytes)
    ensures |b| == 2 ==> U16(FromU16(b)) == b
    ensures |b| == 3 ==> U24(FromU24(b)) == b
  {
    if |b| == 2 { DigitsOf16(b[0], b[1]); }
    if |b| == 3 { DigitsOf24(b[0], b[1], b[2]); }
  }

  /** The numbers written by two and three bytes, the first the most significant. */
  function TwoDigits(hi: int, lo: int): int { 0x100 * hi + lo }

  function ThreeDigits(hi: int, mid: int, lo: int): int { 0x1_0000 * hi + 0x100 * mid + lo }

  lemma NumberOfTwo(d1: byte, d0: byte)
    ensures Number([d1, d0]) == 0x100 * d1 + d0
  {
    assert Number([]) == 0;
    NumberOfLast([], d1);
    NumberOfLast([d1], d0);
    assert [] + [d1] == [d1] && [d1] + [d0] == [d1, d0];
    hide Number;
  }

  lemma NumberOfBytes(d3: byte, d2: byte, d1: byte, d0: byte)
    ensures Number([d2, d1, d0]) == 0x1_0000 * d2 + 0x100 * d1 + d0
    ensures Number([d3, d2, d1, d0]) == 0x100_0000 * d3 + 0x1_0000 * d2 + 0x100 * d1 + d0
  {
    hide Number;
    NumberOfTwo(d2, d1);
    NumberOfTwo(d3, d2);
    NumberOfLast([d2, d1], d0);
    NumberOfLast([d3, d2], d1);
    NumberOfLast([d3, d2, d1], d0);
    assert [d2, d1] + [d0] == [d2, d1, d0];
    assert [d3, d2] + [d1] == [d3, d2, d1] && [d3, d2, d1] + [d0] == [d3, d2, d1, d0];
  }

  /** All fields are big-endian, and read as the number that their bytes write. */
  lemma BigEndian(d3: byte, d2: byte, d1: byte, d0: byte)
    ensures FromU16([d1, d0]) == Number([d1, d0]) == 0x100 * d1 + d0
    ensures FromU24([d2, d1, d0]) == Number([d2, d1, d0]) == 0x1_0000 * d2 + 0x100 * d1 + d0
    ensures FromU32([d3, d2, d1, d0]) == Number([d3, d2, d1, d0]) == 0x100_0000 * d3 + 0x1_0000 * d2 + 0x100 * d1 + d0
    ensures U16(FromU16([d1, d0])) == [d1, d0] && U24(FromU24([d2, d1, d0])) == [d2, d1, d0]
  {
    NumberOfTwo(d1, d0);
    NumberOfBytes(d3, d2, d1, d0);
    FieldsFromBytes([d1, d0]);
    FieldsFromBytes([d2, d1, d0]);
    hide Number;
    hide U16;
    hide U24;
  }

  lemma NumberOfLast(front: bytes, x: byte)
    ensures Number(front + [x]) == 256 * Number(front) + x
  {
    assert (front + [x])[..|front|] == front;
  }

  lemma SameHead(a: int, low: int, b: int, low': int, base: nat)
    requires 0 <= low < base && 0 <= low' < base && base in {0x100, 0x1_0000, 0x100_0000}
    requires base * a + low == base * b + low'
    ensures a == b && low == low'
  {
  }

  lemma SameDigits(a: byte, b: byte, c: byte, a': byte, b': byte, c': byte)
    requires 0x1_0000 * a + 0x100 * b + c == 0x1_0000 * a' + 0x100 * b' + c'
    ensures a == a' && b == b' && c == c'
  {
    SameHead(a, 0x100 * b + c, a', 0x100 * b' + c', 0x1_0000);
    SameHead(b, c, b', c', 0x100);
  }

  /** Equal fields mean equal bytes. */
  lemma FieldsDetermineBytes(a: bytes, b: bytes)
    ensures |a| == |b| == 2 && FromU16(a) == FromU16(b) ==> a == b
    ensures |a| == |b| == 3 && FromU24(a) == FromU24(b) ==> a == b
    ensures |a| == |b| == 4 && FromU32(a) == FromU32(b) ==> a == b
  {
    if |a| == |b| == 2 && FromU16(a) == FromU16(b) {
      SameHead(a[0], a[1], b[0], b[1], 0x100);
    }
    if |a| == |b| == 3 && FromU24(a) == FromU24(b) { SameDigits(a[0], a[1], a[2], b[0], b[1], b[2]); }
    if |a| == |b| == 4 && FromU32(a) == FromU32(b) {
      var low: int, low': int := FromU24(a[1..]), FromU24(b[1..]);
      SameHead(a[0], low, b[0], low', 0x100_0000);
      SameDigits(a[1], a[2], a[3], b[1], b[2], b[3]);
    }
  }

  // ---- Bitwise or and exclusive or

  function Pow2(k: nat): (p: nat) ensures p > 0 { if k == 0 then 1 else 2 * Pow2(k - 1) }

  function BitXor(a: nat, b: nat): nat
    decreases a + b
  {
    if a == 0 && b == 0 then 0 else 2 * BitXor(a / 2, b / 2) + (a + b) % 2
  }

  function BitOr(a: nat, b: nat): nat
    decreases a + b
  {
    if a == 0 && b == 0 then 0
    else 2 * BitOr(a / 2, b / 2) + (if a % 2 == 1 || b % 2 == 1 then 1 else 0)
  }

  lemma {:induction false} XorBound(a: nat, b: nat, k: nat)
    requires a < Pow2(k) && b < Pow2(k)
    ensures BitXor(a, b) < Pow2(k)
  {
    if k == 0 {
    } else {
      XorBound(a / 2, b / 2, k - 1);
    }
  }

  lemma XorBits(a: nat, b: nat)
    ensures BitXor(a, b) / 2 == BitXor(a / 2, b / 2) && BitXor(a, b) % 2 == (a + b) % 2
  {
  }

  lemma {:induction false} XorUndoes(a: nat, b: nat)
    ensures BitXor(BitXor(a, b), b) == a
    decreases a + b
  {
    if a == 0 && b == 0 {
    } else {
      XorUndoes(a / 2, b / 2);
      XorBits(a, b);
      XorBits(BitXor(a, b), b);
      SumParity(a, b, BitXor(a, b));
      hide BitXor;
    }
  }

  lemma SumParity(a: nat, b: nat, x: nat)
    requires x % 2 == (a + b) % 2
    ensures (x + b) % 2 == a % 2
  {
    var u, v := x / 2, (a + b) / 2;
    assert x == 2 * u + x % 2 && a + b == 2 * v + x % 2;
    assert x + b == 2 * (u - v + b) + a;
  }

  lemma {:induction false} XorCommutes(a: nat, b: nat)
    ensures BitXor(a, b) == BitXor(b, a)
    decreases a + b
  {
    if a == 0 && b == 0 {
    } else {
      XorCommutes(a / 2, b / 2);
    }
  }

  lemma {:induction false} XorAssociates(a: nat, b: nat, c: nat)
    ensures BitXor(BitXor(a, b), c) == BitXor(a, BitXor(b, c))
    decreases a + b + c
  {
    hide BitXor;
    if a == 0 && b == 0 && c == 0 {
      XorZero(0);
    } else {
      XorAssociates(a / 2, b / 2, c / 2);
      XorBits(a, b);
      XorBits(b, c);
      XorBits(BitXor(a, b), c);
      XorBits(a, BitXor(b, c));
      ParityOfThree(a, b, c, BitXor(a, b), BitXor(b, c));
      SameHalves(BitXor(BitXor(a, b), c), BitXor(a, BitXor(b, c)));
    }
  }

  lemma ParityOfThree(a: nat, b: nat, c: nat, ab: nat, bc: nat)
    requires ab % 2 == (a + b) % 2 && bc % 2 == (b + c) % 2
    ensures (ab + c) % 2 == (a + bc) % 2
  {
    SumOfParities(ab, c);
    SumOfParities(a, b);
    SumOfParities(b, c);
    SumOfParities(a, bc);
  }

  lemma SumOfParities(a: nat, b: nat)
    ensures (a + b) % 2 == if a % 2 == b % 2 then 0 else 1
  {
    assert a + b == 2 * (a / 2 + b / 2) + a % 2 + b % 2;
  }

  lemma SameHalves(x: nat, y: nat)
    requires x / 2 == y / 2 && x % 2 == y % 2
    ensures x == y
  {
  }

  lemma HalveSum(even: nat, p: nat)
    requires even % 2 == 0
    ensures (even + p) / 2 == even / 2 + p / 2 && (even + p) % 2 == p % 2
  {
  }

  lemma EvenParity(a: nat, p: nat, b: nat, q: nat)
    requires a % 2 == 0 && b % 2 == 0
    ensures (a + p + (b + q)) % 2 == (p + q) % 2
  {
    assert a + p + (b + q) == 2 * (a / 2 + b / 2) + (p + q);
  }

  lemma XorSplitStep(a: nat, p: nat, b: nat, q: nat, w: nat)
    requires a % 2 == 0 && b % 2 == 0 && w % 2 == 0
    requires BitXor(a / 2 + p / 2, b / 2 + q / 2) == w / 2 + BitXor(p / 2, q / 2)
    ensures BitXor(a + p, b + q) == w + BitXor(p, q)
  {
    hide BitXor;
    XorBits(a + p, b + q);
    XorBits(p, q);
    HalveSum(a, p);
    HalveSum(b, q);
    HalveSum(w, BitXor(p, q));
    EvenParity(a, p, b, q);
    SameHalves(BitXor(a + p, b + q), w + BitXor(p, q));
  }

  /** `x` shifted left by k bits. */
  function Shifted(x: nat, k: nat): nat { if k == 0 then x else 2 * Shifted(x, k - 1) }

  lemma ShiftedByEight(x: nat)
    ensures Shifted(x, 8) == 256 * x && Pow2(8) == 256
  {
    assert Shifted(x, 1) == 2 * x;
    assert Shifted(x, 2) == 4 * x;
    assert Shifted(x, 3) == 8 * x;
    assert Shifted(x, 4) == 16 * x;
    assert Shifted(x, 5) == 32 * x;
    assert Shifted(x, 6) == 64 * x;
    assert Shifted(x, 7) == 128 * x;
    assert Pow2(4) == 16;
  }

  lemma NotShifted(x: nat)
    ensures Shifted(x, 0) == x && Pow2(0) == 1
  {
  }

  lemma ShiftedHalf(x: nat, p: nat, k: nat)
    requires k > 0 && p < Pow2(k)
    ensures Shifted(x, k) % 2 == 0 && Shifted(x, k) / 2 == Shifted(x, k - 1) && p / 2 < Pow2(k - 1)
  {
  }

  /** Exclusive or goes field by field. */
  lemma {:induction false} XorSplit(x: nat, p: nat, y: nat, q: nat, k: nat)
    requires p < Pow2(k) && q < Pow2(k)
    ensures BitXor(Shifted(x, k) + p, Shifted(y, k) + q) == Shifted(BitXor(x, y), k) + BitXor(p, q)
    decreases k
  {
    hide BitXor;
    hide Shifted;
    hide Pow2;
    if k == 0 {
      NotShifted(x);
      NotShifted(y);
      NotShifted(BitXor(x, y));
      XorZero(0);
    } else {
      ShiftedHalf(x, p, k);
      ShiftedHalf(y, q, k);
      ShiftedHalf(BitXor(x, y), p, k);
      XorSplit(x, p / 2, y, q / 2, k - 1);
      XorSplitStep(Shifted(x, k), p, Shifted(y, k), q, Shifted(BitXor(x, y), k));
    }
  }

  lemma XorOfNumbers(x: nat, p: byte, y: nat, q: byte)
    ensures BitXor(256 * x + p, 256 * y + q) == 256 * BitXor(x, y) + XorByte(p, q)
  {
    hide BitXor;
    hide Shifted;
    hide Pow2;
    ShiftedByEight(x);
    ShiftedByEight(y);
    ShiftedByEight(BitXor(x, y));
    XorSplit(x, p, y, q, 8);
  }

  lemma {:induction false} XorZero(a: nat)
    ensures BitXor(a, 0) == a
  {
    if a == 0 {
    } else {
      XorZero(a / 2);
    }
  }

  lemma {:induction false} OrZero(a: nat)
    ensures BitOr(a, 0) == a
  {
    if a == 0 {
    } else {
      OrZero(a / 2);
    }
  }

  lemma HalveProduct(a: nat, k: nat)
    requires k > 0
    ensures a * Pow2(k) / 2 == a * Pow2(k - 1) && a * Pow2(k) % 2 == 0
  {
    assert a * Pow2(k) == 2 * (a * Pow2(k - 1));
  }

  /** Fields that do not overlap are packed by addition. */
  lemma {:induction false} OrOfDisjoint(a: nat, k: nat, b: nat)
    requires b < Pow2(k)
    ensures BitOr(a * Pow2(k), b) == a * Pow2(k) + b
    decreases k
  {
    if k == 0 {
      assert a * Pow2(0) == a;
      OrZero(a);
    } else {
      HalveProduct(a, k);
      OrOfDisjoint(a, k - 1, b / 2);
      assert BitOr(a * Pow2(k), b) == 2 * BitOr(a * Pow2(k) / 2, b / 2) + b % 2;
    }
  }

  /** The low field survives whatever is packed above it. */
  lemma {:induction false} OrKeepsLow(a: nat, k: nat, b: nat)
    ensures BitOr(a * Pow2(k), b) % Pow2(k) == b % Pow2(k)
    decreases k
  {
    if k == 0 {
    } else {
      var x, p := a * Pow2(k), Pow2(k - 1);
      HalveProduct(a, k);
      OrKeepsLow(a, k - 1, b / 2);
      assert BitOr(x, b) == 2 * BitOr(x / 2, b / 2) + b % 2;
      DoubleMod(BitOr(x / 2, b / 2), b % 2, p);
      DoubleMod(b / 2, b % 2, p);
    }
  }

  lemma DoubleMod(q: nat, r: nat, p: nat)
    requires r < 2 && p > 0
    ensures (2 * q + r) % (2 * p) == 2 * (q % p) + r
  {
    var d, m := q / p, q % p;
    assert 2 * q + r == d * (2 * p) + (2 * m + r);
    ModOfSum(d, 2 * p, 2 * m + r);
  }

  lemma ModOfSum(d: nat, p: nat, r: nat)
    requires r < p
    ensures (d * p + r) % p == r && (d * p + r) / p == d
  {
    var n := d * p + r;
    QuotientIsUnique(n, p, d, r, n / p, n % p);
  }

  lemma QuotientIsUnique(n: int, p: nat, d: int, r: int, q: int, s: int)
    requires n == d * p + r && n == q * p + s && 0 <= r < p && 0 <= s < p
    ensures d == q && r == s
  {
    Difference(d, q, p);
    if d > q { AtLeastOnce(d - q, p); }
    if d < q { Difference(q, d, p); AtLeastOnce(q - d, p); }
  }

  lemma Difference(a: int, b: int, p: int)
    ensures (a - b) * p == a * p - b * p
  {
  }

  lemma AtLeastOnce(a: nat, p: nat)
    requires a > 0
    ensures a * p >= p
  {
  }

  function XorByte(a: byte, b: byte): byte {
    XorBound(a, b, 8);
    BitXor(a, b)
  }

  function Xor(a: bytes, b: bytes): (x: bytes)
    requires |a| == |b|
    ensures |x| == |a|
    ensures forall i :: 0 <= i < |a| ==> x[i] == XorByte(a[i], b[i])
  {
    seq(|a|, i requires 0 <= i < |a| => XorByte(a[i], b[i]))
  }

  lemma XorOfThree(a: bytes, b: bytes, c: bytes)
    requires |a| == |b| == |c|
    ensures Xor(Xor(a, b), c) == Xor(a, Xor(b, c))
  {
    forall i | 0 <= i < |a| ensures Xor(Xor(a, b), c)[i] == Xor(a, Xor(b, c))[i] {
      XorAssociates(a[i], b[i], c[i]);
    }
  }

  lemma XorSwap(a: bytes, b: bytes)
    requires |a| == |b|
    ensures Xor(a, b) == Xor(b, a)
  {
    forall i | 0 <= i < |a| ensures Xor(a, b)[i] == Xor(b, a)[i] {
      XorCommutes(a[i], b[i]);
    }
  }

  lemma XorZeros(a: bytes)
    ensures Xor(Zeros(|a|), a) == a && Xor(a, Zeros(|a|)) == a
  {
    XorSwap(a, Zeros(|a|));
    forall i | 0 <= i < |a| ensures Xor(a, Zeros(|a|))[i] == a[i] {
      XorZero(a[i]);
    }
  }

  /** Different texts stay different under the same mask, on either side. */
  lemma XorKeepsApart(a: bytes, b: bytes, mask: bytes)
    requires |a| == |b| == |mask| && a != b
    ensures Xor(a, mask) != Xor(b, mask) && Xor(mask, a) != Xor(mask, b)
  {
    XorTwice(a, mask);
    XorTwice(b, mask);
    XorSwap(a, mask);
    XorSwap(b, mask);
    hide Xor;
  }

  lemma XorTwice(a: bytes, b: bytes)
    requires |a| == |b|
    ensures Xor(Xor(a, b), b) == a
  {
    forall i | 0 <= i < |a| ensures Xor(Xor(a, b), b)[i] == a[i] {
      XorUndoes(a[i], b[i]);
    }
  }

  // ---- Blocks of 16 bytes

  /** Equally long, and different in the j-th block of 16 bytes only. */
  predicate DifferInBlock(a: bytes, b: bytes, j: nat) {
    |a| == |b| && a != b && forall i :: 0 <= i < |a| && i / 16 != j ==> a[i] == b[i]
  }

  lemma FirstBlockDiffers(a: bytes, b: bytes)
    requires DifferInBlock(a, b, 0) && |a| > 16
    ensures a[..16] != b[..16] && a[16..] == b[16..]
  {
    assert forall i :: 16 <= i < |a| ==> a[i] == b[i];
    assert a == a[..16] + a[16..] && b == b[..16] + b[16..];
  }

  lemma LaterBlockDiffers(a: bytes, b: bytes, j: nat)
    requires DifferInBlock(a, b, j) && j > 0
    ensures |a| > 16 && a[..16] == b[..16] && DifferInBlock(a[16..], b[16..], j - 1)
  {
    assert forall i :: 0 <= i < 16 && i < |a| ==> i / 16 != j && a[i] == b[i];
    if |a| > 16 {
      assert a == a[..16] + a[16..] && b == b[..16] + b[16..];
      forall i | 0 <= i < |a| - 16 && i / 16 != j - 1 ensures a[16..][i] == b[16..][i] {
        assert (i + 16) / 16 == i / 16 + 1;
        assert a[i + 16] == b[i + 16];
      }
    }
  }
}
