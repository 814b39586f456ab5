/** AES-CMAC (RFC 4493): the loops of the source against the definitions of the standard. */
module Cmac {
  import opened Bytes
  import opened Cipher

  type BlockCipher = (Key, Block) -> Block

  const ZERO_BLOCK: Block := Zeros(16)
  const RB: Block := Zeros(15) + [0x87]

  // ---- Doubling in the field of sub-keys

  /** A byte shifted left by one bit, with a bit coming in; the two or-ed parts share no bits. */
  function ShiftByte(x: byte, carry: bit): byte {
    var n: int := x;
    2 * n % 256 + carry
  }

  /** Shift left by one bit, with `carry` coming in at the right. */
  function ShiftIn(b: bytes, carry: bit): (s: bytes)
    ensures |s| == |b|
  {
    if b == [] then []
    else
      var last := |b| - 1;
      ShiftIn(b[..last], b[last] / 128) + [ShiftByte(b[last], carry)]
  }

  lemma {:induction false} ShiftInAt(b: bytes, carry: bit, i: nat)
    requires i < |b|
    ensures ShiftIn(b, carry)[i] == ShiftByte(b[i], if i + 1 < |b| then b[i + 1] / 128 else carry)
  {
    var last := |b| - 1;
    if i == last {
    } else {
      ShiftInAt(b[..last], b[last] / 128, i);
    }
  }

  /** `_shift_left`. */
  method ShiftLeft(data: Block) returns (shifted: Block)
    ensures shifted == ShiftIn(data, 0)
  {
    var result := new byte[16](_ => 0);
    for i := 0 to 15
      invariant forall k :: 0 <= k < i ==> result[k] == ShiftIn(data, 0)[k]
    {
      ShiftInAt(data, 0, i);
      result[i] := ShiftByte(data[i], data[i + 1] / 128);
    }
    ShiftInAt(data, 0, 15);
    result[15] := ShiftByte(data[15], 0);
    shifted := result[..];
  }

  function Pow256(n: nat): (p: nat)
    ensures p > 0
  {
    if n == 0 then 1 else 256 * Pow256(n - 1)
  }

  /** What the bit that falls out on the left was worth. */
  function Lost(b: bytes): nat { if b != [] && b[0] >= 0x80 then Pow256(|b|) else 0 }

  lemma ShiftByteValue(x: byte, carry: bit)
    ensures var n: int := x; ShiftByte(x, carry) + 256 * (n / 128) == 2 * n + carry
  {
  }

  lemma NumberOfNothing()
    ensures Number([]) == 0
  {
  }

  lemma ShiftInOfLast(front: bytes, x: byte, carry: bit)
    ensures ShiftIn(front + [x], carry) == ShiftIn(front, x / 128) + [ShiftByte(x, carry)]
    ensures ShiftIn([], carry) == []
  {
    assert (front + [x])[..|front|] == front;
  }

  lemma LostOfLast(front: bytes, x: byte)
    ensures front != [] ==> Lost(front + [x]) == 256 * Lost(front)
    ensures front == [] ==> Lost(front + [x]) == if x >= 0x80 then 256 else 0
  {
    assert Pow256(1) == 256;
  }

  lemma {:induction false} ShiftInNumber(b: bytes, carry: bit)
    requires b != []
    ensures Number(ShiftIn(b, carry)) + Lost(b) == 2 * Number(b) + carry
  {
    hide Number;
    hide ShiftIn;
    hide ShiftByte;
    hide Lost;
    var front, x := b[..|b| - 1], b[|b| - 1];
    assert b == front + [x];
    NumberOfLast(front, x);
    ShiftInOfLast(front, x, carry);
    NumberOfLast(ShiftIn(front, x / 128), ShiftByte(x, carry));
    LostOfLast(front, x);
    ShiftByteValue(x, carry);
    if front == [] {
      NumberOfNothing();
    } else {
      ShiftInNumber(front, x / 128);
    }
  }

  lemma {:induction false} NumberBound(b: bytes)
    ensures Number(b) < Pow256(|b|)
  {
    if b == [] {
    } else {
      NumberBound(b[..|b| - 1]);
    }
  }

  lemma TopBitOfNumber(b: bytes)
    requires b != []
    ensures 2 * Number(b) >= Pow256(|b|) <==> b[0] >= 0x80
  {
    ShiftInNumber(b, 0);
    NumberBound(ShiftIn(b, 0));
    NumberBound(b);
    hide Number;
    hide ShiftIn;
    hide Pow256;
  }

  /** Read as a big-endian number, `_shift_left` doubles modulo 2^128. */
  lemma ShiftLeftDoubles(b: Block)
    ensures Number(ShiftIn(b, 0)) == 2 * Number(b) % Pow256(16)
  {
    hide Number;
    hide ShiftIn;
    hide Pow256;
    ShiftInNumber(b, 0);
    NumberBound(ShiftIn(b, 0));
    ModOfSum(if b[0] >= 0x80 then 1 else 0, Pow256(16), Number(ShiftIn(b, 0)));
  }

  /** Section 2.3 of RFC 4493: double, and reduce by Rb when a bit is lost. The bit is lost exactly
      when the number is at least 2^127. */
  function Double(b: Block): Block {
    var shifted: Block := ShiftIn(b, 0);
    if 2 * Number(b) >= Pow256(16) then Xor(shifted, RB) else shifted
  }

  // ---- The MAC

  function Pad(tail: bytes): (p: Block)
    requires |tail| < 16
  {
    tail + [0x80] + Zeros(15 - |tail|)
  }

  function XorBlock(a: Block, b: Block): Block { Xor(a, b) }

  /** Section 2.4 of RFC 4493 as a recursion over the message, from the chaining value `x`. */
  function Chain(e: BlockCipher, key: Key, x: Block, msg: bytes, k1: Block, k2: Block): Block
    decreases |msg|
  {
    if |msg| < 16 then e(key, XorBlock(x, XorBlock(Pad(msg), k2)))
    else if |msg| == 16 then e(key, XorBlock(x, XorBlock(msg, k1)))
    else Chain(e, key, e(key, XorBlock(x, msg[..16])), msg[16..], k1, k2)
  }

  function Rfc4493(e: BlockCipher, key: Key, msg: bytes): Block {
    var k1 := Double(e(key, ZERO_BLOCK));
    Chain(e, key, ZERO_BLOCK, msg, k1, Double(k1))
  }

  lemma PadFills(tail: bytes)
    requires |tail| < 16
    ensures (tail + [0x80] + Zeros(15 - |tail|))[..16] == Pad(tail)
  {
  }

  lemma ChainTurn(e: BlockCipher, key: Key, x: Block, msg: bytes, from: nat, k1: Block, k2: Block)
    requires from + 16 < |msg|
    ensures Chain(e, key, x, msg[from..], k1, k2)
      == Chain(e, key, e(key, XorBlock(x, msg[from..from + 16])), msg[from + 16..], k1, k2)
  {
    hide XorBlock;
    hide Pad;
    assert msg[from..][16..] == msg[from + 16..];
    assert msg[from..][..16] == msg[from..from + 16];
  }

  lemma ChainEnds(e: BlockCipher, key: Key, x: Block, tail: bytes, k1: Block, k2: Block)
    requires |tail| <= 16
    ensures |tail| < 16 ==> Chain(e, key, x, tail, k1, k2) == e(key, XorBlock(x, XorBlock(Pad(tail), k2)))
    ensures |tail| == 16 ==> Chain(e, key, x, tail, k1, k2) == e(key, XorBlock(x, XorBlock(tail, k1)))
  {
    hide XorBlock;
    hide Pad;
  }

  method SubKey(l: Block) returns (k: Block)
    ensures k == Double(l)
  {
    k := ShiftLeft(l);
    TopBitOfNumber(l);
    if l[0] >= 0x80 { k := Xor(k, RB); }
  }

  /** `aes_cmac`, for every message length including 0. */
  method AesCmac(e: BlockCipher, key: Key, msg: bytes) returns (mac: Block)
    ensures mac == Rfc4493(e, key, msg)
  {
    var lVal := e(key, ZERO_BLOCK);
    var k1 := SubKey(lVal);
    var k2 := SubKey(k1);

    hide Double;
    hide XorBlock;
    hide Pad;
    var blocks := (|msg| + 15) / 16;
    var n := if blocks > 1 then blocks else 1;
    var tail := msg[(n - 1) * 16..];
    var mLast: Block;
    if |msg| > 0 && |msg| % 16 == 0 {
      assert |tail| == 16;
      mLast := XorBlock(tail, k1);
    } else {
      assert |tail| < 16;
      var padded := tail + [0x80] + Zeros(15 - |tail|);
      PadFills(tail);
      mLast := XorBlock(padded[..16], k2);
    }

    var x: Block := ZERO_BLOCK;
    var i := 0;
    assert msg[0..] == msg;
    assert Chain(e, key, x, msg[0..], k1, k2) == Rfc4493(e, key, msg);
    hide Chain;
    hide Rfc4493;
    while i < n - 1
      invariant i <= n - 1
      invariant Chain(e, key, x, msg[i * 16..], k1, k2) == Rfc4493(e, key, msg)
    {
      ChainTurn(e, key, x, msg, i * 16, k1, k2);
      x := e(key, XorBlock(x, msg[i * 16..(i + 1) * 16]));
      i := i + 1;
    }
    ChainEnds(e, key, x, tail, k1, k2);
    mac := e(key, XorBlock(x, mLast));
  }

  // ---- What the MAC computes, for every cipher

  const TWO_TO_128: nat := 0x1_0000_0000_0000_0000_0000_0000_0000_0000

  /** Section 2.3 of RFC 4493 on numbers: twice the number, reduced by 0x87 when it overflows. */
  predicate IsDoubled(l: Block, k: Block) {
    Number(k) ==
      if 2 * Number(l) < TWO_TO_128 then 2 * Number(l) else BitXor(2 * Number(l) - TWO_TO_128, 0x87)
  }

  predicate IsZero(b: Block) { forall i :: 0 <= i < 16 ==> b[i] == 0 }

  ghost predicate Injective(e: BlockCipher, key: Key) {
    forall a, b :: e(key, a) == e(key, b) ==> a == b
  }

  lemma PowerIs()
    ensures Pow256(16) == TWO_TO_128
  {
    assert Pow256(4) == 0x1_0000_0000;
    assert Pow256(8) == 0x1_0000_0000_0000_0000;
    assert Pow256(12) == 0x1_0000_0000_0000_0000_0000_0000;
  }

  lemma {:induction false} NumberOfXor(a: bytes, b: bytes)
    requires |a| == |b|
    ensures Number(Xor(a, b)) == BitXor(Number(a), Number(b))
  {
    hide BitXor;
    hide XorByte;
    if a == [] {
      XorZero(0);
    } else {
      var n := |a| - 1;
      NumberOfXor(a[..n], b[..n]);
      assert a == a[..n] + [a[n]] && b == b[..n] + [b[n]];
      assert Xor(a, b) == Xor(a[..n], b[..n]) + [XorByte(a[n], b[n])];
      hide Xor;
      NumberOfLast(a[..n], a[n]);
      NumberOfLast(b[..n], b[n]);
      NumberOfLast(Xor(a[..n], b[..n]), XorByte(a[n], b[n]));
      hide Number;
      XorOfNumbers(Number(a[..n]), a[n], Number(b[..n]), b[n]);
    }
  }

  lemma {:induction false} NumberInjective(a: bytes, b: bytes)
    requires |a| == |b| && Number(a) == Number(b)
    ensures a == b
  {
    if a == [] {
    } else {
      var n := |a| - 1;
      SameHead(Number(a[..n]), a[n], Number(b[..n]), b[n], 0x100);
      NumberInjective(a[..n], b[..n]);
      assert a == a[..n] + [a[n]] && b == b[..n] + [b[n]];
    }
  }

  lemma {:induction false} NumberOfZeros(b: bytes)
    requires forall i :: 0 <= i < |b| ==> b[i] == 0
    ensures Number(b) == 0
  {
    if b == [] {
    } else {
      NumberOfZeros(b[..|b| - 1]);
    }
  }

  lemma NumberOfRb()
    ensures Number(RB) == 0x87
  {
    NumberOfZeros(Zeros(15));
    NumberOfLast(Zeros(15), 0x87);
  }

  /** The sub-key step is doubling, and nothing else is. */
  lemma DoubleIsDoubled(l: Block, k: Block)
    ensures IsDoubled(l, k) <==> k == Double(l)
  {
    PowerIs();
    ShiftLeftDoubles(l);
    NumberBound(l);
    NumberOfRb();
    hide Pow256;
    hide ShiftIn;
    hide Xor;
    hide Number;
    hide BitXor;
    NumberOfXor(ShiftIn(l, 0), RB);
    DoubleModulo(Number(l));
    assert IsDoubled(l, Double(l));
    hide Double;
    if IsDoubled(l, k) { NumberInjective(k, Double(l)); }
  }

  lemma DoubleModulo(n: nat)
    requires n < TWO_TO_128
    ensures 2 * n % TWO_TO_128 == if 2 * n < TWO_TO_128 then 2 * n else 2 * n - TWO_TO_128
  {
  }

  /** A message of at most one block, by the numbers of the sub-keys: a full block is masked with K1,
      a shorter one is padded and masked with K2. */
  lemma MacOfOneBlock(e: BlockCipher, key: Key, msg: bytes, zero: Block, k1: Block, k2: Block)
    requires IsZero(zero) && IsDoubled(e(key, zero), k1) && IsDoubled(k1, k2) && |msg| <= 16
    ensures |msg| == 16 ==> Rfc4493(e, key, msg) == e(key, Xor(msg, k1))
    ensures |msg| < 16 ==> Rfc4493(e, key, msg) == e(key, Xor(msg + [0x80] + Zeros(15 - |msg|), k2))
  {
    hide IsDoubled;
    hide Double;
    assert zero == ZERO_BLOCK;
    DoubleIsDoubled(e(key, zero), k1);
    DoubleIsDoubled(k1, k2);
    if |msg| == 16 { XorZeros(XorBlock(msg, k1)); } else { XorZeros(XorBlock(Pad(msg), k2)); }
    hide Xor;
  }

  lemma ChainFirst(e: BlockCipher, key: Key, x: Block, a: Block, rest: bytes, k1: Block, k2: Block)
    requires rest != []
    ensures Chain(e, key, x, a + rest, k1, k2) == Chain(e, key, e(key, Xor(x, a)), rest, k1, k2)
  {
    hide Xor;
    assert (a + rest)[..16] == a && (a + rest)[16..] == rest;
  }

  /** Of a longer message the first block can be folded into the second: encrypted and combined with
      it by exclusive or. With the lemma before and the next, this fixes the MAC of every message. */
  lemma MacFoldsFirstBlock(e: BlockCipher, key: Key, a: Block, b: Block, rest: bytes)
    ensures Rfc4493(e, key, a + b + rest) == Rfc4493(e, key, Xor(e(key, a), b) + rest)
  {
    hide Double;
    hide Xor;
    var x, k1 := e(key, a), Double(e(key, ZERO_BLOCK));
    var k2 := Double(k1);
    XorZeros(a);
    XorZeros(Xor(x, b));
    assert a + b + rest == a + (b + rest);
    ChainFirst(e, key, ZERO_BLOCK, a, b + rest, k1, k2);
    if rest == [] {
      assert b + rest == b && Xor(x, b) + rest == Xor(x, b);
      ChainEnds(e, key, x, b, k1, k2);
      ChainEnds(e, key, ZERO_BLOCK, Xor(x, b), k1, k2);
      XorOfThree(x, b, k1);
      XorZeros(XorBlock(Xor(x, b), k1));
    } else {
      ChainFirst(e, key, x, b, rest, k1, k2);
      ChainFirst(e, key, ZERO_BLOCK, Xor(x, b), rest, k1, k2);
    }
    hide Chain;
  }

  lemma MacOfPartialTail(e: BlockCipher, key: Key, a: Block, tail: bytes, zero: Block, k1: Block, k2: Block)
    requires IsZero(zero) && IsDoubled(e(key, zero), k1) && IsDoubled(k1, k2) && 0 < |tail| < 16
    ensures Rfc4493(e, key, a + tail)
      == e(key, Xor(Xor(e(key, a), tail + [0x80] + Zeros(15 - |tail|)), k2))
  {
    hide IsDoubled;
    hide Double;
    hide Xor;
    assert zero == ZERO_BLOCK;
    DoubleIsDoubled(e(key, zero), k1);
    DoubleIsDoubled(k1, k2);
    XorZeros(a);
    ChainFirst(e, key, ZERO_BLOCK, a, tail, k1, k2);
    ChainEnds(e, key, e(key, a), tail, k1, k2);
    XorOfThree(e(key, a), Pad(tail), k2);
    hide Chain;
  }

  /** Seen through a cipher that maps zero to a small number and leaves all else alone, the masks are
      the double and the fourfold of that number. */
  lemma SubKeysShow(e: BlockCipher, key: Key, msg: bytes, zero: Block, k: Block)
    requires IsZero(zero) && (forall b: Block :: b != zero ==> e(key, b) == b)
    requires 4 * Number(e(key, zero)) < TWO_TO_128
    requires Number(k) == (if |msg| == 16 then 2 else 4) * Number(e(key, zero)) && |msg| <= 16
    requires Xor(if |msg| == 16 then msg else msg + [0x80] + Zeros(15 - |msg|), k) != zero
    ensures Rfc4493(e, key, msg) == Xor(if |msg| == 16 then msg else msg + [0x80] + Zeros(15 - |msg|), k)
  {
    hide Double;
    hide Xor;
    var k1 := Double(e(key, zero));
    DoubleIsDoubled(e(key, zero), k1);
    DoubleIsDoubled(k1, Double(k1));
    MacOfOneBlock(e, key, msg, zero, k1, Double(k1));
    hide Rfc4493;
    hide Number;
    if |msg| == 16 { NumberInjective(k, k1); } else { NumberInjective(k, Double(k1)); }
  }

  // ---- Messages that are kept apart

  lemma NoFixedByte(r: nat)
    requires r < 128
    ensures BitXor(2 * r, 0x87) != r + 128
  {
    hide BitXor;
    if BitXor(2 * r, 0x87) == r + 128 {
      var r1 := r / 2;
      var r2 := r1 / 2;
      var r3 := r2 / 2;
      var r4 := r3 / 2;
      var r5 := r4 / 2;
      var r6 := r5 / 2;
      NextBit(2 * r, 135, r, 64);
      NextBit(r, 67, r1, 32);
      NextBit(r1, 33, r2, 16);
      NextBit(r2, 16, r3, 8);
      NextBit(r3, 8, r4, 4);
      NextBit(r4, 4, r5, 2);
      NextBit(r5, 2, r6, 1);
      XorBits(r6, 1);
    }
  }

  lemma NextBit(a: nat, b: nat, r: nat, top: nat)
    requires BitXor(a, b) == r + 2 * top
    ensures BitXor(a / 2, b / 2) == r / 2 + top && r % 2 == if a % 2 == b % 2 then 0 else 1
  {
    hide BitXor;
    XorBits(a, b);
    SumOfParities(a, b);
    SumOfParities(r, 2 * top);
  }

  /** Only zero is its own double. */
  lemma OnlyZeroIsItsDouble(k: Block)
    ensures IsDoubled(k, k) <==> IsZero(k)
  {
    var n := Number(k);
    if IsZero(k) { NumberOfZeros(k); }
    if IsDoubled(k, k) {
      PowerIs();
      NumberBound(k);
      if 2 * n < TWO_TO_128 {
        NumberOfZeros(ZERO_BLOCK);
        NumberInjective(k, ZERO_BLOCK);
      } else {
        FixedNumber(n);
      }
    }
    hide Number;
    hide BitXor;
  }

  lemma XorByteIs(a: byte, b: byte)
    ensures XorByte(a, b) == BitXor(a, b)
  {
  }

  lemma HighPart(x: nat, r: nat, c: nat)
    requires r < 128 && c < 256 && c != r + 128 && 128 * x + r < TWO_TO_128 / 2
    ensures 128 * x + r + TWO_TO_128 / 2 != 256 * x + c
  {
  }

  lemma FixedNumber(n: nat)
    requires TWO_TO_128 <= 2 * n < 2 * TWO_TO_128
    ensures n != BitXor(2 * n - TWO_TO_128, 0x87)
  {
    hide BitXor;
    hide XorByte;
    var m := n - TWO_TO_128 / 2;
    var x, r := m / 128, m % 128;
    assert m == 128 * x + r;
    XorOfNumbers(x, 2 * r, 0, 0x87);
    XorZero(x);
    XorByteIs(2 * r, 0x87);
    NoFixedByte(r);
    HighPart(x, r, XorByte(2 * r, 0x87));
  }

  /** A short message and its padded form have different MACs, for every one of them, if and only if
      the cipher does not map zero to zero. */
  lemma PaddingIsKeptApartExactlyWhen(e: BlockCipher, key: Key, zero: Block)
    requires Injective(e, key) && IsZero(zero)
    ensures (forall msg: bytes :: |msg| < 16 ==>
        Rfc4493(e, key, msg) != Rfc4493(e, key, msg + [0x80] + Zeros(15 - |msg|)))
      <==> e(key, zero) != zero
  {
    hide Double;
    hide Rfc4493;
    hide IsDoubled;
    var k1 := Double(e(key, zero));
    var k2 := Double(k1);
    DoubleIsDoubled(e(key, zero), k1);
    DoubleIsDoubled(k1, k2);
    DoubleIsDoubled(k1, k1);
    OnlyZeroIsItsDouble(k1);
    OnlyZeroComesFromZero(e(key, zero), k1);
    forall msg: bytes | |msg| < 16
      ensures Rfc4493(e, key, msg) == Rfc4493(e, key, msg + [0x80] + Zeros(15 - |msg|)) <==> k1 == k2
    {
      var padded: Block := msg + [0x80] + Zeros(15 - |msg|);
      MacOfOneBlock(e, key, msg, zero, k1, k2);
      MacOfOneBlock(e, key, padded, zero, k1, k2);
      if k1 != k2 { XorKeepsApart(k1, k2, padded); }
      hide Xor;
    }
    ZeroIsOne(e(key, zero), zero);
    assert k1 == k2 <==> e(key, zero) == zero;
    if k1 == k2 {
      var none: bytes := [];
      assert |none| < 16 && Rfc4493(e, key, none) == Rfc4493(e, key, none + [0x80] + Zeros(15 - |none|));
    }
  }

  lemma ZeroIsOne(a: Block, zero: Block)
    requires IsZero(zero)
    ensures IsZero(a) <==> a == zero
  {
  }

  lemma OnlyZeroComesFromZero(l: Block, k: Block)
    requires IsDoubled(l, k)
    ensures IsZero(k) <==> IsZero(l)
  {
    PowerIs();
    NumberBound(l);
    if IsZero(l) {
      NumberOfZeros(l);
      NumberOfZeros(ZERO_BLOCK);
      NumberInjective(k, ZERO_BLOCK);
    }
    if 2 * Number(l) >= TWO_TO_128 { OddIsNotZero(2 * Number(l) - TWO_TO_128); }
    if IsZero(k) {
      NumberOfZeros(k);
      NumberOfZeros(ZERO_BLOCK);
      NumberInjective(l, ZERO_BLOCK);
    }
    hide Number;
  }

  lemma OddIsNotZero(n: nat)
    requires n % 2 == 0
    ensures BitXor(n, 0x87) % 2 == 1
  {
    hide BitXor;
    XorBits(n, 0x87);
    SumOfParities(n, 0x87);
  }

  lemma {:induction false} ChainKeepsApart(e: BlockCipher, key: Key, x: Block, y: Block, msg: bytes,
    k1: Block, k2: Block)
    requires Injective(e, key) && x != y
    ensures Chain(e, key, x, msg, k1, k2) != Chain(e, key, y, msg, k1, k2)
    decreases |msg|
  {
    hide Xor;
    if |msg| < 16 {
      XorKeepsApart(x, y, XorBlock(Pad(msg), k2));
    } else if |msg| == 16 {
      XorKeepsApart(x, y, XorBlock(msg, k1));
    } else {
      XorKeepsApart(x, y, msg[..16]);
      ChainKeepsApart(e, key, e(key, XorBlock(x, msg[..16])), e(key, XorBlock(y, msg[..16])), msg[16..], k1, k2);
    }
  }

  lemma {:induction false} ChainOfOneChange(e: BlockCipher, key: Key, x: Block, a: bytes, b: bytes, j: nat,
    k1: Block, k2: Block)
    requires Injective(e, key) && DifferInBlock(a, b, j)
    ensures Chain(e, key, x, a, k1, k2) != Chain(e, key, x, b, k1, k2)
    decreases |a|
  {
    hide Xor;
    if j > 0 {
      LaterBlockDiffers(a, b, j);
      ChainOfOneChange(e, key, e(key, XorBlock(x, a[..16])), a[16..], b[16..], j - 1, k1, k2);
    } else if |a| > 16 {
      FirstBlockDiffers(a, b);
      XorKeepsApart(a[..16], b[..16], x);
      ChainKeepsApart(e, key, e(key, XorBlock(x, a[..16])), e(key, XorBlock(x, b[..16])), a[16..], k1, k2);
    } else if |a| == 16 {
      XorKeepsApart(a, b, k1);
      XorKeepsApart(XorBlock(a, k1), XorBlock(b, k1), x);
    } else {
      PadKeepsApart(a, b);
      XorKeepsApart(Pad(a), Pad(b), k2);
      XorKeepsApart(XorBlock(Pad(a), k2), XorBlock(Pad(b), k2), x);
    }
  }

  lemma PadKeepsApart(a: bytes, b: bytes)
    requires |a| == |b| < 16 && a != b
    ensures Pad(a) != Pad(b)
  {
    assert Pad(a)[..|a|] == a && Pad(b)[..|b|] == b;
  }

  /** A change within one block, the first and a partial last one included, changes the MAC. */
  lemma OneChangedBlockShows(e: BlockCipher, key: Key, a: bytes, b: bytes, j: nat)
    requires Injective(e, key) && DifferInBlock(a, b, j)
    ensures Rfc4493(e, key, a) != Rfc4493(e, key, b)
  {
    hide Chain;
    hide Double;
    var k1 := Double(e(key, ZERO_BLOCK));
    ChainOfOneChange(e, key, ZERO_BLOCK, a, b, j, k1, Double(k1));
  }
}
