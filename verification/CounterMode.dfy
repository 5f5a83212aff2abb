// AES-256-CTR as the upload encryptor runs it: a 16-byte big-endian counter
// advanced in place with an early-exit carry loop, one ECB call over the
// concatenated counters, and an xor that starts inside the first block.
// The block cipher itself is a parameter: any total function on blocks.
module CounterMode {
  import opened Prelude

  newtype Byte = x: int | 0 <= x < 256

  const BLOCK_SIZE: nat := 16

  const TWO_TO_THE_64: nat := 0x1_0000_0000_0000_0000

  type Block = s: seq<Byte> | |s| == 16 witness seq(16, _ => 0)

  type Cipher = Block -> Block

  // x * 256^n.
  function Scale(x: nat, n: nat): (y: nat)
    ensures y >= x
  {
    if n == 0 then x else 256 * Scale(x, n - 1)
  }

  lemma {:induction false} ScaleSum(x: nat, y: nat, n: nat)
    ensures Scale(x + y, n) == Scale(x, n) + Scale(y, n)
  {
    if n != 0 {
      ScaleSum(x, y, n - 1);
    }
  }

  lemma {:induction false} ScaleShift(x: nat, n: nat)
    ensures Scale(256 * x, n) == Scale(x, n + 1)
  {
    if n != 0 {
      ScaleShift(x, n - 1);
    }
  }

  lemma {:induction false} ScaleMonotone(x: nat, y: nat, n: nat)
    requires x <= y
    ensures Scale(x, n) <= Scale(y, n)
  {
    if n != 0 {
      ScaleMonotone(x, y, n - 1);
    }
  }

  lemma ScaleGap(p: nat, q: nat, n: nat)
    requires p < q
    ensures Scale(q, n) >= Scale(p, n) + Scale(1, n)
  {
    ScaleSum(p, 1, n);
    ScaleMonotone(p + 1, q, n);
  }

  lemma SameDigits(p: nat, r: nat, q: nat, t: nat, n: nat)
    requires r < Scale(1, n) && t < Scale(1, n)
    requires Scale(p, n) + r == Scale(q, n) + t
    ensures p == q && r == t
  {
    if p < q {
      ScaleGap(p, q, n);
    } else if q < p {
      ScaleGap(q, p, n);
    }
  }

  // The number a big-endian byte string denotes.
  function BigEndian(s: seq<Byte>): nat
  {
    if |s| == 0 then 0 else BigEndian(s[..|s| - 1]) * 256 + s[|s| - 1] as int
  }

  function ToBytes(value: nat, n: nat): (s: seq<Byte>)
    ensures |s| == n
  {
    if n == 0 then [] else ToBytes(value / 256, n - 1) + [(value % 256) as Byte]
  }

  // The standard incrementing function, by any amount: add to the number the
  // counter denotes and keep the low-order bytes.
  function Advance(counter: seq<Byte>, amount: nat): (next: seq<Byte>)
    ensures |next| == |counter|
  {
    ToBytes(BigEndian(counter) + amount, |counter|)
  }

  lemma {:induction false} BigEndianBound(s: seq<Byte>)
    ensures BigEndian(s) < Scale(1, |s|)
  {
    if |s| != 0 {
      BigEndianBound(s[..|s| - 1]);
    }
  }

  lemma {:induction false} BigEndianAppend(a: seq<Byte>, b: seq<Byte>)
    ensures BigEndian(a + b) == Scale(BigEndian(a), |b|) + BigEndian(b)
  {
    if |b| == 0 {
      assert a + b == a;
    } else {
      var front := b[..|b| - 1];
      BigEndianAppend(a, front);
      assert (a + b)[..|a + b| - 1] == a + front;
    }
  }

  // What does not fit into n bytes.
  ghost function Excess(value: nat, n: nat): nat
  {
    if n == 0 then value else Excess(value / 256, n - 1)
  }

  lemma {:induction false} ToBytesDenotes(value: nat, n: nat)
    ensures value == Scale(Excess(value, n), n) + BigEndian(ToBytes(value, n))
  {
    if n != 0 {
      ToBytesDenotes(value / 256, n - 1);
      assert ToBytes(value, n)[..n - 1] == ToBytes(value / 256, n - 1);
    }
  }

  lemma {:induction false} BigEndianInjective(a: seq<Byte>, b: seq<Byte>)
    requires |a| == |b| && BigEndian(a) == BigEndian(b)
    ensures a == b
  {
    if |a| != 0 {
      var n := |a| - 1;
      assert a[n] as int == b[n] as int && BigEndian(a[..n]) == BigEndian(b[..n]);
      BigEndianInjective(a[..n], b[..n]);
      assert a == a[..n] + [a[n]] && b == b[..n] + [b[n]];
    }
  }

  lemma {:induction false} AdvanceSum(counter: seq<Byte>, amount: nat) returns (k: nat)
    ensures BigEndian(counter) + amount == Scale(k, |counter|) + BigEndian(Advance(counter, amount))
    ensures BigEndian(Advance(counter, amount)) < Scale(1, |counter|)
  {
    k := Excess(BigEndian(counter) + amount, |counter|);
    ToBytesDenotes(BigEndian(counter) + amount, |counter|);
    BigEndianBound(Advance(counter, amount));
  }

  // x and r differ by a whole number of wrap-arounds of n bytes.
  ghost predicate CongruentModulo(x: nat, r: nat, n: nat)
  {
    exists k: nat :: x == Scale(k, n) + r
  }

  // Appendix B.1 of NIST SP 800-38A: Advance is addition modulo 256^|counter|.
  lemma {:induction false} AdvanceIsModular(counter: seq<Byte>, amount: nat)
    ensures CongruentModulo(BigEndian(counter) + amount, BigEndian(Advance(counter, amount)), |counter|)
    ensures BigEndian(Advance(counter, amount)) < Scale(1, |counter|)
  {
    var k := AdvanceSum(counter, amount);
  }

  // The counter Advance yields is the only one of its width that denotes the
  // sum up to a whole number of wrap-arounds.
  lemma AdvanceIs(counter: seq<Byte>, amount: nat, next: seq<Byte>, k: nat)
    requires |next| == |counter|
    requires BigEndian(counter) + amount == Scale(k, |counter|) + BigEndian(next)
    ensures next == Advance(counter, amount)
  {
    var made := Advance(counter, amount);
    var e := AdvanceSum(counter, amount);
    BigEndianBound(next);
    SameDigits(k, BigEndian(next), e, BigEndian(made), |counter|);
    BigEndianInjective(next, made);
  }

  // Adding a and then b is adding a + b.
  lemma AdvanceCompose(counter: seq<Byte>, a: nat, b: nat)
    ensures Advance(Advance(counter, a), b) == Advance(counter, a + b)
  {
    var mid := Advance(counter, a);
    var k := AdvanceSum(counter, a);
    var l := AdvanceSum(mid, b);
    ScaleSum(k, l, |counter|);
    AdvanceIs(counter, a + b, Advance(mid, b), k + l);
  }

  function Times(counter: seq<Byte>, k: nat): (next: seq<Byte>)
    ensures |next| == |counter|
  {
    if k == 0 then counter else Advance(Times(counter, k - 1), 1)
  }

  lemma {:induction false} StepsAreOneAdd(counter: seq<Byte>, b: nat, k: nat)
    ensures Times(Advance(counter, b), k) == Advance(counter, b + k)
  {
    if k != 0 {
      StepsAreOneAdd(counter, b, k - 1);
      AdvanceCompose(counter, b + k - 1, 1);
    }
  }

  lemma WholePeriods(k: nat, l: nat, d: nat, n: nat)
    requires Scale(l, n) == Scale(k, n) + d && d > 0
    ensures d >= Scale(1, n)
  {
    if k < l {
      ScaleGap(k, l, n);
    } else {
      ScaleMonotone(l, k, n);
    }
  }

  // A counter returns to itself only after a whole period of 2^128 blocks, so
  // no two blocks of one file are given the same counter.
  lemma {:induction false} CountersDistinct(counter: seq<Byte>, i: nat, j: nat)
    requires i < j < i + Scale(1, |counter|)
    ensures Advance(counter, i) != Advance(counter, j)
  {
    var k := AdvanceSum(counter, i);
    var l := AdvanceSum(counter, j);
    if Advance(counter, i) == Advance(counter, j) {
      WholePeriods(k, l, j - i, |counter|);
    }
  }

  // Byte p of the key stream.
  function KeyByte(cipher: Cipher, iv: Block, p: nat): Byte
  {
    cipher(Advance(iv, p / BLOCK_SIZE))[p % BLOCK_SIZE]
  }

  // Exclusive or of two numbers of the given width in bits.
  function XorBits(a: nat, b: nat, width: nat): (x: nat)
  {
    if width == 0 then 0 else 2 * XorBits(a / 2, b / 2, width - 1) + (a + b) % 2
  }

  lemma LowBit(half: nat, a: nat, b: nat)
    ensures var x := 2 * half + (a + b) % 2; x / 2 == half && (x + b) % 2 == a % 2
  {}

  function Pow2(n: nat): (p: nat)
    ensures p >= 1
  {
    if n == 0 then 1 else 2 * Pow2(n - 1)
  }

  // Bit i of a number.
  function BitOf(x: nat, i: nat): nat
  {
    if i == 0 then x % 2 else BitOf(x / 2, i - 1)
  }

  lemma {:induction false} BitBound(x: nat, i: nat)
    ensures BitOf(x, i) < 2
    decreases i
  {
    if i > 0 { BitBound(x / 2, i - 1); }
  }

  lemma {:induction false} BitIsQuotient(x: nat, i: nat)
    ensures BitOf(x, i) == (x / Pow2(i)) % 2
    decreases i
  {
    if i > 0 {
      BitIsQuotient(x / 2, i - 1);
      DivideTwice(x, 2, Pow2(i - 1));
    }
  }

  lemma Halves(half: nat, bit: nat)
    requires bit < 2
    ensures (2 * half + bit) / 2 == half && (2 * half + bit) % 2 == bit
  {}

  lemma ParityOfSum(a: nat, b: nat)
    ensures (a + b) % 2 == (a % 2 + b % 2) % 2
  {}

  lemma XorBitsStep(a: nat, b: nat, width: nat)
    requires width > 0
    ensures XorBits(a, b, width) / 2 == XorBits(a / 2, b / 2, width - 1)
    ensures XorBits(a, b, width) % 2 == (a % 2 + b % 2) % 2
  {
    Halves(XorBits(a / 2, b / 2, width - 1), (a + b) % 2);
    ParityOfSum(a, b);
  }

  // Bit i of x is that of a and that of b added without carry.
  ghost predicate BitsAdded(x: nat, a: nat, b: nat, i: nat)
  {
    BitOf(x, i) == (BitOf(a, i) + BitOf(b, i)) % 2
  }

  lemma BitsAddedStep(x: nat, a: nat, b: nat, i: nat)
    requires i > 0
    ensures BitsAdded(x, a, b, i) <==> BitsAdded(x / 2, a / 2, b / 2, i - 1)
  {}

  lemma {:induction false} XorBitsAt(a: nat, b: nat, width: nat, i: nat)
    requires i < width
    ensures BitsAdded(XorBits(a, b, width), a, b, i)
    decreases width
  {
    XorBitsStep(a, b, width);
    if i > 0 {
      XorBitsAt(a / 2, b / 2, width - 1, i - 1);
      BitsAddedStep(XorBits(a, b, width), a, b, i);
    }
  }

  lemma {:induction false} XorBitsTwice(a: nat, b: nat, width: nat)
    requires a < Pow2(width)
    ensures XorBits(a, b, width) < Pow2(width)
    ensures XorBits(XorBits(a, b, width), b, width) == a
  {
    if width != 0 {
      XorBitsTwice(a / 2, b / 2, width - 1);
      LowBit(XorBits(a / 2, b / 2, width - 1), a, b);
    }
  }

  lemma EightBits()
    ensures Pow2(8) == 256
  {
    assert Pow2(4) == 16;
    assert Pow2(6) == 64;
  }

  lemma XorBitsBound(a: nat, b: nat)
    requires a < 256
    ensures XorBits(a, b, 8) < 256
  {
    EightBits();
    XorBitsTwice(a, b, 8);
  }

  function Xor(a: Byte, b: Byte): Byte
  {
    XorBitsBound(a as nat, b as nat);
    XorBits(a as nat, b as nat, 8) as Byte
  }

  lemma BitsDiffer(x: nat, a: nat, b: nat, i: nat)
    requires BitsAdded(x, a, b, i)
    ensures (x / Pow2(i)) % 2 == 1 <==> (a / Pow2(i)) % 2 != (b / Pow2(i)) % 2
  {
    BitBound(a, i);
    BitBound(b, i);
    BitIsQuotient(x, i);
    BitIsQuotient(a, i);
    BitIsQuotient(b, i);
  }

  // Exclusive or, bit by bit: a bit of the result is set iff the two bits differ.
  lemma XorIsBitwise(a: Byte, b: Byte, i: nat)
    requires i < 8
    ensures (Xor(a, b) as nat / Pow2(i)) % 2 == 1 <==> (a as nat / Pow2(i)) % 2 != (b as nat / Pow2(i)) % 2
  {
    XorBitsAt(a as nat, b as nat, 8, i);
    BitsDiffer(Xor(a, b) as nat, a as nat, b as nat, i);
  }

  // CTR mode, section 6.5 of NIST SP 800-38A, for bytes that sit at an absolute offset.
  function Ctr(cipher: Cipher, iv: Block, data: seq<Byte>, offset: nat): (out: seq<Byte>)
    ensures |out| == |data|
  {
    seq(|data|, i requires 0 <= i < |data| => Xor(data[i], KeyByte(cipher, iv, offset + i)))
  }

  lemma XorTwice(a: Byte, b: Byte)
    ensures Xor(Xor(a, b), b) == a
  {
    EightBits();
    XorBitsTwice(a as nat, b as nat, 8);
  }

  lemma CtrInvolution(cipher: Cipher, iv: Block, data: seq<Byte>, offset: nat)
    ensures Ctr(cipher, iv, Ctr(cipher, iv, data, offset), offset) == data
  {
    var once := Ctr(cipher, iv, data, offset);
    forall i | 0 <= i < |data| ensures Ctr(cipher, iv, once, offset)[i] == data[i] {
      XorTwice(data[i], KeyByte(cipher, iv, offset + i));
    }
  }

  // Every bit sent is the data's bit, flipped iff the key stream's bit at the absolute
  // position is set.
  lemma CtrFlipsBits(cipher: Cipher, iv: Block, data: seq<Byte>, offset: nat, p: nat, i: nat)
    requires p < |data| && i < 8
    ensures var sent := Ctr(cipher, iv, data, offset)[p] as nat;
            var key := cipher(Advance(iv, (offset + p) / 16))[(offset + p) % 16] as nat;
            (sent / Pow2(i)) % 2 == 1 <==> (data[p] as nat / Pow2(i)) % 2 != (key / Pow2(i)) % 2
  {
    XorIsBitwise(data[p], KeyByte(cipher, iv, offset + p), i);
  }

  lemma CtrSplit(cipher: Cipher, iv: Block, a: seq<Byte>, b: seq<Byte>, offset: nat)
    ensures Ctr(cipher, iv, a + b, offset) == Ctr(cipher, iv, a, offset) + Ctr(cipher, iv, b, offset + |a|)
  {
    var whole, left, right := Ctr(cipher, iv, a + b, offset), Ctr(cipher, iv, a, offset), Ctr(cipher, iv, b, offset + |a|);
    forall i | 0 <= i < |a + b| ensures whole[i] == (left + right)[i] {
      if i >= |a| {
        assert offset + |a| + (i - |a|) == offset + i;
      }
    }
  }

  // One ECB call over a string of that many blocks.
  function Ecb(cipher: Cipher, s: seq<Byte>, blocks: nat): (out: seq<Byte>)
    requires |s| == 16 * blocks
    ensures |out| == |s|
    decreases blocks
  {
    if blocks == 0 then [] else cipher(s[..16]) + Ecb(cipher, s[16..], blocks - 1)
  }

  lemma {:induction false} EcbAt(cipher: Cipher, s: seq<Byte>, blocks: nat, j: nat, k: nat)
    requires |s| == 16 * blocks && j < blocks && k < 16
    ensures Ecb(cipher, s, blocks)[16 * j + k] == cipher(s[16 * j..16 * j + 16])[k]
    decreases j
  {
    if j > 0 {
      EcbAt(cipher, s[16..], blocks - 1, j - 1, k);
      assert s[16..][16 * (j - 1)..16 * (j - 1) + 16] == s[16 * j..16 * j + 16];
    }
  }

  // One step of the carry loop, on numbers: the prefix still to be processed
  // absorbs the carry, the byte just written is the low digit.
  lemma CarryStep(prefix: nat, b: nat, carry: nat, n: nat)
    ensures Scale(prefix * 256 + b + carry, n)
         == Scale(prefix + (carry / 256 + (b + carry % 256) / 256), n + 1) + Scale((b + carry % 256) % 256, n)
  {
    var sum := b + carry % 256;
    var c := carry / 256 + sum / 256;
    ScaleSum(256 * (prefix + c), sum % 256, n);
    ScaleShift(prefix + c, n);
    assert prefix * 256 + b + carry == 256 * (prefix + c) + sum % 256;
  }

  // The carry loop between two iterations: bytes from index on are final, the
  // bytes below are untouched and still owe the carry.
  ghost predicate Partial(was: seq<Byte>, now: seq<Byte>, index: nat, carry: nat, value: nat)
  {
    && |now| == |was| && index <= |was|
    && now[..index] == was[..index]
    && BigEndian(was) + value == Scale(BigEndian(was[..index]) + carry, |was| - index) + BigEndian(now[index..])
  }

  lemma AddStep(was: seq<Byte>, now: seq<Byte>, index: nat, carry: nat, value: nat)
    requires index < |was| && Partial(was, now, index + 1, carry, value)
    ensures var sum := now[index] as nat + carry % 256;
            Partial(was, now[index := (sum % 256) as Byte], index, carry / 256 + sum / 256, value)
  {
    var sum := now[index] as nat + carry % 256;
    var low := (sum % 256) as Byte;
    var tail := now[index + 1..];
    assert now[index] == was[..index + 1][index] by {
      assert now[index] == now[..index + 1][index];
    }
    assert was[..index + 1][..index] == was[..index] && now[..index + 1][..index] == now[..index];
    CarryStep(BigEndian(was[..index]), now[index] as nat, carry, |was| - index - 1);
    assert now[index := low][index..] == [low] + tail;
    BigEndianAppend([low], tail);
    assert [low][..0] == [];
    assert BigEndian([low]) == low as int;
  }

  lemma {:induction false} ScaleZero(n: nat)
    ensures Scale(0, n) == 0
  {
    if n != 0 {
      ScaleZero(n - 1);
    }
  }

  // When the carry loop stops, either the counter is exhausted or the carry is.
  lemma FinishAdd(was: seq<Byte>, now: seq<Byte>, index: nat, carry: nat, value: nat)
    requires Partial(was, now, index, carry, value) && (index == 0 || carry == 0)
    ensures now == Advance(was, value)
  {
    if index == 0 {
      assert was[..0] == [] && now[0..] == now;
      AdvanceIs(was, value, now, carry);
    } else {
      assert now == now[..index] + now[index..];
      BigEndianAppend(now[..index], now[index..]);
      ScaleZero(|was|);
      AdvanceIs(was, value, now, 0);
    }
  }

  lemma SplitBlock(p: nat) returns (j: nat, k: nat)
    ensures p == 16 * j + k && k < 16
  {
    j, k := p / 16, p % 16;
  }

  lemma KeyByteIs(cipher: Cipher, iv: Block, p: nat, block: nat, k: nat)
    requires k < 16 && p == 16 * block + k
    ensures KeyByte(cipher, iv, p) == cipher(Advance(iv, block))[k]
  {
    assert p / 16 == block && p % 16 == k;
  }

  // The counters of consecutive blocks from the first on, concatenated.
  function CounterString(iv: Block, first: nat, count: nat): (s: seq<Byte>)
    ensures |s| == 16 * count
  {
    if count == 0 then [] else CounterString(iv, first, count - 1) + Advance(iv, first + count - 1)
  }

  // The same as the loop builds it, stepping from the first counter.
  function Counted(start: seq<Byte>, count: nat): seq<Byte>
  {
    if count == 0 then [] else Counted(start, count - 1) + Times(start, count - 1)
  }

  lemma {:induction false} CountedIs(iv: Block, first: nat, count: nat)
    ensures Counted(Advance(iv, first), count) == CounterString(iv, first, count)
  {
    if count != 0 {
      CountedIs(iv, first, count - 1);
      StepsAreOneAdd(iv, first, count - 1);
    }
  }

  lemma {:induction false} CounterStringAt(iv: Block, first: nat, count: nat, j: nat)
    requires j < count
    ensures CounterString(iv, first, count)[16 * j..16 * j + 16] == Advance(iv, first + j)
    decreases count
  {
    var front := CounterString(iv, first, count - 1);
    var all := CounterString(iv, first, count);
    if j < count - 1 {
      CounterStringAt(iv, first, count - 1, j);
      assert all[16 * j..16 * j + 16] == front[16 * j..16 * j + 16];
    }
  }

  lemma {:induction false} StreamAt(cipher: Cipher, iv: Block, first: nat, count: nat, j: nat, k: nat)
    requires k < 16 && j < count
    ensures Ecb(cipher, CounterString(iv, first, count), count)[16 * j + k] == cipher(Advance(iv, first + j))[k]
  {
    EcbAt(cipher, CounterString(iv, first, count), count, j, k);
    CounterStringAt(iv, first, count, j);
  }

  // The xor loop reads the key stream from inside the first block.
  lemma {:induction false} StreamAligned(cipher: Cipher, iv: Block, first: nat, count: nat, start: nat, index: nat)
    requires start + index < 16 * count
    ensures Ecb(cipher, CounterString(iv, first, count), count)[start + index] == KeyByte(cipher, iv, 16 * first + start + index)
  {
    var j, k := SplitBlock(start + index);
    StreamAt(cipher, iv, first, count, j, k);
    KeyByteIs(cipher, iv, 16 * first + start + index, first + j, k);
  }

  lemma CtrSnoc(cipher: Cipher, iv: Block, data: seq<Byte>, b: Byte, offset: nat)
    ensures Ctr(cipher, iv, data + [b], offset) == Ctr(cipher, iv, data, offset) + [Xor(b, KeyByte(cipher, iv, offset + |data|))]
  {
    CtrSplit(cipher, iv, data, [b], offset);
  }

  // One turn of the xor loop.
  lemma {:induction false} XorStep(
    cipher: Cipher, iv: Block, first: nat, count: nat, start: nat, offset: nat, data: seq<Byte>, index: nat)
    requires start + |data| <= 16 * count && offset == 16 * first + start && index < |data|
    ensures Ctr(cipher, iv, data[..index + 1], offset) ==
            Ctr(cipher, iv, data[..index], offset) + [Xor(data[index], Ecb(cipher, CounterString(iv, first, count), count)[start + index])]
  {
    StreamAligned(cipher, iv, first, count, start, index);
    CtrSnoc(cipher, iv, data[..index], data[index], offset);
    assert data[..index + 1] == data[..index] + [data[index]];
  }

  class UploadEncryptor {
    const initialCounter: Block
    const cipher: Cipher

    constructor (iv: Block, cipher: Cipher)
      ensures initialCounter == iv && this.cipher == cipher
    {
      initialCounter := iv;
      this.cipher := cipher;
    }

    // Adds to the low end of the counter, in place.
    method Add(value: nat, counter: array<Byte>)
      requires value < TWO_TO_THE_64
      modifies counter
      ensures counter[..] == Advance(old(counter[..]), value)
    {
      var carry: nat := value;
      var index := counter.Length;
      ghost var was := counter[..];
      assert was[..index] == was;
      while index > 0 && carry != 0
        invariant 0 <= index <= counter.Length && carry < TWO_TO_THE_64
        invariant Partial(was, counter[..], index, carry, value)
      {
        index := index - 1;
        ghost var before := counter[..];
        AddStep(was, before, index, carry, value);
        var sum := counter[index] as nat + carry % 256;
        counter[index] := (sum % 256) as Byte;
        carry := carry / 256 + sum / 256;
        assert counter[..] == before[index := (sum % 256) as Byte];
      }
      FinishAdd(was, counter[..], index, carry, value);
    }

    // The counters of consecutive blocks, concatenated.
    method Counters(blockOffset: nat, blockCount: nat) returns (counters: seq<Byte>)
      requires blockOffset < TWO_TO_THE_64
      ensures counters == CounterString(initialCounter, blockOffset, blockCount)
    {
      counters := [];
      var counter := new Byte[16](i requires 0 <= i < 16 => initialCounter[i]);
      assert counter[..] == initialCounter;
      Add(blockOffset, counter);
      ghost var start := counter[..];
      for i := 0 to blockCount
        invariant counter[..] == Times(start, i)
        invariant counters == Counted(start, i)
      {
        counters := counters + counter[..];
        Add(1, counter);
      }
      CountedIs(initialCounter, blockOffset, blockCount);
    }

    // The xor loop over a key stream that begins up to a block before the data.
    static method XorStream(
      cipher: Cipher, iv: Block, data: seq<Byte>, keyStream: seq<Byte>, offsetInBlock: nat,
      ghost first: nat, ghost count: nat, ghost byteOffset: nat
    ) returns (encrypted: seq<Byte>)
      requires keyStream == Ecb(cipher, CounterString(iv, first, count), count)
      requires offsetInBlock + |data| <= 16 * count && byteOffset == 16 * first + offsetInBlock
      ensures encrypted == Ctr(cipher, iv, data, byteOffset)
    {
      encrypted := [];
      for index := 0 to |data|
        invariant encrypted == Ctr(cipher, iv, data[..index], byteOffset)
      {
        XorStep(cipher, iv, first, count, offsetInBlock, byteOffset, data, index);
        encrypted := encrypted + [Xor(data[index], keyStream[offsetInBlock + index])];
      }
      assert data[..|data|] == data;
    }

    // Encrypts bytes at their absolute offset within the source file.
    method Encrypt(data: seq<Byte>, byteOffset: nat, cryptorOk: bool) returns (r: Result<seq<Byte>, string>)
      requires byteOffset + |data| <= TWO_TO_THE_64
      ensures r.Ok? <==> data == [] || cryptorOk
      ensures r.Ok? ==> r.value == Ctr(cipher, initialCounter, data, byteOffset)
    {
      if data == [] {
        return Ok(data);
      }
      var offsetInBlock := byteOffset % BLOCK_SIZE;
      var blockOffset := byteOffset / BLOCK_SIZE;
      var blockCount := (offsetInBlock + |data| + BLOCK_SIZE - 1) / BLOCK_SIZE;
      assert byteOffset == 16 * blockOffset + offsetInBlock && offsetInBlock + |data| <= 16 * blockCount;
      var counters := Counters(blockOffset, blockCount);
      if !cryptorOk {
        return Err("AES upload encryption failed");
      }
      var keyStream := Ecb(cipher, counters, blockCount);
      var encrypted := XorStream(cipher, initialCounter, data, keyStream, offsetInBlock, blockOffset, blockCount, byteOffset);
      return Ok(encrypted);
    }
  }
}
