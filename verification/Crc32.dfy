/** CRC-32 of the firmware records (components/fw_meta/fw_meta.c): IEEE 802.3 clause 3.2.9, reflected form. */
module Crc32 {
  const POLYNOMIAL: bv32 := 0xEDB88320
  const ALL_ONES: bv32 := 0xFFFFFFFF

  type Bytes = seq<bv8>

  function Xor(x: bv32, y: bv32): bv32 { x ^ y }

  function Half(x: bv32): bv32 { x >> 1 }

  predicate Odd(x: bv32) { x & 1 == 1 }

  /** One division step of the register: shift, and subtract the polynomial if a one was shifted out. */
  function StepBit(crc: bv32): bv32 {
    if Odd(crc) then Xor(Half(crc), POLYNOMIAL) else Half(crc)
  }

  function StepBits(crc: bv32, n: nat): bv32
    decreases n
  {
    if n == 0 then crc else StepBits(StepBit(crc), n - 1)
  }

  function Widen(b: bv8): bv32 { b as bv32 }

  function StepByte(crc: bv32, b: bv8): bv32 {
    StepBits(Xor(crc, Widen(b)), 8)
  }

  function Register(crc: bv32, bytes: Bytes): bv32
    decreases |bytes|
  {
    if bytes == [] then crc else Register(StepByte(crc, bytes[0]), bytes[1..])
  }

  function Checksum(bytes: Bytes): bv32 {
    Xor(Register(ALL_ONES, bytes), ALL_ONES)
  }

  lemma MaskedStep(x: bv32)
    ensures (x >> 1) ^ (POLYNOMIAL & (0 - (x & 1))) == StepBit(x)
  {
    LowBit(x);
    if Odd(x) {
      FullMask(POLYNOMIAL);
    } else {
      EmptyMask(POLYNOMIAL, x >> 1);
    }
  }

  lemma LowBit(x: bv32)
    ensures x & 1 == if Odd(x) then 1 else 0
  {
  }

  lemma FullMask(p: bv32)
    ensures p & (0 - 1) == p
  {
  }

  lemma EmptyMask(p: bv32, y: bv32)
    ensures y ^ (p & (0 - 0)) == y
  {
  }

  method ShiftByte(start: bv32) returns (crc: bv32)
    ensures crc == StepBits(start, 8)
  {
    crc := start;
    for bit := 0 to 8
      invariant StepBits(crc, 8 - bit) == StepBits(start, 8)
    {
      MaskedStep(crc);
      crc := (crc >> 1) ^ (POLYNOMIAL & (0 - (crc & 1)));
    }
  }

  /** The source's two nested loops compute the checksum. */
  method ComputeFwCrc32(bytes: Bytes) returns (crc: bv32)
    ensures crc == Checksum(bytes)
  {
    crc := ALL_ONES;
    for index := 0 to |bytes|
      invariant Register(crc, bytes[index..]) == Register(ALL_ONES, bytes)
    {
      assert bytes[index..][1..] == bytes[index + 1..];
      crc := ShiftByte(Xor(crc, Widen(bytes[index])));
    }
    crc := Xor(crc, ALL_ONES);
  }

  // The step is linear over GF(2) with trivial kernel, hence invertible.

  lemma XorComm(u: bv32, v: bv32)
    ensures Xor(u, v) == Xor(v, u)
  {
  }

  lemma XorAssoc(u: bv32, v: bv32, p: bv32)
    ensures Xor(Xor(u, v), p) == Xor(u, Xor(v, p))
  {
  }

  lemma XorZero(x: bv32)
    ensures Xor(x, 0) == x && Xor(0, x) == x && Xor(x, x) == 0
  {
  }

  lemma XorLaws(u: bv32, v: bv32, p: bv32)
    ensures Xor(Xor(u, p), Xor(v, p)) == Xor(u, v)
    ensures Xor(Xor(u, p), v) == Xor(Xor(u, v), p)
    ensures Xor(u, Xor(v, p)) == Xor(Xor(u, v), p)
  {
    XorAssoc(u, v, p);
    XorAssoc(u, p, v);
    XorComm(v, p);
    XorAssoc(Xor(u, v), p, p);
    XorAssoc(Xor(u, p), v, p);
    XorZero(p);
    XorZero(Xor(u, v));
  }

  lemma XorHalf(x: bv32, y: bv32)
    ensures Half(Xor(x, y)) == Xor(Half(x), Half(y))
  {
  }

  lemma XorOdd(x: bv32, y: bv32)
    ensures Odd(Xor(x, y)) <==> Odd(x) != Odd(y)
  {
  }

  lemma StepBitLinear(x: bv32, y: bv32)
    ensures StepBit(Xor(x, y)) == Xor(StepBit(x), StepBit(y))
  {
    XorHalf(x, y);
    XorOdd(x, y);
    XorLaws(Half(x), Half(y), POLYNOMIAL);
  }

  lemma {:induction false} StepBitsLinear(x: bv32, y: bv32, n: nat)
    ensures StepBits(Xor(x, y), n) == Xor(StepBits(x, n), StepBits(y, n))
    decreases n
  {
    if n > 0 {
      StepBitLinear(x, y);
      StepBitsLinear(StepBit(x), StepBit(y), n - 1);
    }
  }

  lemma StepBitKernel(x: bv32)
    requires StepBit(x) == 0
    ensures x == 0
  {
  }

  lemma {:induction false} StepBitsKernel(x: bv32, n: nat)
    requires StepBits(x, n) == 0
    ensures x == 0
    decreases n
  {
    if n > 0 {
      StepBitsKernel(StepBit(x), n - 1);
      StepBitKernel(x);
    }
  }

  lemma {:induction false} StepBitsAdd(x: bv32, m: nat, n: nat)
    ensures StepBits(StepBits(x, m), n) == StepBits(x, m + n)
    decreases m
  {
    if m > 0 {
      StepBitsAdd(StepBit(x), m - 1, n);
    }
  }

  // Linearity and kernel of the whole register, with equal-length byte strings.

  function XorBytes(s: Bytes, t: Bytes): (d: Bytes)
    requires |s| == |t|
    ensures |d| == |s|
  {
    seq(|s|, k requires 0 <= k < |s| => s[k] ^ t[k])
  }

  function Zeros(n: nat): (z: Bytes)
    ensures |z| == n
  {
    seq(n, _ => 0)
  }

  lemma WidenLinear(a: bv8, b: bv8)
    ensures Widen(a ^ b) == Xor(Widen(a), Widen(b))
  {
  }

  lemma XorSwap(c: bv32, d: bv32, a: bv32, b: bv32)
    ensures Xor(Xor(c, d), Xor(a, b)) == Xor(Xor(c, a), Xor(d, b))
  {
    XorLaws(Xor(c, d), a, b);
    XorLaws(c, a, d);
    XorLaws(Xor(c, a), d, b);
  }

  lemma StepByteLinear(c: bv32, d: bv32, a: bv8, b: bv8)
    ensures StepByte(Xor(c, d), a ^ b) == Xor(StepByte(c, a), StepByte(d, b))
  {
    WidenLinear(a, b);
    XorSwap(c, d, Widen(a), Widen(b));
    StepBitsLinear(Xor(c, Widen(a)), Xor(d, Widen(b)), 8);
  }

  lemma {:induction false} RegisterLinear(c: bv32, d: bv32, s: Bytes, t: Bytes)
    requires |s| == |t|
    ensures Register(Xor(c, d), XorBytes(s, t)) == Xor(Register(c, s), Register(d, t))
    decreases |s|
  {
    if s != [] {
      StepByteLinear(c, d, s[0], t[0]);
      RegisterLinear(StepByte(c, s[0]), StepByte(d, t[0]), s[1..], t[1..]);
      assert XorBytes(s, t)[1..] == XorBytes(s[1..], t[1..]);
    }
  }

  lemma {:induction false} RegisterSplit(c: bv32, s: Bytes, t: Bytes)
    ensures Register(c, s + t) == Register(Register(c, s), t)
    decreases |s|
  {
    if s == [] {
      assert s + t == t;
    } else {
      RegisterSplit(StepByte(c, s[0]), s[1..], t);
      assert (s + t)[1..] == s[1..] + t;
    }
  }

  lemma {:induction false} RegisterZeros(c: bv32, n: nat)
    ensures Register(c, Zeros(n)) == StepBits(c, 8 * n)
    decreases n
  {
    if n > 0 {
      XorZero(c);
      assert StepByte(c, 0) == StepBits(c, 8);
      RegisterZeros(StepBits(c, 8), n - 1);
      StepBitsAdd(c, 8, 8 * (n - 1));
      assert Zeros(n)[1..] == Zeros(n - 1);
    }
  }

  lemma {:induction false} StepBitsZero(n: nat)
    ensures StepBits(0, n) == 0
    decreases n
  {
    if n > 0 {
      StepBitsZero(n - 1);
    }
  }

  // A window of four bytes is one 32-bit word pushed through 32 invertible steps.

  function Up(x: bv32): bv32 { x << 8 }

  function Word(a: bv8, b: bv8, c: bv8, d: bv8): bv32 {
    Xor(Xor(Xor(Widen(a), Up(Widen(b))), Up(Up(Widen(c)))), Up(Up(Up(Widen(d)))))
  }

  lemma WordKernel(a: bv8, b: bv8, c: bv8, d: bv8)
    requires Word(a, b, c, d) == 0
    ensures a == b == c == d == 0
  {
  }

  lemma EvenByte(x: bv32)
    requires x & 0xFF == 0
    ensures !Odd(x) && !Odd(x >> 1) && !Odd(x >> 2) && !Odd(x >> 3)
    ensures !Odd(x >> 4) && !Odd(x >> 5) && !Odd(x >> 6) && !Odd(x >> 7)
  {
  }

  lemma HalfShift(x: bv32)
    ensures Half(x) == x >> 1 && Half(x >> 1) == x >> 2 && Half(x >> 2) == x >> 3 && Half(x >> 3) == x >> 4
    ensures Half(x >> 4) == x >> 5 && Half(x >> 5) == x >> 6 && Half(x >> 6) == x >> 7 && Half(x >> 7) == x >> 8
  {
  }

  // With no one-bit in the low byte nothing is subtracted: eight steps are a plain shift.
  lemma DropByte(x: bv32)
    requires x & 0xFF == 0
    ensures StepBits(x, 8) == x >> 8
  {
    EvenByte(x);
    HalfShift(x);
    assert StepBits(x, 8) == StepBits(x >> 1, 7) == StepBits(x >> 2, 6) == StepBits(x >> 3, 5) == StepBits(x >> 4, 4);
    assert StepBits(x >> 4, 4) == StepBits(x >> 5, 3) == StepBits(x >> 6, 2) == StepBits(x >> 7, 1);
  }

  lemma UpDown(x: bv32)
    requires x <= 0xFFFFFF
    ensures Up(x) & 0xFF == 0 && Up(x) >> 8 == x
  {
  }

  lemma UpThenDrop(x: bv32)
    requires x <= 0xFFFFFF
    ensures StepBits(Up(x), 8) == x
  {
    UpDown(x);
    DropByte(Up(x));
  }

  lemma UpBounds(b: bv8)
    ensures Widen(b) <= 0xFFFFFF && Up(Widen(b)) <= 0xFFFFFF && Up(Up(Widen(b))) <= 0xFFFFFF
  {
  }

  lemma RaisedByteDrops(b: bv8)
    ensures StepBits(Up(Widen(b)), 8) == Widen(b)
    ensures StepBits(Up(Up(Widen(b))), 16) == Widen(b)
    ensures StepBits(Up(Up(Up(Widen(b)))), 24) == Widen(b)
  {
    UpBounds(b);
    UpThenDrop(Widen(b));
    UpThenDrop(Up(Widen(b)));
    UpThenDrop(Up(Up(Widen(b))));
    StepBitsAdd(Up(Up(Widen(b))), 8, 8);
    StepBitsAdd(Up(Up(Up(Widen(b)))), 8, 16);
  }

  // A byte appended after `n` more steps joins the word `n` bits up.
  lemma JoinByte(word: bv32, raised: bv32, b: bv8, n: nat)
    requires StepBits(raised, n) == Widen(b)
    ensures StepByte(StepBits(word, n), b) == StepBits(Xor(word, raised), n + 8)
  {
    StepBitsLinear(word, raised, n);
    StepBitsAdd(Xor(word, raised), n, 8);
  }

  lemma FourSteps(crc: bv32, a: bv8, b: bv8, c: bv8, d: bv8)
    ensures Register(crc, [a, b, c, d]) == StepByte(StepByte(StepByte(StepByte(crc, a), b), c), d)
  {
    RegisterSplit(crc, [a, b], [c, d]);
    assert [a, b] + [c, d] == [a, b, c, d];
    TwoSteps(crc, a, b);
    TwoSteps(Register(crc, [a, b]), c, d);
  }

  lemma TwoSteps(crc: bv32, a: bv8, b: bv8)
    ensures Register(crc, [a, b]) == StepByte(StepByte(crc, a), b)
  {
    assert [a, b][1..] == [b];
    assert Register(StepByte(crc, a), [b]) == Register(StepByte(StepByte(crc, a), b), []);
  }

  lemma RegisterOfWindow(a: bv8, b: bv8, c: bv8, d: bv8)
    ensures Register(0, [a, b, c, d]) == StepBits(Word(a, b, c, d), 32)
  {
    FourSteps(0, a, b, c, d);
    XorZero(Widen(a));
    hide Register; hide Xor; hide Widen; hide Up; hide StepBits;
    RaisedByteDrops(b);
    RaisedByteDrops(c);
    RaisedByteDrops(d);
    FirstByte(a);
    var ab := Xor(Widen(a), Up(Widen(b)));
    JoinByte(Widen(a), Up(Widen(b)), b, 8);
    JoinByte(ab, Up(Up(Widen(c))), c, 16);
    JoinByte(Xor(ab, Up(Up(Widen(c)))), Up(Up(Up(Widen(d)))), d, 24);
  }

  lemma FirstByte(a: bv8)
    ensures StepByte(0, a) == StepBits(Widen(a), 8)
  {
    XorZero(Widen(a));
  }

  /** `s` and `t` agree everywhere outside the four bytes starting at `w`. */
  predicate DifferInWindow(s: Bytes, t: Bytes, w: nat)
    requires |s| == |t|
  {
    forall k :: 0 <= k < |s| && (k < w || w + 4 <= k) ==> s[k] == t[k]
  }

  // A difference string that is zero outside a whole window does not vanish in the register.
  lemma WindowSurvives(d: Bytes, w: nat)
    requires w + 4 <= |d|
    requires forall k :: 0 <= k < |d| && (k < w || w + 4 <= k) ==> d[k] == 0
    requires Register(0, d) == 0
    ensures d == Zeros(|d|)
  {
    hide Register;
    var mid := d[w..w + 4];
    ThreeParts(d, w);
    PaddingInvisible(mid, w, |d| - w - 4);
    WindowKernel(mid);
    assert forall k :: w <= k < w + 4 ==> d[k] == mid[k - w];
  }

  lemma ThreeParts(d: Bytes, w: nat)
    requires w + 4 <= |d|
    requires forall k :: 0 <= k < |d| && (k < w || w + 4 <= k) ==> d[k] == 0
    ensures d == Zeros(w) + (d[w..w + 4] + Zeros(|d| - w - 4))
  {
    assert d[..w] == Zeros(w) && d[w + 4..] == Zeros(|d| - w - 4);
    assert d == d[..w] + (d[w..w + 4] + d[w + 4..]);
  }

  lemma PaddingInvisible(mid: Bytes, before: nat, after: nat)
    requires Register(0, Zeros(before) + (mid + Zeros(after))) == 0
    ensures Register(0, mid) == 0
  {
    RegisterSplit(0, Zeros(before), mid + Zeros(after));
    RegisterZeros(0, before);
    StepBitsZero(8 * before);
    RegisterSplit(0, mid, Zeros(after));
    RegisterZeros(Register(0, mid), after);
    StepBitsKernel(Register(0, mid), 8 * after);
  }

  lemma WindowKernel(mid: Bytes)
    requires |mid| == 4 && Register(0, mid) == 0
    ensures mid == Zeros(4)
  {
    assert mid == [mid[0], mid[1], mid[2], mid[3]];
    RegisterOfWindow(mid[0], mid[1], mid[2], mid[3]);
    StepBitsKernel(Word(mid[0], mid[1], mid[2], mid[3]), 32);
    WordKernel(mid[0], mid[1], mid[2], mid[3]);
  }

  lemma EqualChecksums(s: Bytes, t: Bytes)
    requires |s| == |t| && Checksum(s) == Checksum(t)
    ensures Register(0, XorBytes(s, t)) == 0
  {
    XorLaws(Register(ALL_ONES, s), Register(ALL_ONES, t), ALL_ONES);
    XorZero(Checksum(s));
    XorZero(ALL_ONES);
    RegisterLinear(ALL_ONES, ALL_ONES, s, t);
  }

  lemma XorByteZero(a: bv8, b: bv8)
    ensures a ^ b == 0 <==> a == b
  {
  }

  /** Burst detection: a change confined to four consecutive bytes always changes the checksum. */
  lemma BurstDetected(s: Bytes, t: Bytes, w: nat)
    requires |s| == |t| && s != t && DifferInWindow(s, t, w)
    ensures Checksum(s) != Checksum(t)
  {
    if Checksum(s) == Checksum(t) {
      EqualChecksums(s, t);
      ZeroDifference(s, t, w);
      assert false;
    }
  }

  lemma ZeroDifference(s: Bytes, t: Bytes, w: nat)
    requires |s| == |t| && DifferInWindow(s, t, w)
    requires Register(0, XorBytes(s, t)) == 0
    ensures s == t
  {
    var d := XorBytes(s, t);
    var padded := d + Zeros(w + 4);  // the window lies inside even when it runs past the end of `d`
    forall k | 0 <= k < |s| ensures padded[k] == 0 <==> s[k] == t[k] {
      XorByteZero(s[k], t[k]);
    }
    RegisterSplit(0, d, Zeros(w + 4));
    RegisterZeros(0, w + 4);
    StepBitsZero(8 * (w + 4));
    WindowSurvives(padded, w);
    assert forall k :: 0 <= k < |s| ==> padded[k] == 0;
  }

  // The constant and the checksum that the standard gives for them.

  predicate BitAt(x: bv32, position: bv6)
    requires position < 32
  {
    (x >> position) & 1 == 1
  }

  /**
   * The constant is the generator polynomial of IEEE 802.3 clause 3.2.9, x^32 aside, with the coefficient of x^k in bit
   * 31 - k.
   */
  lemma GeneratorPolynomial(k: bv6)
    requires k < 32
    ensures BitAt(POLYNOMIAL, 31 - k) <==> k in {26, 23, 22, 16, 12, 11, 10, 8, 7, 5, 4, 2, 1, 0}
  {
  }

  function EightSteps(x: bv32): bv32 {
    StepBit(StepBit(StepBit(StepBit(StepBit(StepBit(StepBit(StepBit(x))))))))
  }

  lemma EightStepsAre(x: bv32)
    ensures StepBits(x, 8) == EightSteps(x)
  {
    StepBitsAdd(x, 4, 4);
    FourStepBits(x);
    FourStepBits(StepBits(x, 4));
  }

  lemma FourStepBits(x: bv32)
    ensures StepBits(x, 4) == StepBit(StepBit(StepBit(StepBit(x))))
  {
    hide StepBit;
    assert StepBits(x, 4) == StepBits(StepBit(x), 3) == StepBits(StepBit(StepBit(x)), 2);
    assert StepBits(StepBit(StepBit(x)), 2) == StepBits(StepBit(StepBit(StepBit(x))), 1);
    assert StepBits(StepBit(StepBit(StepBit(x))), 1) == StepBits(StepBit(StepBit(StepBit(StepBit(x)))), 0);
  }

  /** The check value of CRC-32: the checksum of the nine characters "123456789". */
  lemma CheckValue()
    ensures Checksum([0x31, 0x32, 0x33, 0x34, 0x35, 0x36, 0x37, 0x38, 0x39]) == 0xCBF43926
  {
    hide StepByte;
    FirstThree();
    NextThree();
    LastThree();
    RegisterSplit(ALL_ONES, [0x31, 0x32, 0x33], [0x34, 0x35, 0x36]);
    RegisterSplit(ALL_ONES, [0x31, 0x32, 0x33, 0x34, 0x35, 0x36], [0x37, 0x38, 0x39]);
    assert [0x31, 0x32, 0x33] + [0x34, 0x35, 0x36] == [0x31, 0x32, 0x33, 0x34, 0x35, 0x36];
    assert [0x31, 0x32, 0x33, 0x34, 0x35, 0x36] + [0x37, 0x38, 0x39]
        == [0x31, 0x32, 0x33, 0x34, 0x35, 0x36, 0x37, 0x38, 0x39];
    assert Xor(0x340BC6D9, ALL_ONES) == 0xCBF43926;
  }

  lemma ThreeSteps(crc: bv32, a: bv8, b: bv8, c: bv8)
    ensures Register(crc, [a, b, c]) == StepByte(StepByte(StepByte(crc, a), b), c)
  {
    hide StepByte;
    RegisterSplit(crc, [a], [b, c]);
    assert [a] + [b, c] == [a, b, c];
    TwoSteps(Register(crc, [a]), b, c);
    assert Register(crc, [a]) == Register(StepByte(crc, a), []);
  }

  lemma FirstThree()
    ensures Register(ALL_ONES, [0x31, 0x32, 0x33]) == 0x77B79C2D
  {
    EightStepsAre(Xor(0xFFFFFFFF, Widen(0x31)));
    EightStepsAre(Xor(0x7C231048, Widen(0x32)));
    EightStepsAre(Xor(0xB0ACBB32, Widen(0x33)));
    assert EightSteps(Xor(0xFFFFFFFF, Widen(0x31))) == 0x7C231048;
    assert EightSteps(Xor(0x7C231048, Widen(0x32))) == 0xB0ACBB32;
    assert EightSteps(Xor(0xB0ACBB32, Widen(0x33))) == 0x77B79C2D;
    hide StepBits; hide EightSteps; hide Xor; hide Widen;
    ThreeSteps(0xFFFFFFFF, 0x31, 0x32, 0x33);
  }

  lemma NextThree()
    ensures Register(0x77B79C2D, [0x34, 0x35, 0x36]) == 0xF68D2C9E
  {
    EightStepsAre(Xor(0x77B79C2D, Widen(0x34)));
    EightStepsAre(Xor(0x641C1F5C, Widen(0x35)));
    EightStepsAre(Xor(0x340AC5E3, Widen(0x36)));
    assert EightSteps(Xor(0x77B79C2D, Widen(0x34))) == 0x641C1F5C;
    assert EightSteps(Xor(0x641C1F5C, Widen(0x35))) == 0x340AC5E3;
    assert EightSteps(Xor(0x340AC5E3, Widen(0x36))) == 0xF68D2C9E;
    hide StepBits; hide EightSteps; hide Xor; hide Widen;
    ThreeSteps(0x77B79C2D, 0x34, 0x35, 0x36);
  }

  lemma LastThree()
    ensures Register(0xF68D2C9E, [0x37, 0x38, 0x39]) == 0x340BC6D9
  {
    EightStepsAre(Xor(0xF68D2C9E, Widen(0x37)));
    EightStepsAre(Xor(0xAFFC9660, Widen(0x38)));
    EightStepsAre(Xor(0x651F2550, Widen(0x39)));
    assert EightSteps(Xor(0xF68D2C9E, Widen(0x37))) == 0xAFFC9660;
    assert EightSteps(Xor(0xAFFC9660, Widen(0x38))) == 0x651F2550;
    assert EightSteps(Xor(0x651F2550, Widen(0x39))) == 0x340BC6D9;
    hide StepBits; hide EightSteps; hide Xor; hide Widen;
    ThreeSteps(0xF68D2C9E, 0x37, 0x38, 0x39);
  }
}
