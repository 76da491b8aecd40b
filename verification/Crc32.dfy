/** src/crc32.c: the table-driven CRC-32 with its off-by-one guard, against the bit-at-a-time definition. */
module Crc32 {
  import opened Options
  import opened CrcTable

  type Bytes = seq<bv8>

  /** A register fed with one byte after the other. */
  function Fold(f: (bv32, bv8) -> bv32, crc: bv32, buf: Bytes): bv32
    decreases |buf|
  {
    if buf == [] then crc else Fold(f, f(crc, buf[0]), buf[1..])
  }

  lemma {:induction false} FoldConcat(f: (bv32, bv8) -> bv32, crc: bv32, a: Bytes, b: Bytes)
    ensures Fold(f, crc, a + b) == Fold(f, Fold(f, crc, a), b)
    decreases |a|
  {
    if a == [] {
      assert a + b == b;
    } else {
      assert (a + b)[1..] == a[1..] + b;
      FoldConcat(f, f(crc, a[0]), a[1..], b);
    }
  }

  lemma FoldNext(f: (bv32, bv8) -> bv32, crc: bv32, buf: Bytes, p: nat)
    requires p < |buf|
    ensures Fold(f, crc, buf[..p + 1]) == f(Fold(f, crc, buf[..p]), buf[p])
  {
    assert buf[..p + 1] == buf[..p] + [buf[p]];
    FoldConcat(f, crc, buf[..p], [buf[p]]);
    assert [buf[p]][1..] == [];
  }

  function Flip(crc: bv32): bv32 {
    crc ^ 0xFFFF_FFFF
  }

  lemma FlipFlip(crc: bv32)
    ensures Flip(Flip(crc)) == crc
  {
  }

  // ---------- the definition: section 8 of RFC 1952 ----------

  function RefByte(crc: bv32, b: bv8): bv32 {
    BitStep8(crc ^ (b as bv32))
  }

  function RefCrc(crc: bv32, buf: Bytes): bv32 {
    Flip(Fold(RefByte, Flip(crc), buf))
  }

  // ---------- the code ----------

  const CRC32_ARRAY_SIZE: bv32 := 255

  function Index(crc: bv32, b: bv8): bv32 {
    (crc ^ (b as bv32)) & 0xFF
  }

  function Mix(crc: bv32, idx: bv32): bv32 {
    Xor(Tab(idx), crc >> 8)
  }

  /** One turn of the loop; at index 255 the register is left alone. */
  function Update(crc: bv32, b: bv8): bv32 {
    if Index(crc, b) < CRC32_ARRAY_SIZE then Mix(crc, Index(crc, b)) else crc
  }

  function Crc(crc: bv32, buf: Bytes): bv32 {
    Flip(Fold(Update, Flip(crc), buf))
  }

  /** pclCrc32; None is the null pointer, for which the result is 0. */
  method PclCrc32(crc0: bv32, buf: Option<Bytes>) returns (rval: bv32)
    ensures rval == if buf.None? then 0 else Crc(crc0, buf.value)
  {
    var crc := Flip(crc0);
    rval := 0;
    if buf.Some? {
      var p := 0;
      while p < |buf.value|
        invariant p <= |buf.value|
        invariant crc == Fold(Update, Flip(crc0), buf.value[..p])
      {
        FoldNext(Update, Flip(crc0), buf.value, p);
        crc := Next(crc, buf.value[p]);
        p := p + 1;
      }
      assert buf.value[..p] == buf.value;
      rval := Flip(crc);
    }
  }

  /** The loop body. */
  method Next(crc0: bv32, b: bv8) returns (crc: bv32)
    ensures crc == Update(crc0, b)
  {
    crc := crc0;
    var idx := Index(crc, b);
    if idx < CRC32_ARRAY_SIZE {
      crc := Mix(crc, idx);
    }
  }

  /** Feeding two buffers one after the other is feeding their concatenation, also across index 255. */
  lemma Chaining(crc: bv32, a: Bytes, b: Bytes)
    ensures Crc(Crc(crc, a), b) == Crc(crc, a + b)
  {
    FoldConcat(Update, Flip(crc), a, b);
    FlipFlip(Fold(Update, Flip(crc), a));
  }

  // ---------- the bit-at-a-time step is linear ----------

  lemma XorShift1(a: bv32, b: bv32)
    ensures (a ^ b) >> 1 == (a >> 1) ^ (b >> 1) && (a ^ b) & 1 == (a & 1) ^ (b & 1)
    ensures (a & 1 == 0 || a & 1 == 1) && (b & 1 == 0 || b & 1 == 1)
  {
  }

  lemma XorLaws(a: bv32, b: bv32, c: bv32)
    ensures (a ^ b) ^ c == a ^ (b ^ c) && a ^ b == b ^ a && a ^ a == 0 && a ^ 0 == a
  {
  }

  lemma Xor4(p: bv32, a: bv32, b: bv32)
    ensures (p ^ a) ^ (p ^ b) == a ^ b
    ensures (p ^ a) ^ b == p ^ (a ^ b) && a ^ (p ^ b) == p ^ (a ^ b)
  {
    XorLaws(p, a, b);
    XorLaws(p, b, a);
    XorLaws(p, p, a ^ b);
    XorLaws(p ^ a, p, b);
    XorLaws(a, p, b);
    XorLaws(a, p, p);
    XorLaws(p, a, p);
  }

  lemma StepXor(a: bv32, b: bv32)
    ensures BitStep(a ^ b) == BitStep(a) ^ BitStep(b)
  {
    XorShift1(a, b);
    Xor4(POLYNOMIAL, a >> 1, b >> 1);
    Xor4(0, a >> 1, b >> 1);
  }

  lemma StepLinear(a: bv32, b: bv32)
    ensures BitStep(Xor(a, b)) == Xor(BitStep(a), BitStep(b))
  {
    StepXor(a, b);
  }

  lemma Step2Linear(a: bv32, b: bv32)
    ensures BitStep2(Xor(a, b)) == Xor(BitStep2(a), BitStep2(b))
  {
    StepLinear(a, b);
    StepLinear(BitStep(a), BitStep(b));
  }

  lemma Step4Linear(a: bv32, b: bv32)
    ensures BitStep4(Xor(a, b)) == Xor(BitStep4(a), BitStep4(b))
  {
    Step2Linear(a, b);
    Step2Linear(BitStep2(a), BitStep2(b));
  }

  lemma Step8Linear(a: bv32, b: bv32)
    ensures BitStep8(Xor(a, b)) == Xor(BitStep8(a), BitStep8(b))
  {
    Step4Linear(a, b);
    Step4Linear(BitStep4(a), BitStep4(b));
  }

  lemma ZeroXor(y: bv32)
    ensures 0 ^ y == y
  {
  }

  lemma ShiftStep(x: bv32)
    requires x & 1 == 0
    ensures BitStep(x) == x >> 1
  {
    var y := x >> 1;
    assert BitStep(x) == 0 ^ y;
    ZeroXor(y);
  }

  /** Eight steps only shift what lies above the low byte. */
  lemma Step2OfHigh(x: bv32)
    requires x & 3 == 0
    ensures BitStep2(x) == x >> 2
  {
    TwoShifts(x);
    ShiftStep(x);
    ShiftStep(x >> 1);
  }

  lemma TwoShifts(x: bv32)
    requires x & 3 == 0
    ensures x & 1 == 0 && (x >> 1) & 1 == 0 && (x >> 1) >> 1 == x >> 2
  {
  }

  lemma FourShifts(x: bv32)
    requires x & 0xF == 0
    ensures x & 3 == 0 && (x >> 2) & 3 == 0 && (x >> 2) >> 2 == x >> 4
  {
  }

  lemma Step4OfHigh(x: bv32)
    requires x & 0xF == 0
    ensures BitStep4(x) == x >> 4
  {
    FourShifts(x);
    Step2OfHigh(x);
    Step2OfHigh(x >> 2);
  }

  function High(x: bv32): bv32 {
    (x >> 8) << 8
  }

  function Low(x: bv32): bv32 {
    x & 0xFF
  }

  lemma EightShifts(x: bv32)
    ensures High(x) & 0xF == 0 && (High(x) >> 4) & 0xF == 0 && (High(x) >> 4) >> 4 == x >> 8
  {
  }

  lemma Step8OfHigh(x: bv32)
    ensures BitStep8(High(x)) == x >> 8
  {
    EightShifts(x);
    Step4OfHigh(High(x));
    Step4OfHigh(High(x) >> 4);
  }

  lemma HighAndLow(x: bv32)
    ensures x == Xor(Low(x), High(x)) && Low(x) <= 0xFF
  {
  }

  lemma Step8Splits(x: bv32)
    ensures BitStep8(x) == Xor(BitStep8(Low(x)), x >> 8)
  {
    HighAndLow(x);
    Step8Linear(Low(x), High(x));
    Step8OfHigh(x);
  }

  /** The table look-up is the bit-at-a-time definition, except at index 255. */
  lemma UpdateIsRef(crc: bv32, b: bv8)
    requires Index(crc, b) != 255
    ensures Update(crc, b) == RefByte(crc, b)
  {
    IndexBound(crc, b);
    LookupIsRef(crc, b);
  }

  lemma IndexBound(crc: bv32, b: bv8)
    ensures Index(crc, b) <= 255 && (Index(crc, b) != 255 ==> Index(crc, b) < 255)
  {
  }

  lemma ByteAboveNothing(crc: bv32, b: bv8)
    ensures (crc ^ (b as bv32)) >> 8 == crc >> 8
  {
  }

  lemma LookupIsRef(crc: bv32, b: bv8)
    ensures Xor(Tab(Index(crc, b)), crc >> 8) == RefByte(crc, b)
  {
    ByteAboveNothing(crc, b);
    Step8Splits(crc ^ (b as bv32));
    HighAndLow(crc ^ (b as bv32));
    TableIsBitwise(Index(crc, b));
  }

  // ---------- whole buffers ----------

  /** The only register value for which skipping index 255 does no harm. */
  const FIXED: bv32 := 0x2d2fc04d

  /** The run of the loop over this buffer meets index 255 only with that value in the register, if at all. */
  ghost predicate Harmless(crc: bv32, buf: Bytes)
    decreases |buf|
  {
    buf != [] ==> (Index(crc, buf[0]) != 255 || crc == FIXED) && Harmless(Update(crc, buf[0]), buf[1..])
  }

  /** The run never looks up index 255. */
  ghost predicate NoHit(crc: bv32, buf: Bytes)
    decreases |buf|
  {
    buf != [] ==> Index(crc, buf[0]) != 255 && NoHit(Update(crc, buf[0]), buf[1..])
  }

  lemma {:induction false} NoHitHarmless(crc: bv32, buf: Bytes)
    requires NoHit(crc, buf)
    ensures Harmless(crc, buf)
    decreases |buf|
  {
    if buf != [] {
      NoHitHarmless(Update(crc, buf[0]), buf[1..]);
    }
  }

  /** A turn differs from the definition exactly when the guard fires on another register value. */
  lemma TurnIsRefExactly(crc: bv32, b: bv8)
    ensures Update(crc, b) == RefByte(crc, b) <==> Index(crc, b) != 255 || crc == FIXED
  {
    if Index(crc, b) != 255 {
      UpdateIsRef(crc, b);
    } else {
      LookupIsRef(crc, b);
      FixedPoint(crc);
    }
  }

  lemma FixedPoint(crc: bv32)
    ensures 0x2d02ef8d ^ (crc >> 8) == crc <==> crc == FIXED
  {
  }

  lemma {:induction false} FoldIsRef(crc: bv32, buf: Bytes)
    requires Harmless(crc, buf)
    ensures Fold(Update, crc, buf) == Fold(RefByte, crc, buf)
    decreases |buf|
  {
    if buf != [] {
      TurnIsRefExactly(crc, buf[0]);
      FoldIsRef(Update(crc, buf[0]), buf[1..]);
    }
  }

  /** As long as the guard does no harm, and all the more if it never fires, the function is the CRC-32 of RFC 1952. */
  lemma CrcIsRef(crc: bv32, buf: Bytes)
    requires Harmless(Flip(crc), buf)
    ensures Crc(crc, buf) == RefCrc(crc, buf)
  {
    FoldIsRef(Flip(crc), buf);
  }

  // ---------- the definition tells single-byte changes apart ----------

  lemma StepInjective(a: bv32, b: bv32)
    requires BitStep(a) == BitStep(b)
    ensures a == b
  {
  }

  lemma Step2Injective(a: bv32, b: bv32)
    requires BitStep2(a) == BitStep2(b)
    ensures a == b
  {
    StepInjective(BitStep(a), BitStep(b));
    StepInjective(a, b);
  }

  lemma Step4Injective(a: bv32, b: bv32)
    requires BitStep4(a) == BitStep4(b)
    ensures a == b
  {
    Step2Injective(BitStep2(a), BitStep2(b));
    Step2Injective(a, b);
  }

  lemma Step8Injective(a: bv32, b: bv32)
    requires BitStep8(a) == BitStep8(b)
    ensures a == b
  {
    Step4Injective(BitStep4(a), BitStep4(b));
    Step4Injective(a, b);
  }

  lemma XorCancels(a: bv32, b: bv32, x: bv8, y: bv8)
    ensures a ^ (x as bv32) == b ^ (x as bv32) ==> a == b
    ensures a ^ (x as bv32) == a ^ (y as bv32) ==> x == y
  {
  }

  lemma {:induction false} RefInjective(a: bv32, b: bv32, buf: Bytes)
    requires Fold(RefByte, a, buf) == Fold(RefByte, b, buf)
    ensures a == b
    decreases |buf|
  {
    if buf != [] {
      RefInjective(RefByte(a, buf[0]), RefByte(b, buf[0]), buf[1..]);
      Step8Injective(a ^ (buf[0] as bv32), b ^ (buf[0] as bv32));
      XorCancels(a, b, buf[0], buf[0]);
    }
  }

  lemma FlipInjective(a: bv32, b: bv32)
    requires a != b
    ensures Flip(a) != Flip(b)
  {
    FlipFlip(a);
    FlipFlip(b);
  }

  lemma RefTellsBytes(c: bv32, x: bv8, y: bv8, post: Bytes)
    requires x != y
    ensures Fold(RefByte, RefByte(c, x), post) != Fold(RefByte, RefByte(c, y), post)
  {
    if Fold(RefByte, RefByte(c, x), post) == Fold(RefByte, RefByte(c, y), post) {
      RefInjective(RefByte(c, x), RefByte(c, y), post);
      Step8Injective(c ^ (x as bv32), c ^ (y as bv32));
      XorCancels(c, c, x, y);
    }
  }

  /** Two buffers that differ in one byte, and whose runs the guard leaves unharmed, have different checksums. */
  lemma OneByteDiffers(crc: bv32, pre: Bytes, x: bv8, y: bv8, post: Bytes)
    requires x != y
    requires Harmless(Flip(crc), pre + [x] + post) && Harmless(Flip(crc), pre + [y] + post)
    ensures Crc(crc, pre + [x] + post) != Crc(crc, pre + [y] + post)
  {
    FoldIsRef(Flip(crc), pre + [x] + post);
    FoldIsRef(Flip(crc), pre + [y] + post);
    RefSplit(Flip(crc), pre, x, post);
    RefSplit(Flip(crc), pre, y, post);
    RefTellsBytes(Fold(RefByte, Flip(crc), pre), x, y, post);
    FlipInjective(Fold(Update, Flip(crc), pre + [x] + post), Fold(Update, Flip(crc), pre + [y] + post));
  }

  lemma RefSplit(crc: bv32, pre: Bytes, x: bv8, post: Bytes)
    ensures Fold(RefByte, crc, pre + [x] + post) == Fold(RefByte, RefByte(Fold(RefByte, crc, pre), x), post)
  {
    FoldConcat(RefByte, crc, pre + [x], post);
    FoldConcat(RefByte, crc, pre, [x]);
    assert [x][1..] == [];
  }

  // ---------- what the guard costs ----------

  /** A buffer with one turn at index 255 that may do harm: the register value there decides. */
  lemma OneHitExactly(crc: bv32, pre: Bytes, b: bv8, post: Bytes)
    requires Harmless(Flip(crc), pre)
    requires var c := Fold(Update, Flip(crc), pre); Index(c, b) == 255 && Harmless(c, post)
    ensures Crc(crc, pre + [b] + post) == RefCrc(crc, pre + [b] + post) <==> Fold(Update, Flip(crc), pre) == FIXED
  {
    var c, buf := Fold(Update, Flip(crc), pre), pre + [b] + post;
    FoldIsRef(Flip(crc), pre);
    FoldIsRef(c, post);
    RefSplit(Flip(crc), pre, b, post);
    FoldConcat(Update, Flip(crc), pre + [b], post);
    FoldConcat(Update, Flip(crc), pre, [b]);
    assert [b][1..] == [];
    assert Update(c, b) == c;
    TurnIsRefExactly(c, b);
    if c != FIXED {
      if Fold(RefByte, c, post) == Fold(RefByte, RefByte(c, b), post) {
        RefInjective(c, RefByte(c, b), post);
      }
      FlipInjective(Fold(Update, Flip(crc), buf), Fold(RefByte, Flip(crc), buf));
    }
  }

  // ---------- several harmful turns ----------

  /** What a turn adds to the difference from the definition: at index 255, the look-up it leaves out. */
  function TurnError(crc: bv32, b: bv8): bv32 {
    if Index(crc, b) == 255 then Xor(crc, Mix(crc, 255)) else 0
  }

  function Carried(error: bv32, turns: nat): bv32
    decreases turns
  {
    if turns == 0 then error else Carried(BitStep8(error), turns - 1)
  }

  /** The errors of the turns, each carried to the end of the buffer on its own, and summed. */
  function Errors(crc: bv32, buf: Bytes): bv32
    decreases |buf|
  {
    if buf == [] then 0
    else Xor(Carried(TurnError(crc, buf[0]), |buf| - 1), Errors(Update(crc, buf[0]), buf[1..]))
  }

  lemma XorAssoc(a: bv32, b: bv32, c: bv32)
    ensures Xor(Xor(a, b), c) == Xor(a, Xor(b, c))
  {
  }

  lemma XorBack(a: bv32, b: bv32)
    ensures Xor(b, Xor(b, a)) == a && Xor(a, b) == Xor(b, a)
  {
  }

  lemma XorBetween(a: bv32, b: bv32, c: bv32)
    ensures Xor(a, c) == Xor(Xor(b, c), Xor(a, b))
  {
    XorBack(c, b);
    XorBack(a, b);
    XorBack(Xor(b, c), Xor(a, b));
    XorAssoc(a, b, Xor(b, c));
  }

  lemma XorZero(a: bv32, b: bv32)
    ensures Xor(a, b) == 0 <==> a == b
  {
    XorSelf(a);
    if Xor(a, b) == 0 {
      XorEqual(a, b);
    }
  }

  lemma XorSelf(a: bv32)
    ensures Xor(a, a) == 0
  {
  }

  lemma XorEqual(a: bv32, b: bv32)
    requires Xor(a, b) == 0
    ensures a == b
  {
  }

  lemma RefByteLinear(a: bv32, b: bv32, x: bv8)
    ensures Xor(RefByte(a, x), RefByte(b, x)) == BitStep8(Xor(a, b))
  {
    Step8Linear(a ^ (x as bv32), b ^ (x as bv32));
    XorSame(a, b, x as bv32);
  }

  lemma XorSame(a: bv32, b: bv32, x: bv32)
    ensures Xor(a ^ x, b ^ x) == Xor(a, b)
  {
  }

  /** The definition carries the difference of two registers along, whatever the bytes. */
  lemma {:induction false} RefLinear(a: bv32, b: bv32, buf: Bytes)
    ensures Xor(Fold(RefByte, a, buf), Fold(RefByte, b, buf)) == Carried(Xor(a, b), |buf|)
    decreases |buf|
  {
    if buf != [] {
      RefByteLinear(a, b, buf[0]);
      RefLinear(RefByte(a, buf[0]), RefByte(b, buf[0]), buf[1..]);
    }
  }

  lemma TurnDiffers(crc: bv32, b: bv8)
    ensures Xor(Update(crc, b), RefByte(crc, b)) == TurnError(crc, b)
  {
    if Index(crc, b) == 255 {
      LookupIsRef(crc, b);
    } else {
      UpdateIsRef(crc, b);
      XorZero(Update(crc, b), RefByte(crc, b));
    }
  }

  lemma {:induction false} FoldDiffers(crc: bv32, buf: Bytes)
    ensures Xor(Fold(Update, crc, buf), Fold(RefByte, crc, buf)) == Errors(crc, buf)
    decreases |buf|
  {
    if buf == [] {
      XorZero(crc, crc);
    } else {
      var u, r, rest := Update(crc, buf[0]), RefByte(crc, buf[0]), buf[1..];
      TurnDiffers(crc, buf[0]);
      FoldDiffers(u, rest);
      RefLinear(u, r, rest);
      XorBetween(Fold(Update, u, rest), Fold(RefByte, u, rest), Fold(RefByte, r, rest));
    }
  }

  lemma FlipXor(a: bv32, b: bv32)
    ensures Xor(Flip(a), Flip(b)) == Xor(a, b)
  {
  }

  /** Every buffer: the function is off the defined CRC-32 by the sum of its turns' errors, and right if that is 0. */
  lemma CrcDiffers(crc: bv32, buf: Bytes)
    ensures Xor(Crc(crc, buf), RefCrc(crc, buf)) == Errors(Flip(crc), buf)
    ensures Crc(crc, buf) == RefCrc(crc, buf) <==> Errors(Flip(crc), buf) == 0
  {
    FoldDiffers(Flip(crc), buf);
    FlipXor(Fold(Update, Flip(crc), buf), Fold(RefByte, Flip(crc), buf));
    XorZero(Crc(crc, buf), RefCrc(crc, buf));
  }

  function Zeros(n: nat): Bytes {
    seq(n, _ => 0)
  }

  /** Leading zero bytes are invisible: the register starts where the guard fires on them. */
  lemma {:induction false} LeadingZeros(n: nat, buf: Bytes)
    ensures Crc(0, Zeros(n) + buf) == Crc(0, buf)
    decreases n
  {
    if n == 0 {
      assert Zeros(0) + buf == buf;
    } else {
      ZeroIgnored();
      assert (Zeros(n) + buf)[0] == 0 && (Zeros(n) + buf)[1..] == Zeros(n - 1) + buf;
      LeadingZeros(n - 1, buf);
    }
  }

  lemma ZeroIgnored()
    ensures Update(Flip(0), 0) == Flip(0)
  {
  }

  /** So files of zeros of any length share one checksum, unlike under the definition. */
  lemma ZeroFilesCollide(m: nat, n: nat)
    ensures Crc(0, Zeros(m)) == Crc(0, Zeros(n)) == 0
    ensures RefCrc(0, Zeros(1)) == 0xd202ef8d != Crc(0, Zeros(1))
  {
    LeadingZeros(m, []);
    LeadingZeros(n, []);
    assert Zeros(m) + [] == Zeros(m) && Zeros(n) + [] == Zeros(n);
    assert Crc(0, []) == 0;
    assert Zeros(1)[1..] == [];
    OneZero();
  }

  lemma OneZero()
    ensures Flip(RefByte(Flip(0), 0)) == 0xd202ef8d
  {
  }
}
