/** The random number generator of glib_compat/grand.c: MT19937, as the engine
    mersenne_twister_engine of section 26.5.3.2 of ISO/IEC 14882:2011 with its usual
    parameters. */
module MersenneTwister {

  const N: nat := 624
  const M: nat := 397
  const MATRIX_A: bv32 := 0x9908b0df
  const UPPER_MASK: bv32 := 0x80000000
  const LOWER_MASK: bv32 := 0x7fffffff
  const TEMPERING_MASK_B: bv32 := 0x9d2c5680
  const TEMPERING_MASK_C: bv32 := 0xefc60000

  /** One step of the initialisation: the word at index `i` from the one before. */
  function Seeded(previous: bv32, i: nat): bv32
    requires i < N
  {
    Plus(Times(Folded(previous)), i as bv32)
  }

  function Folded(x: bv32): bv32 { x ^ (x >> 30) }

  function Plus(a: bv32, b: bv32): bv32 { a + b }

  function Times(x: bv32): bv32 { 1812433253 * x }

  /** The upper bit of one word with the lower bits of the next. */
  function Joined(x: bv32, next: bv32): bv32 { And(x, UPPER_MASK) | And(next, LOWER_MASK) }

  function Half(y: bv32): bv32 { y >> 1 }

  function Mag01(y: bv32): bv32 { if And(y, 1) == 0 then 0 else MATRIX_A }

  /** The recurrence on three words: `far` is M ahead of `x`, and `next` follows `x`. */
  function Twisted(far: bv32, x: bv32, next: bv32): bv32 {
    Xor(Xor(far, Half(Joined(x, next))), Mag01(Joined(x, next)))
  }

  /** The infinite sequence of state words. */
  function Word(seed: bv32, k: nat): bv32 {
    if k == 0 then seed
    else if k < N then Seeded(Word(seed, k - 1), k)
    else Twisted(Word(seed, k - N + M), Word(seed, k - N), Word(seed, k - N + 1))
  }

  function Xor(a: bv32, b: bv32): bv32 { a ^ b }

  function And(a: bv32, m: bv32): bv32 { a & m }
  function Left7(y: bv32): bv32 { y << 7 }
  function Left15(y: bv32): bv32 { y << 15 }

  function ShiftU(y: bv32): bv32 { y >> 11 }
  function ShiftS(y: bv32): bv32 { And(Left7(y), TEMPERING_MASK_B) }
  function ShiftT(y: bv32): bv32 { And(Left15(y), TEMPERING_MASK_C) }
  function ShiftL(y: bv32): bv32 { y >> 18 }

  function TemperU(y: bv32): bv32 { Xor(y, ShiftU(y)) }
  function TemperS(y: bv32): bv32 { Xor(y, ShiftS(y)) }
  function TemperT(y: bv32): bv32 { Xor(y, ShiftT(y)) }
  function TemperL(y: bv32): bv32 { Xor(y, ShiftL(y)) }

  function Temper(y: bv32): bv32 { TemperL(TemperT(TemperS(TemperU(y)))) }

  function UntemperU(y: bv32): bv32 { Xor(y, ShiftU(Xor(y, ShiftU(y)))) }
  function UntemperS(y: bv32): bv32 { Xor(y, ShiftS(Xor(y, ShiftS(Xor(y, ShiftS(Xor(y, ShiftS(y)))))))) }

  /** The way back from an output to the state word it came from. */
  function Untemper(y: bv32): bv32 { UntemperU(UntemperS(TemperT(TemperL(y)))) }

  // Each shift is linear over exclusive or, and gives zero when repeated.

  lemma ShiftULinear(a: bv32, b: bv32)
    ensures ShiftU(Xor(a, b)) == Xor(ShiftU(a), ShiftU(b))
  {}

  lemma ShiftUVanishes(y: bv32)
    ensures ShiftU(ShiftU(ShiftU(y))) == 0
  {}

  lemma AndXor(a: bv32, b: bv32, m: bv32)
    ensures And(a ^ b, m) == And(a, m) ^ And(b, m)
  {}

  lemma AndLinear(a: bv32, b: bv32, m: bv32)
    ensures And(Xor(a, b), m) == Xor(And(a, m), And(b, m))
  {
    AndXor(a, b, m);
    hide And;
  }

  lemma Left7Linear(a: bv32, b: bv32)
    ensures Left7(Xor(a, b)) == Xor(Left7(a), Left7(b))
  {}

  lemma Left15Linear(a: bv32, b: bv32)
    ensures Left15(Xor(a, b)) == Xor(Left15(a), Left15(b))
  {}

  lemma ShiftSLinear(a: bv32, b: bv32)
    ensures ShiftS(Xor(a, b)) == Xor(ShiftS(a), ShiftS(b))
  {
    hide Xor, And, Left7;
    AndLinear(Left7(a), Left7(b), TEMPERING_MASK_B);
    Left7Linear(a, b);
  }

  lemma ShiftSVanishes(y: bv32)
    ensures ShiftS(ShiftS(ShiftS(ShiftS(ShiftS(y))))) == 0
  {}

  lemma ShiftTLinear(a: bv32, b: bv32)
    ensures ShiftT(Xor(a, b)) == Xor(ShiftT(a), ShiftT(b))
  {
    hide Xor, And, Left15;
    AndLinear(Left15(a), Left15(b), TEMPERING_MASK_C);
    Left15Linear(a, b);
  }

  lemma ShiftTVanishes(y: bv32)
    ensures ShiftT(ShiftT(y)) == 0
  {}

  lemma ShiftLLinear(a: bv32, b: bv32)
    ensures ShiftL(Xor(a, b)) == Xor(ShiftL(a), ShiftL(b))
  {}

  lemma ShiftLVanishes(y: bv32)
    ensures ShiftL(ShiftL(y)) == 0
  {}

  lemma Cancel(a: bv32, b: bv32)
    ensures Xor(Xor(a, b), b) == a && Xor(a, 0) == a
  {}

  lemma Telescope(a: bv32, b: bv32, c: bv32)
    ensures Xor(Xor(a, b), Xor(b, c)) == Xor(a, c)
  {}

  lemma InverseU(y: bv32)
    ensures UntemperU(TemperU(y)) == y && TemperU(UntemperU(y)) == y
  {
    hide Xor, ShiftU;
    var a, b := ShiftU(y), ShiftU(ShiftU(y));
    ShiftUVanishes(y);
    ShiftULinear(y, a);
    Telescope(y, a, b);
    ShiftULinear(y, b);
    Cancel(a, b);
    Cancel(y, a);
    ShiftULinear(y, Xor(a, b));
    ShiftULinear(a, b);
    Cancel(b, a);
    Cancel(y, Xor(a, b));
  }

  lemma InverseS(y: bv32)
    ensures UntemperS(TemperS(y)) == y
  {
    hide Xor, ShiftS;
    var a := ShiftS(y);
    var b := ShiftS(a);
    var c := ShiftS(b);
    var d := ShiftS(c);
    ShiftSVanishes(y);
    ShiftSLinear(y, a);
    Telescope(y, a, b);
    ShiftSLinear(y, b);
    Telescope(y, a, c);
    ShiftSLinear(y, c);
    Telescope(y, a, d);
    ShiftSLinear(y, d);
    Cancel(a, d);
    Cancel(y, a);
  }

  lemma InverseSBack(y: bv32)
    ensures TemperS(UntemperS(y)) == y
  {
    hide Xor, ShiftS;
    var a := ShiftS(y);
    var b := ShiftS(a);
    var c := ShiftS(b);
    var d := ShiftS(c);
    ShiftSVanishes(y);
    ShiftSLinear(y, a);
    ShiftSLinear(y, Xor(a, b));
    ShiftSLinear(a, b);
    var bc := Xor(b, c);
    ShiftSLinear(y, Xor(a, bc));
    ShiftSLinear(a, bc);
    ShiftSLinear(b, c);
    var cd := Xor(c, d);
    var w := Xor(a, Xor(b, cd));
    assert UntemperS(y) == Xor(y, w);
    ShiftSLinear(y, w);
    ShiftSLinear(a, Xor(b, cd));
    ShiftSLinear(b, cd);
    ShiftSLinear(c, d);
    Cancel(d, a);
    Cancel(y, w);
  }

  lemma InverseT(y: bv32)
    ensures TemperT(TemperT(y)) == y
  {
    hide Xor, ShiftT;
    ShiftTLinear(y, ShiftT(y));
    ShiftTVanishes(y);
    Cancel(ShiftT(y), y);
    Cancel(y, ShiftT(y));
  }

  lemma InverseL(y: bv32)
    ensures TemperL(TemperL(y)) == y
  {
    hide Xor, ShiftL;
    ShiftLLinear(y, ShiftL(y));
    ShiftLVanishes(y);
    Cancel(ShiftL(y), y);
    Cancel(y, ShiftL(y));
  }

  /** Tempering is a bijection on 32-bit words. */
  lemma TemperBijective(y: bv32)
    ensures Untemper(Temper(y)) == y && Temper(Untemper(y)) == y
  {
    hide TemperU, TemperS, TemperT, TemperL, UntemperU, UntemperS;
    InverseU(y);
    InverseS(TemperU(y));
    InverseT(TemperS(TemperU(y)));
    InverseL(TemperT(TemperS(TemperU(y))));
    InverseL(y);
    InverseT(TemperL(y));
    InverseSBack(TemperT(TemperL(y)));
    InverseU(UntemperS(TemperT(TemperL(y))));
  }

  // What the recurrence, the tempering and the seeding compute, said without their bodies:
  // the first two are linear over exclusive or with these images of the single bits.

  lemma JoinedLinear(x: bv32, x': bv32, n: bv32, n': bv32)
    ensures Joined(Xor(x, x'), Xor(n, n')) == Xor(Joined(x, n), Joined(x', n'))
  {
    JoinedXor(x, n);
    JoinedXor(x', n');
    JoinedXor(Xor(x, x'), Xor(n, n'));
    hide Xor, And, Joined;
    AndLinear(x, x', UPPER_MASK);
    AndLinear(n, n', LOWER_MASK);
    Shuffle(And(x, UPPER_MASK), And(x', UPPER_MASK), And(n, LOWER_MASK), And(n', LOWER_MASK));
  }

  lemma JoinedXor(x: bv32, n: bv32)
    ensures Joined(x, n) == Xor(And(x, UPPER_MASK), And(n, LOWER_MASK))
  {}

  lemma HalfLinear(a: bv32, b: bv32)
    ensures Half(Xor(a, b)) == Xor(Half(a), Half(b))
  {}

  lemma Mag01Linear(a: bv32, b: bv32)
    ensures Mag01(Xor(a, b)) == Xor(Mag01(a), Mag01(b))
  {
    hide Xor, And;
    AndLinear(a, b, 1);
    LowestBit(a);
    LowestBit(b);
    XorZeros(MATRIX_A);
    XorZeros(1);
  }

  lemma LowestBit(a: bv32)
    ensures And(a, 1) == 0 || And(a, 1) == 1
  {}

  lemma XorZeros(a: bv32)
    ensures Xor(0, 0) == 0 == Xor(a, a) && Xor(a, 0) == a == Xor(0, a)
  {}

  lemma Shuffle(a: bv32, b: bv32, c: bv32, d: bv32)
    ensures Xor(Xor(a, b), Xor(c, d)) == Xor(Xor(a, c), Xor(b, d))
  {
    hide Xor;
    Associate(a, b, Xor(c, d));
    Associate(b, c, d);
    Commute(b, c);
    Associate(c, b, d);
    Associate(a, c, Xor(b, d));
  }

  lemma Associate(a: bv32, b: bv32, c: bv32)
    ensures Xor(Xor(a, b), c) == Xor(a, Xor(b, c))
  {}

  lemma Commute(a: bv32, b: bv32)
    ensures Xor(a, b) == Xor(b, a)
  {}

  /** The recurrence is linear. */
  lemma TwistLinear(f: bv32, f': bv32, x: bv32, x': bv32, n: bv32, n': bv32)
    ensures Twisted(Xor(f, f'), Xor(x, x'), Xor(n, n')) == Xor(Twisted(f, x, n), Twisted(f', x', n'))
  {
    hide Xor, Joined, Half, Mag01;
    var y, y' := Joined(x, n), Joined(x', n');
    JoinedLinear(x, x', n, n');
    HalfLinear(y, y');
    Mag01Linear(y, y');
    Shuffle(f, f', Half(y), Half(y'));
    Shuffle(Xor(f, Half(y)), Xor(f', Half(y')), Mag01(y), Mag01(y'));
  }

  /** The far word passes, only the upper bit of `x` counts, and every bit of `next` moves down
      one place, the lowest one to the matrix and the upper one to nothing. */
  lemma TwistBasis(f: bv32, x: bv32)
    ensures Twisted(f, 0, 0) == f
    ensures Twisted(0, And(x, 0x7fffffff), 0) == 0 && Twisted(0, 0x80000000, 0) == 0x40000000
    ensures Twisted(0, 0, 0x00000001) == 0x9908b0df && Twisted(0, 0, 0x00000002) == 0x00000001
    ensures Twisted(0, 0, 0x00000004) == 0x00000002 && Twisted(0, 0, 0x00000008) == 0x00000004
    ensures Twisted(0, 0, 0x00000010) == 0x00000008 && Twisted(0, 0, 0x00000020) == 0x00000010
    ensures Twisted(0, 0, 0x00000040) == 0x00000020 && Twisted(0, 0, 0x00000080) == 0x00000040
    ensures Twisted(0, 0, 0x00000100) == 0x00000080 && Twisted(0, 0, 0x00000200) == 0x00000100
    ensures Twisted(0, 0, 0x00000400) == 0x00000200 && Twisted(0, 0, 0x00000800) == 0x00000400
    ensures Twisted(0, 0, 0x00001000) == 0x00000800 && Twisted(0, 0, 0x00002000) == 0x00001000
    ensures Twisted(0, 0, 0x00004000) == 0x00002000 && Twisted(0, 0, 0x00008000) == 0x00004000
    ensures Twisted(0, 0, 0x00010000) == 0x00008000 && Twisted(0, 0, 0x00020000) == 0x00010000
    ensures Twisted(0, 0, 0x00040000) == 0x00020000 && Twisted(0, 0, 0x00080000) == 0x00040000
    ensures Twisted(0, 0, 0x00100000) == 0x00080000 && Twisted(0, 0, 0x00200000) == 0x00100000
    ensures Twisted(0, 0, 0x00400000) == 0x00200000 && Twisted(0, 0, 0x00800000) == 0x00400000
    ensures Twisted(0, 0, 0x01000000) == 0x00800000 && Twisted(0, 0, 0x02000000) == 0x01000000
    ensures Twisted(0, 0, 0x04000000) == 0x02000000 && Twisted(0, 0, 0x08000000) == 0x04000000
    ensures Twisted(0, 0, 0x10000000) == 0x08000000 && Twisted(0, 0, 0x20000000) == 0x10000000
    ensures Twisted(0, 0, 0x40000000) == 0x20000000 && Twisted(0, 0, 0x80000000) == 0x00000000
  {
    hide Twisted, And;
    TwistOthers(f, x);
    TwistLow();
    TwistHigh();
  }

  lemma TwistOthers(f: bv32, x: bv32)
    ensures Twisted(f, 0, 0) == f
    ensures Twisted(0, And(x, 0x7fffffff), 0) == 0 && Twisted(0, 0x80000000, 0) == 0x40000000
  {}

  lemma TwistLow()
    ensures Twisted(0, 0, 0x00000001) == 0x9908b0df && Twisted(0, 0, 0x00000002) == 0x00000001
    ensures Twisted(0, 0, 0x00000004) == 0x00000002 && Twisted(0, 0, 0x00000008) == 0x00000004
    ensures Twisted(0, 0, 0x00000010) == 0x00000008 && Twisted(0, 0, 0x00000020) == 0x00000010
    ensures Twisted(0, 0, 0x00000040) == 0x00000020 && Twisted(0, 0, 0x00000080) == 0x00000040
    ensures Twisted(0, 0, 0x00000100) == 0x00000080 && Twisted(0, 0, 0x00000200) == 0x00000100
    ensures Twisted(0, 0, 0x00000400) == 0x00000200 && Twisted(0, 0, 0x00000800) == 0x00000400
    ensures Twisted(0, 0, 0x00001000) == 0x00000800 && Twisted(0, 0, 0x00002000) == 0x00001000
    ensures Twisted(0, 0, 0x00004000) == 0x00002000 && Twisted(0, 0, 0x00008000) == 0x00004000
  {}

  lemma TwistHigh()
    ensures Twisted(0, 0, 0x00010000) == 0x00008000 && Twisted(0, 0, 0x00020000) == 0x00010000
    ensures Twisted(0, 0, 0x00040000) == 0x00020000 && Twisted(0, 0, 0x00080000) == 0x00040000
    ensures Twisted(0, 0, 0x00100000) == 0x00080000 && Twisted(0, 0, 0x00200000) == 0x00100000
    ensures Twisted(0, 0, 0x00400000) == 0x00200000 && Twisted(0, 0, 0x00800000) == 0x00400000
    ensures Twisted(0, 0, 0x01000000) == 0x00800000 && Twisted(0, 0, 0x02000000) == 0x01000000
    ensures Twisted(0, 0, 0x04000000) == 0x02000000 && Twisted(0, 0, 0x08000000) == 0x04000000
    ensures Twisted(0, 0, 0x10000000) == 0x08000000 && Twisted(0, 0, 0x20000000) == 0x10000000
    ensures Twisted(0, 0, 0x40000000) == 0x20000000 && Twisted(0, 0, 0x80000000) == 0x00000000
  {}

  /** Tempering is linear. */
  lemma TemperLinear(a: bv32, b: bv32)
    ensures Temper(Xor(a, b)) == Xor(Temper(a), Temper(b))
  {
    hide Xor, ShiftU, ShiftS, ShiftT, ShiftL;
    ShiftULinear(a, b);
    Shuffle(a, b, ShiftU(a), ShiftU(b));
    var a1, b1 := TemperU(a), TemperU(b);
    ShiftSLinear(a1, b1);
    Shuffle(a1, b1, ShiftS(a1), ShiftS(b1));
    var a2, b2 := TemperS(a1), TemperS(b1);
    ShiftTLinear(a2, b2);
    Shuffle(a2, b2, ShiftT(a2), ShiftT(b2));
    var a3, b3 := TemperT(a2), TemperT(b2);
    ShiftLLinear(a3, b3);
    Shuffle(a3, b3, ShiftL(a3), ShiftL(b3));
  }

  /** Where tempering takes the single bits. */
  lemma TemperBasis()
    ensures Temper(0x00000001) == 0x00400091 && Temper(0x00000002) == 0x00000002
    ensures Temper(0x00000004) == 0x01020244 && Temper(0x00000008) == 0x02040489
    ensures Temper(0x00000010) == 0x00000010 && Temper(0x00000020) == 0x08001220
    ensures Temper(0x00000040) == 0x00000040 && Temper(0x00000080) == 0x20404890
    ensures Temper(0x00000100) == 0x00800120 && Temper(0x00000200) == 0x01000240
    ensures Temper(0x00000400) == 0x02000480 && Temper(0x00000800) == 0x04440990
    ensures Temper(0x00001000) == 0x08081200 && Temper(0x00002000) == 0x01022244
    ensures Temper(0x00004000) == 0x22244c81 && Temper(0x00008000) == 0x40009010
    ensures Temper(0x00010000) == 0x88013220 && Temper(0x00020000) == 0x01020000
    ensures Temper(0x00040000) == 0x20444891 && Temper(0x00080000) == 0x04880022
    ensures Temper(0x00100000) == 0x09100044 && Temper(0x00200000) == 0x12200088
    ensures Temper(0x00400000) == 0x04440911 && Temper(0x00800000) == 0x08881222
    ensures Temper(0x01000000) == 0x81000040 && Temper(0x02000000) == 0x22204888
    ensures Temper(0x04000000) == 0x44009100 && Temper(0x08000000) == 0x88012200
    ensures Temper(0x10000000) == 0x11020440 && Temper(0x20000000) == 0x20040801
    ensures Temper(0x40000000) == 0x44081102 && Temper(0x80000000) == 0x88102204
  {
    hide Temper;
    TemperLow();
    TemperMiddle();
    TemperUpper();
    TemperHigh();
  }

  lemma TemperLow()
    ensures Temper(0x00000001) == 0x00400091 && Temper(0x00000002) == 0x00000002
    ensures Temper(0x00000004) == 0x01020244 && Temper(0x00000008) == 0x02040489
    ensures Temper(0x00000010) == 0x00000010 && Temper(0x00000020) == 0x08001220
    ensures Temper(0x00000040) == 0x00000040 && Temper(0x00000080) == 0x20404890
  {}

  lemma TemperMiddle()
    ensures Temper(0x00000100) == 0x00800120 && Temper(0x00000200) == 0x01000240
    ensures Temper(0x00000400) == 0x02000480 && Temper(0x00000800) == 0x04440990
    ensures Temper(0x00001000) == 0x08081200 && Temper(0x00002000) == 0x01022244
    ensures Temper(0x00004000) == 0x22244c81 && Temper(0x00008000) == 0x40009010
  {}

  lemma TemperUpper()
    ensures Temper(0x00010000) == 0x88013220 && Temper(0x00020000) == 0x01020000
    ensures Temper(0x00040000) == 0x20444891 && Temper(0x00080000) == 0x04880022
    ensures Temper(0x00100000) == 0x09100044 && Temper(0x00200000) == 0x12200088
    ensures Temper(0x00400000) == 0x04440911 && Temper(0x00800000) == 0x08881222
  {}

  lemma TemperHigh()
    ensures Temper(0x01000000) == 0x81000040 && Temper(0x02000000) == 0x22204888
    ensures Temper(0x04000000) == 0x44009100 && Temper(0x08000000) == 0x88012200
    ensures Temper(0x10000000) == 0x11020440 && Temper(0x20000000) == 0x20040801
    ensures Temper(0x40000000) == 0x44081102 && Temper(0x80000000) == 0x88102204
  {}

  /** The index of a seed word is added to what the word before gives. */
  lemma SeedIndex(previous: bv32, i: nat)
    requires i < N
    ensures Seeded(previous, i) == Plus(Seeded(previous, 0), i as bv32)
  {
    hide Times, Folded, Plus;
    PlusZero(Times(Folded(previous)));
  }

  lemma PlusZero(a: bv32)
    ensures Plus(a, 0 as bv32) == a
  {}

  /** What the seeding makes of single bits, and words of known sequences. */
  lemma SeedSamples()
    ensures Seeded(0, 0) == 0 && Seeded(5489, 1) == 1301868182
    ensures Seeded(0xc0000001, 7) == 0x980f12d1 && Seeded(0xffffffff, 623) == 0x4fe1dcdb
    ensures Seeded(0x00000001, 0) == 0x6c078965 && Seeded(0x00000002, 0) == 0xd80f12ca
    ensures Seeded(0x00000004, 0) == 0xb01e2594 && Seeded(0x00000008, 0) == 0x603c4b28
    ensures Seeded(0x00000010, 0) == 0xc0789650 && Seeded(0x00000020, 0) == 0x80f12ca0
    ensures Seeded(0x00000040, 0) == 0x01e25940 && Seeded(0x00000080, 0) == 0x03c4b280
    ensures Seeded(0x00000100, 0) == 0x07896500 && Seeded(0x00000200, 0) == 0x0f12ca00
    ensures Seeded(0x00000400, 0) == 0x1e259400 && Seeded(0x00000800, 0) == 0x3c4b2800
    ensures Seeded(0x00001000, 0) == 0x78965000 && Seeded(0x00002000, 0) == 0xf12ca000
    ensures Seeded(0x00004000, 0) == 0xe2594000 && Seeded(0x00008000, 0) == 0xc4b28000
    ensures Seeded(0x00010000, 0) == 0x89650000 && Seeded(0x00020000, 0) == 0x12ca0000
    ensures Seeded(0x00040000, 0) == 0x25940000 && Seeded(0x00080000, 0) == 0x4b280000
    ensures Seeded(0x00100000, 0) == 0x96500000 && Seeded(0x00200000, 0) == 0x2ca00000
    ensures Seeded(0x00400000, 0) == 0x59400000 && Seeded(0x00800000, 0) == 0xb2800000
    ensures Seeded(0x01000000, 0) == 0x65000000 && Seeded(0x02000000, 0) == 0xca000000
    ensures Seeded(0x04000000, 0) == 0x94000000 && Seeded(0x08000000, 0) == 0x28000000
    ensures Seeded(0x10000000, 0) == 0x50000000 && Seeded(0x20000000, 0) == 0xa0000000
    ensures Seeded(0x40000000, 0) == 0xac078965 && Seeded(0x80000000, 0) == 0x580f12ca
  {}

  /** The recurrence with the parameters of MT19937 written out. */
  lemma Recurrence(seed: bv32, k: nat)
    ensures Word(seed, 0) == seed && (0 < k < 624 ==> Word(seed, k) == Seeded(Word(seed, k - 1), k))
    ensures Word(seed, k + 624) == Twisted(Word(seed, k + 397), Word(seed, k), Word(seed, k + 1))
  {
    hide Seeded, Twisted;
  }

  class GRand {
    var mt: array<bv32>
    var mti: nat
    ghost var seed: bv32
    /** The state holds the words from this index on. */
    ghost var start: nat

    ghost predicate Valid()
      reads this, mt
    {
      && mt.Length == N && mti <= N
      && forall i :: 0 <= i < N ==> mt[i] == Word(seed, start + i)
    }

    /** How many numbers have been drawn since the seed was set. */
    ghost function Drawn(): int
      reads this
    {
      start + mti - N
    }

    constructor (seed: bv32)
      ensures Valid() && fresh(mt) && this.seed == seed && Drawn() == 0
    {
      mt := new bv32[N];
      mti := 0;
      new;
      SetSeed(seed);
    }

    /** g_rand_set_seed, in the version the generator is fixed to */
    method SetSeed(seed: bv32)
      requires mt.Length == N
      modifies this, mt
      ensures Valid() && mt == old(mt) && this.seed == seed && Drawn() == 0
    {
      hide Seeded, Twisted;
      this.seed, start := seed, 0;
      mt[0] := seed;
      mti := 1;
      while mti < N
        invariant 1 <= mti <= N && mt == old(mt) && this.seed == seed && start == 0
        invariant forall i :: 0 <= i < mti ==> mt[i] == Word(seed, i)
      {
        mt[mti] := Seeded(mt[mti - 1], mti);
        mti := mti + 1;
      }
    }

    /** The batch of g_rand_int: all words step N places on, overwritten in place. */
    method Regenerate()
      requires Valid()
      modifies this`start, this`mti, mt
      ensures Valid() && start == old(start) + N && mti == 0
    {
      hide Seeded, Twisted, Word;
      ghost var s := start;
      var kk := 0;
      while kk < N - M
        invariant kk <= N - M
        invariant forall i :: 0 <= i < kk ==> mt[i] == Word(seed, s + N + i)
        invariant forall i :: kk <= i < N ==> mt[i] == Word(seed, s + i)
      {
        WordStep(seed, s + kk);
        mt[kk] := Twisted(mt[kk + M], mt[kk], mt[kk + 1]);
        kk := kk + 1;
      }
      while kk < N - 1
        invariant N - M <= kk <= N - 1
        invariant forall i :: 0 <= i < kk ==> mt[i] == Word(seed, s + N + i)
        invariant forall i :: kk <= i < N ==> mt[i] == Word(seed, s + i)
      {
        WordStep(seed, s + kk);
        assert mt[kk + M - N] == Word(seed, s + N + (kk + M - N));
        mt[kk] := Twisted(mt[kk + M - N], mt[kk], mt[kk + 1]);
        kk := kk + 1;
      }
      WordStep(seed, s + N - 1);
      assert mt[0] == Word(seed, s + N) && mt[M - 1] == Word(seed, s + N + (M - 1));
      mt[N - 1] := Twisted(mt[M - 1], mt[N - 1], mt[0]);
      mti, start := 0, s + N;
    }

    /** g_rand_int: the k-th number drawn is the tempered k-th word after the seed words. */
    method Int() returns (y: bv32)
      requires Valid()
      modifies this`start, this`mti, mt
      ensures Valid() && Drawn() == old(Drawn()) + 1
      ensures N + old(Drawn()) >= 0 && y == Temper(Word(seed, N + old(Drawn())))
    {
      hide Seeded, Twisted, Word, Xor, ShiftU, ShiftS, ShiftT, ShiftL;
      if mti >= N {
        Regenerate();
      }
      y := mt[mti];
      mti := mti + 1;
      y := Xor(y, ShiftU(y));
      y := Xor(y, ShiftS(y));
      y := Xor(y, ShiftT(y));
      y := Xor(y, ShiftL(y));
    }
  }

  lemma WordStep(seed: bv32, k: nat)
    ensures Word(seed, k + N) == Twisted(Word(seed, k + M), Word(seed, k), Word(seed, k + 1))
  {}
}
