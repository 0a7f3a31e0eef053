/**
 MT19937 as an infinite sequence of 32-bit words, and the outputs drawn from it.
 */
module TwisterSpec {
  import opened Bits

  /** The upper bit of u joined to the lower bits of v. */
  function Joined(u: Word, v: Word): Word {
    (u & 0x80000000) | (v & 0x7FFFFFFF)
  }

  predicate Odd(w: Word) {
    w & 1 == 1
  }

  function TwistConstant(v: Word): Word {
    if Odd(v) then 0x9908B0DF else 0
  }

  /** The joined bits of u and v, times the twist matrix, added to m. */
  function Twist(u: Word, v: Word, m: Word): Word {
    Xor(Xor(m, Right1(Joined(u, v))), TwistConstant(v))
  }

  // The four tempering steps.

  function Temper1(x: Word): Word {
    Xor(x, Right11(x))
  }

  function Temper2(x: Word): Word {
    Xor(x, (x << 7) & 0x9D2C5680)
  }

  function Temper3(x: Word): Word {
    Xor(x, (x << 15) & 0xEFC60000)
  }

  function Temper4(x: Word): Word {
    Xor(x, Right18(x))
  }

  function Temper(x: Word): Word {
    Temper4(Temper3(Temper2(Temper1(x))))
  }

  // Products of words are modulo 2^32.

  function Times(p: Word, q: Word): Word {
    p * q
  }

  function Generate(w: Word): Word {
    69069 * w
  }

  /** The seed cut to 32 bits and made odd. */
  function OddSeed(seed: bv64): Word {
    Narrowed(seed) as Word
  }

  /** The j-th word of the seeding generator. */
  function SeedWord(seed: bv64, j: nat): Word {
    if j == 0 then OddSeed(seed) else Generate(SeedWord(seed, j - 1))
  }

  /** Word i of the sequence that starts with the 624 seed words. */
  function X(seed: bv64, i: nat): Word {
    if i < 624 then SeedWord(seed, i)
    else Twist(X(seed, i - 624), X(seed, i - 623), X(seed, i - 227))
  }

  function Half(w: Word): Word {
    Right1(w)
  }

  /**
   The i-th draw after seeding, counted from 0. One draw in 624 reloads the state and returns
   the full tempered word; the others return it shifted right by one.
   */
  function Draw(seed: bv64, i: nat): Word {
    var t := Temper(X(seed, 624 + i));
    if i % 624 == 0 then t else Half(t)
  }

  // ---------- the seed words ----------

  /** 69069^j modulo 2^32. */
  function Power(j: nat): Word {
    if j == 0 then 1 else Generate(Power(j - 1))
  }

  lemma MoveFactor(p: Word, s: Word)
    ensures Generate(Times(p, s)) == Times(Generate(p), s)
    ensures Times(1, s) == s
  {
  }

  /** In closed form the j-th seed word is 69069^j times the odd seed, modulo 2^32. */
  lemma {:induction false} SeedWordClosedForm(seed: bv64, j: nat)
    ensures SeedWord(seed, j) == Times(Power(j), OddSeed(seed))
  {
    hide Generate, Times, OddSeed;
    MoveFactor(Power(if j == 0 then 0 else j - 1), OddSeed(seed));
    if j > 0 {
      SeedWordClosedForm(seed, j - 1);
    }
  }

  lemma OddTimesOdd(w: Word)
    requires Odd(w)
    ensures Odd(Generate(w))
  {
  }

  lemma SeedIsOdd(seed: bv64)
    ensures Odd(OddSeed(seed))
  {
  }

  /** Every seed word is odd. */
  lemma {:induction false} SeedWordIsOdd(seed: bv64, j: nat)
    ensures Odd(SeedWord(seed, j))
  {
    hide Odd, Generate, OddSeed;
    SeedIsOdd(seed);
    if j > 0 {
      SeedWordIsOdd(seed, j - 1);
      OddTimesOdd(SeedWord(seed, j - 1));
    }
  }

  /** Two seeds with the same bits 1 to 31. */
  predicate SameSeed(seed: bv64, other: bv64) {
    (seed & 0xFFFFFFFE) == (other & 0xFFFFFFFE)
  }

  /** The seed as the source narrows it, before it is stored. */
  function Narrowed(seed: bv64): (x: bv64)
    ensures x <= 0xFFFFFFFF
  {
    (seed | 1) & 0xFFFFFFFF
  }

  lemma SameNarrowed(seed: bv64, other: bv64)
    requires SameSeed(seed, other)
    ensures Narrowed(seed) == Narrowed(other)
  {
  }

  lemma SameFromNarrowed(seed: bv64, other: bv64)
    requires Narrowed(seed) == Narrowed(other)
    ensures SameSeed(seed, other)
  {
  }

  lemma WidenedOddSeed(seed: bv64)
    ensures Narrowed(seed) == OddSeed(seed) as bv64
  {
  }

  lemma SameOddSeed(seed: bv64, other: bv64)
    ensures SameSeed(seed, other) <==> OddSeed(seed) == OddSeed(other)
  {
    WidenedOddSeed(seed);
    WidenedOddSeed(other);
    hide *;
    if SameSeed(seed, other) {
      SameNarrowed(seed, other);
      SameOddFromNarrowed(seed, other);
    }
    if OddSeed(seed) == OddSeed(other) {
      SameFromNarrowed(seed, other);
    }
  }

  lemma SameOddFromNarrowed(seed: bv64, other: bv64)
    requires Narrowed(seed) == Narrowed(other)
    ensures OddSeed(seed) == OddSeed(other)
  {
    hide Narrowed;
  }

  lemma {:induction false} SameSequence(seed: bv64, other: bv64, i: nat)
    requires OddSeed(seed) == OddSeed(other)
    ensures X(seed, i) == X(other, i)
    decreases i
  {
    hide Twist, OddSeed, Generate;
    if i >= 624 {
      SameSequence(seed, other, i - 624);
      SameSequence(seed, other, i - 623);
      SameSequence(seed, other, i - 227);
    } else if i > 0 {
      SameSequence(seed, other, i - 1);
    }
  }

  /** Exactly bits 1 to 31 of the seed matter: seeds that agree there, and only those, share their sequence. */
  lemma SeedBitsThatMatter(seed: bv64, other: bv64)
    ensures SameSeed(seed, other) <==> forall i: nat :: X(seed, i) == X(other, i)
  {
    hide SameSeed, OddSeed;
    SameOddSeed(seed, other);
    if OddSeed(seed) == OddSeed(other) {
      forall i: nat ensures X(seed, i) == X(other, i) {
        SameSequence(seed, other, i);
      }
    } else {
      assert X(seed, 0) != X(other, 0);
    }
  }

  // ---------- the first draw from the default seed ----------

  lemma {:induction false} PowerSum(a: nat, b: nat)
    ensures Power(a + b) == Times(Power(a), Power(b))
  {
    hide Generate, Times;
    MoveFactor(Power(if a == 0 then 0 else a - 1), Power(b));
    if a > 0 {
      PowerSum(a - 1, b);
    }
  }

  lemma PowerProduct(a: nat, b: nat, p: Word, q: Word, r: Word)
    requires Power(a) == p && Power(b) == q && Times(p, q) == r
    ensures Power(a + b) == r
  {
    hide *;
    PowerSum(a, b);
  }

  lemma PowerDoubled(a: nat, p: Word, r: Word)
    requires Power(a) == p && Times(p, p) == r
    ensures Power(2 * a) == r
  {
    hide *;
    PowerSum(a, a);
    assert a + a == 2 * a;
  }

  lemma Power397()
    ensures Power(397) == 0x6678AABD
  {
    assert Power(1) == Generate(Power(0));
    PowerDoubled(1, 0x10DCD, 0x1C587629);
    PowerDoubled(2, 0x1C587629, 0x6AB9D291);
    PowerDoubled(4, 0x6AB9D291, 0x16C43621);
    PowerDoubled(8, 0x16C43621, 0x99F9F041);
    PowerDoubled(16, 0x99F9F041, 0xF1EBF081);
    PowerDoubled(32, 0xF1EBF081, 0x50C82101);
    PowerDoubled(64, 0x50C82101, 0x35D14201);
    PowerDoubled(128, 0x35D14201, 0x40A68401);
    PowerProduct(256, 128, 0x40A68401, 0x35D14201, 0x287FC601);
    PowerProduct(384, 8, 0x287FC601, 0x16C43621, 0xDB00BC21);
    PowerProduct(392, 4, 0xDB00BC21, 0x6AB9D291, 0x4396A0B1);
    PowerProduct(396, 1, 0x4396A0B1, 0x10DCD, 0x6678AABD);
  }

  lemma Word397From4357()
    ensures SeedWord(4357, 397) == 0x03B1E2B1
  {
    assert OddSeed(4357) == 4357;
    SeedWordClosedForm(4357, 397);
    Power397();
    assert Times(0x6678AABD, 4357) == 0x03B1E2B1;
  }

  /** Seeded with 4357 the first word drawn is 0xD13C8AF5, which has its upper bit set. */
  lemma FirstDrawFrom4357()
    ensures Draw(4357, 0) == Temper(X(4357, 624)) == 0xD13C8AF5
  {
    assert SeedWord(4357, 0) == OddSeed(4357) == 4357;
    assert SeedWord(4357, 1) == Generate(4357) == 0x11EFE201;
    Word397From4357();
    assert X(4357, 624) == Twist(4357, 0x11EFE201, 0x03B1E2B1) == 0x924EA36E;
    assert Temper1(0x924EA36E) == 0x925CEABA;
  }

  /** The second draw does not reload, and is the second new word tempered and halved. */
  lemma SecondDrawFrom4357()
    ensures Draw(4357, 1) == 0x7FE13A41
  {
    assert SeedWord(4357, 0) == OddSeed(4357) == 4357;
    assert SeedWord(4357, 1) == Generate(4357) == 0x11EFE201;
    assert SeedWord(4357, 2) == Generate(0x11EFE201) == 0x6D9307CD;
    Word397From4357();
    assert SeedWord(4357, 398) == Generate(0x03B1E2B1) == 0xE0A684BD;
    assert X(4357, 625) == Twist(0x11EFE201, 0x6D9307CD, 0xE0A684BD) == 0x4F67B784;
    assert Temper(0x4F67B784) == 0xFFC27482;
  }

  // ---------- the recurrence, solved for the older words ----------

  /** What a twist added to word m says about the two words before m. */
  function Solved(z: Word): Word {
    if z >= 0x80000000 then ((z ^ 0x9908B0DF) << 1) | 1 else z << 1
  }

  lemma JoinedBits(u: Word, v: Word)
    ensures Joined(u, v) == (u & 0x80000000) | (v & 0x7FFFFFFF)
  {
  }

  lemma JoinedParity(u: Word, v: Word)
    ensures Odd(Joined(u, v)) <==> Odd(v)
  {
  }

  lemma SolvedEven(y: Word)
    requires !Odd(y)
    ensures Solved(Xor(Right1(y), 0)) == y
  {
  }

  lemma SolvedOdd(y: Word)
    requires Odd(y)
    ensures Solved(Xor(Right1(y), 0x9908B0DF)) == y
  {
  }

  lemma TwistSolved(u: Word, v: Word, m: Word)
    ensures Solved(Xor(Twist(u, v, m), m)) == Joined(u, v)
  {
    hide Solved, Xor, Joined, Odd, Right1;
    JoinedParity(u, v);
    XorCancels(m, Right1(Joined(u, v)), TwistConstant(v));
    if Odd(v) {
      SolvedOdd(Joined(u, v));
    } else {
      SolvedEven(Joined(u, v));
    }
  }

  lemma RecurrenceSolved(seed: bv64, k: nat)
    ensures Solved(Xor(X(seed, k + 624), X(seed, k + 397))) == Joined(X(seed, k), X(seed, k + 1))
  {
    assert X(seed, k + 624) == Twist(X(seed, k), X(seed, k + 1), X(seed, k + 397));
    hide *;
    TwistSolved(X(seed, k), X(seed, k + 1), X(seed, k + 397));
  }

  lemma Written(u: Word, v: Word, w: Word, m: Word)
    requires Solved(Xor(w, m)) == Joined(u, v)
    ensures (u & 0x80000000) | (v & 0x7FFFFFFF) == Solved(w ^ m)
  {
    hide *;
    JoinedBits(u, v);
    XorIsSum(w, m);
  }

  /**
   The recurrence solved for its older words, without the twist: the upper bit of word k and the
   other bits of word k+1 follow from the sum of words k+624 and k+397.
   */
  lemma RecurrenceBackwards(seed: bv64, k: nat)
    ensures (X(seed, k) & 0x80000000) | (X(seed, k + 1) & 0x7FFFFFFF)
         == Solved(X(seed, k + 624) ^ X(seed, k + 397))
  {
    hide *;
    RecurrenceSolved(seed, k);
    Written(X(seed, k), X(seed, k + 1), X(seed, k + 624), X(seed, k + 397));
  }

  // ---------- the state words, recovered from the draws ----------

  function Untemper4(y: Word): Word {
    Xor(y, Right18(y))
  }

  function Untemper3(y: Word): Word {
    Xor(y, (y << 15) & 0xEFC60000)
  }

  /** Each turn recovers seven more bits. */
  function Untemper2(y: Word): Word {
    var a := y ^ ((y << 7) & 0x9D2C5680);
    var b := y ^ ((a << 7) & 0x9D2C5680);
    var c := y ^ ((b << 7) & 0x9D2C5680);
    y ^ ((c << 7) & 0x9D2C5680)
  }

  function Untemper1(y: Word): Word {
    Xor(Xor(y, Right11(y)), Right22(y))
  }

  function Untemper(y: Word): Word {
    Untemper1(Untemper2(Untemper3(Untemper4(y))))
  }

  lemma UntemperStep1(x: Word)
    ensures Untemper1(Temper1(x)) == x
  {
    hide Xor, Right11, Right22;
    Right11OfXor(x, Right11(x));
    Right22OfXor(x, Right11(x));
    Right11Repeated(x);
    XorZero(Right22(x));
    XorChain(x, Right11(x), Right22(x));
  }

  lemma UntemperStep2(x: Word)
    ensures Untemper2(Temper2(x)) == x
  {
  }

  lemma UntemperStep3(x: Word)
    ensures Untemper3(Temper3(x)) == x
  {
  }

  lemma UntemperStep4(x: Word)
    ensures Untemper4(Temper4(x)) == x
  {
    hide Xor, Right18;
    Right18OfSum(x);
    XorTwice(x, Right18(x));
  }

  /** Tempering loses nothing. */
  lemma UntemperTemper(x: Word)
    ensures Untemper(Temper(x)) == x
  {
    hide Temper1, Temper2, Temper3, Temper4, Untemper1, Untemper2, Untemper3, Untemper4;
    UntemperStep1(x);
    UntemperStep2(Temper1(x));
    UntemperStep3(Temper2(Temper1(x)));
    UntemperStep4(Temper3(Temper2(Temper1(x))));
  }

  /** The two words that halve to h. */
  function Doubled(h: Word, bit: Word): Word {
    (h << 1) | bit
  }

  lemma HalfAndBit(t: Word)
    ensures t == Doubled(Half(t), 0) || t == Doubled(Half(t), 1)
  {
  }

  /**
   Every draw determines its word of the sequence: a reload draw exactly, any other up to the one
   bit that halving drops.
   */
  lemma WordFromDraw(seed: bv64, i: nat)
    ensures if i % 624 == 0 then X(seed, 624 + i) == Untemper(Draw(seed, i))
            else (X(seed, 624 + i) == Untemper(Doubled(Draw(seed, i), 0))
                  || X(seed, 624 + i) == Untemper(Doubled(Draw(seed, i), 1)))
  {
    hide X, Temper, Untemper, Half, Doubled;
    var x := X(seed, 624 + i);
    UntemperTemper(x);
    HalfAndBit(Temper(x));
  }
}
