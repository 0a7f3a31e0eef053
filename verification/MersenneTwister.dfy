/**
 The generator itself: a state vector twisted in place, a pointer into it and a countdown.
 A `uint32` is an `unsigned long` of 64 bits here, as the header declares it.
 */
module MersenneTwister {
  import opened Bits
  import opened TwisterSpec

  /** What the generator stands for: a seed and the number of draws since. */
  datatype Status = Unseeded | Running(seed: bv64, drawn: nat)

  const DEFAULT_SEED: bv64 := 4357

  function AfterDraw(st: Status): Status {
    match st
    case Unseeded => Running(DEFAULT_SEED, 1)
    case Running(seed, drawn) => Running(seed, drawn + 1)
  }

  function NextDraw(st: Status): Word {
    match st
    case Unseeded => Draw(DEFAULT_SEED, 0)
    case Running(seed, drawn) => Draw(seed, drawn)
  }

  // ---------- 32-bit words in 64 bits ----------

  function Wide(w: Word): bv64 {
    w as bv64
  }

  /** The low 32 bits. */
  function Low(x: bv64): Word {
    (x & 0xFFFFFFFF) as Word
  }

  function XorWide(a: bv64, b: bv64): bv64 {
    a ^ b
  }

  function MixBits(u: bv64, v: bv64): bv64 {
    (u & 0x80000000) | (v & 0x7FFFFFFF)
  }

  // The right shifts of the loops and of the tempering.

  function WideRight1(y: bv64): bv64 {
    y >> 1
  }

  function WideRight11(y: bv64): bv64 {
    y >> 11
  }

  function WideRight18(y: bv64): bv64 {
    y >> 18
  }

  function TwistWide(s0: bv64, s1: bv64, m: bv64): bv64 {
    XorWide(XorWide(m, WideRight1(MixBits(s0, s1))), WideConstant(s1))
  }

  function WideConstant(s1: bv64): bv64 {
    if s1 & 1 != 0 then 0x9908B0DF else 0
  }

  function TemperWide1(y: bv64): bv64 {
    XorWide(y, WideRight11(y))
  }

  function TemperWide2(y: bv64): bv64 {
    XorWide(y, (y << 7) & 0x9D2C5680)
  }

  function TemperWide3(y: bv64): bv64 {
    XorWide(y, (y << 15) & 0xEFC60000)
  }

  function TemperWide4(y: bv64): bv64 {
    XorWide(y, WideRight18(y))
  }

  lemma WideFits(w: Word)
    ensures Wide(w) <= 0xFFFFFFFF
  {
  }

  lemma XorFits(a: Word, b: Word)
    ensures XorWide(Wide(a), Wide(b)) == Wide(Xor(a, b))
  {
  }

  lemma JoinFits(u: Word, v: Word)
    ensures MixBits(Wide(u), Wide(v)) == Wide((u & 0x80000000) | (v & 0x7FFFFFFF))
  {
  }

  lemma MixBitsFit(u: Word, v: Word)
    ensures MixBits(Wide(u), Wide(v)) == Wide(Joined(u, v))
  {
    hide *;
    JoinFits(u, v);
    JoinedBits(u, v);
  }

  lemma TwistConstantFits(v: Word)
    ensures WideConstant(Wide(v)) == Wide(TwistConstant(v))
  {
  }

  lemma Shift1Fits(x: Word)
    ensures WideRight1(Wide(x)) == Wide(x >> 1) && Right1(x) == x >> 1
  {
  }

  lemma Right1Fits(x: Word)
    ensures WideRight1(Wide(x)) == Wide(Right1(x))
  {
    hide *;
    Shift1Fits(x);
  }

  lemma Shift11Fits(x: Word)
    ensures WideRight11(Wide(x)) == Wide(x >> 11) && Right11(x) == x >> 11
  {
  }

  lemma Right11Fits(x: Word)
    ensures WideRight11(Wide(x)) == Wide(Right11(x))
  {
    hide *;
    Shift11Fits(x);
  }

  lemma Right18Fits(x: Word)
    ensures WideRight18(Wide(x)) == Wide(Right18(x))
  {
  }

  lemma TwistFits(u: Word, v: Word, m: Word)
    ensures TwistWide(Wide(u), Wide(v), Wide(m)) == Wide(Twist(u, v, m))
  {
    hide Wide, MixBits, Xor, XorWide, Joined, TwistConstant, WideConstant, Right1, WideRight1;
    MixBitsFit(u, v);
    Right1Fits(Joined(u, v));
    TwistConstantFits(v);
    XorFits(m, Right1(Joined(u, v)));
    XorFits(Xor(m, Right1(Joined(u, v))), TwistConstant(v));
  }

  lemma Shift7Fits(x: Word)
    ensures (Wide(x) << 7) & 0x9D2C5680 == Wide((x << 7) & 0x9D2C5680)
  {
  }

  lemma Shift15Fits(x: Word)
    ensures (Wide(x) << 15) & 0xEFC60000 == Wide((x << 15) & 0xEFC60000)
  {
  }

  lemma TemperFits(x: Word)
    ensures TemperWide1(Wide(x)) == Wide(Temper1(x))
    ensures TemperWide2(Wide(x)) == Wide(Temper2(x))
    ensures TemperWide3(Wide(x)) == Wide(Temper3(x))
    ensures TemperWide4(Wide(x)) == Wide(Temper4(x))
  {
    hide Wide, Xor, XorWide, Right11, Right18, WideRight11, WideRight18;
    Right11Fits(x);
    XorFits(x, Right11(x));
    Shift7Fits(x);
    XorFits(x, (x << 7) & 0x9D2C5680);
    Shift15Fits(x);
    XorFits(x, (x << 15) & 0xEFC60000);
    Right18Fits(x);
    XorFits(x, Right18(x));
  }

  /** The running product is never masked, but its low 32 bits are those of the 32-bit product. */
  lemma GenerateFits(x: bv64)
    ensures Low(x * 69069) == Generate(Low(x))
    ensures x & 0xFFFFFFFF == Wide(Low(x))
  {
  }

  lemma SeedFits(seed: bv64)
    ensures Narrowed(seed) == Wide(OddSeed(seed)) && Low(Narrowed(seed)) == OddSeed(seed)
  {
  }

  lemma Recurrence(seed: bv64, k: nat)
    ensures X(seed, k + 624) == Twist(X(seed, k), X(seed, k + 1), X(seed, k + 397))
  {
  }

  /** The first word of the state after a given number of draws. */
  function Base(drawn: nat): nat {
    624 * ((drawn + 623) / 624)
  }

  lemma BaseOf(drawn: nat)
    ensures 0 <= Base(drawn) - drawn < 624
    ensures Base(drawn) == drawn <==> drawn % 624 == 0
    ensures Base(drawn + 1) == if drawn % 624 == 0 then Base(drawn) + 624 else Base(drawn)
    ensures Base(0) == 0
  {
  }

  class Generator {
    const state: array<bv64>
    var next: nat
    var left: int
    ghost var status: Status

    constructor ()
      ensures Valid() && status == Unseeded
    {
      state := new bv64[625];
      next := 0;
      left := -1;
      status := Unseeded;
    }

    /** The first words of the state are from the next block of the sequence, the others from this one. */
    ghost predicate Twisted(seed: bv64, base: nat, done: nat)
      reads state
    {
      && state.Length == 625
      && (forall j :: 0 <= j < done && j < 624 ==> state[j] == Wide(X(seed, base + 624 + j)))
      && (forall j :: done <= j < 624 ==> state[j] == Wide(X(seed, base + j)))
    }

    ghost predicate Valid()
      reads this, state
    {
      && state.Length == 625
      && match status
         case Unseeded => left == -1
         case Running(seed, drawn) =>
           && Twisted(seed, Base(drawn), 0)
           && left == Base(drawn) - drawn
           && (drawn > 0 ==> next + left == 624)
    }

    method SeedMT(seed: bv64)
      requires state.Length == 625
      modifies this`left, this`status, state
      ensures Valid() && status == Running(seed, 0)
    {
      hide Wide, Low, Generate, Narrowed, OddSeed;
      SeedFits(seed);
      var x := Narrowed(seed);
      left := 0;
      state[0] := x;
      var s := 1;
      var j := 624 - 1;
      assert X(seed, 0) == SeedWord(seed, 0);
      while j != 0
        invariant 0 <= j && s + j == 624 && s >= 1 && left == 0
        invariant forall i :: 0 <= i < s ==> state[i] == Wide(X(seed, i))
        invariant Low(x) == SeedWord(seed, s - 1)
      {
        x := MultiplySeed(x);
        state[s] := MaskSeed(x);
        assert X(seed, s) == SeedWord(seed, s);
        s := s + 1;
        j := j - 1;
      }
      status := Running(seed, 0);
      BaseOf(0);
      hide X, Base;
      assert Twisted(seed, 0, 0);
    }

    static method MultiplySeed(x: bv64) returns (y: bv64)
      ensures Low(y) == Generate(Low(x))
    {
      GenerateFits(x);
      y := x * 69069;
    }

    static method MaskSeed(x: bv64) returns (y: bv64)
      ensures y == Wide(Low(x))
    {
      GenerateFits(x);
      y := x & 0xFFFFFFFF;
    }

    /** In the middle of a reload, the words behind the write position are from the next block. */
    lemma WordAt(seed: bv64, base: nat, done: nat, i: nat)
      requires Twisted(seed, base, done) && i < 624
      ensures state.Length == 625
      ensures state[i] == Wide(X(seed, if i < done then base + 624 + i else base + i))
    {
      hide Wide, X;
    }

    method ReplaceWord(i: nat, w: bv64, ghost seed: bv64, ghost base: nat)
      requires Twisted(seed, base, i) && i < 624
      requires w == Wide(X(seed, base + 624 + i))
      modifies state
      ensures Twisted(seed, base, i + 1)
    {
      hide Wide, X;
      state[i] := w;
    }

    /**
     The loop shared by the first two stretches of a reload: j - 1 words from p0 on are replaced,
     each from itself, its successor and the word under pM.
     */
    method TwistStretch(p0: nat, pM: nat, s0: bv64, s1: bv64, j: nat, ghost seed: bv64, ghost base: nat)
      returns (q0: nat, qM: nat, t0: bv64, t1: bv64)
      requires Twisted(seed, base, p0) && j >= 1
      requires (pM == p0 + 397 && p0 + j - 1 <= 227) || (pM + 227 == p0 && p0 + j - 1 <= 623)
      requires s0 == Wide(X(seed, base + p0)) && s1 == Wide(X(seed, base + p0 + 1))
      modifies state
      ensures q0 == p0 + j - 1 && qM == pM + j - 1
      ensures Twisted(seed, base, q0)
      ensures t0 == Wide(X(seed, base + q0))
      ensures q0 < 623 ==> t1 == Wide(X(seed, base + q0 + 1))
    {
      hide Wide, Twist, TwistWide, X, Twisted;
      q0, qM, t0, t1 := p0, pM, s0, s1;
      var p2, count := p0 + 2, j - 1;
      while count != 0
        invariant 0 <= count && q0 + count == p0 + j - 1
        invariant p2 == q0 + 2 && qM - pM == q0 - p0
        invariant Twisted(seed, base, q0)
        invariant t0 == Wide(X(seed, base + q0))
        invariant q0 < 623 ==> t1 == Wide(X(seed, base + q0 + 1))
      {
        Recurrence(seed, base + q0);
        TwistFits(X(seed, base + q0), X(seed, base + q0 + 1), X(seed, base + q0 + 397));
        WordAt(seed, base, q0, qM);
        ReplaceWord(q0, TwistWide(t0, t1, state[qM]), seed, base);
        q0, qM := q0 + 1, qM + 1;
        t0 := t1;
        if p2 < 624 {
          WordAt(seed, base, q0, p2);
        }
        t1 := state[p2];
        p2 := p2 + 1;
        count := count - 1;
      }
    }

    /** The last word of the block has the first word of the new block for its successor. */
    method TwistLast(p0: nat, pM: nat, s0: bv64, ghost seed: bv64, ghost base: nat) returns (s1: bv64)
      requires p0 == 623 && pM == 396 && Twisted(seed, base, 623)
      requires s0 == Wide(X(seed, base + 623))
      modifies state
      ensures Twisted(seed, base + 624, 0)
      ensures s1 == Wide(X(seed, base + 624))
    {
      hide Wide, Twist, TwistWide, X;
      s1 := state[0];
      Recurrence(seed, base + 623);
      TwistFits(X(seed, base + 623), X(seed, base + 624), X(seed, base + 1020));
      assert state[pM] == Wide(X(seed, base + 1020));
      state[p0] := TwistWide(s0, s1, state[pM]);
    }

    /** The tempering that ends a reload and, halved, every other draw. */
    static method TemperState(y: bv64, ghost x: Word) returns (r: bv64)
      requires y == Wide(x)
      ensures r == Wide(Temper(x))
    {
      hide Wide, Temper1, Temper2, Temper3, Temper4, TemperWide1, TemperWide2, TemperWide3, TemperWide4;
      TemperFits(x);
      TemperFits(Temper1(x));
      TemperFits(Temper2(Temper1(x)));
      TemperFits(Temper3(Temper2(Temper1(x))));
      r := TemperWide1(y);
      r := TemperWide2(r);
      r := TemperWide3(r);
      r := TemperWide4(r);
    }

    /** Replaces the 624 words of the state by the next 624, and draws the first of them. */
    method ReloadMT() returns (r: bv64)
      requires state.Length == 625
      requires left < -1 || (left == -1 && status.Running? && Twisted(status.seed, Base(status.drawn), 0))
      requires left == -1 ==> status.drawn % 624 == 0
      modifies this, state
      ensures status == AfterDraw(if old(left) < -1 then Unseeded else old(status))
      ensures Valid() && next == 1 && left == 623
      ensures r == Wide(NextDraw(if old(left) < -1 then Unseeded else old(status)))
    {
      hide Wide, X, Temper, Base, Twisted;
      if left < -1 {
        SeedMT(DEFAULT_SEED);
      }
      ghost var seed, base := status.seed, Base(status.drawn);
      BaseOf(status.drawn);
      BaseOf(0);
      left := 624 - 1;
      next := 1;
      var p0, pM := 0, 397;
      WordAt(seed, base, 0, 0);
      WordAt(seed, base, 0, 1);
      var s0, s1 := state[0], state[1];
      p0, pM, s0, s1 := TwistStretch(p0, pM, s0, s1, 624 - 397 + 1, seed, base);
      pM := 0;
      p0, pM, s0, s1 := TwistStretch(p0, pM, s0, s1, 397, seed, base);
      s1 := TwistLast(p0, pM, s0, seed, base);
      status := Running(seed, status.drawn + 1);
      r := TemperState(s1, X(seed, base + 624));
    }

    static method HalfWord(y: bv64, ghost x: Word) returns (r: bv64)
      requires y == Wide(x)
      ensures r == Wide(Half(x))
    {
      Right1Fits(x);
      hide Wide, Right1, WideRight1;
      r := WideRight1(y);
    }

    method RandomMT() returns (r: bv64)
      requires Valid()
      modifies this, state
      ensures Valid() && status == AfterDraw(old(status))
      ensures r == Wide(NextDraw(old(status)))
    {
      hide Wide, X, Temper, Base, Half;
      if status.Running? {
        BaseOf(status.drawn);
      }
      left := left - 1;
      if left < 0 {
        r := ReloadMT();
        return;
      }
      ghost var x := X(status.seed, 624 + status.drawn);
      var y := state[next];
      next := next + 1;
      y := TemperState(y, x);
      status := AfterDraw(status);
      r := HalfWord(y, Temper(x));
    }

    /** No state word exceeds 32 bits although a `uint32` has room for 64. */
    lemma StateWordsFit(j: nat)
      requires Valid() && status.Running? && j < 624
      ensures state[j] <= 0xFFFFFFFF
    {
      hide X, Wide;
      WideFits(X(status.seed, Base(status.drawn) + j));
    }
  }
}
