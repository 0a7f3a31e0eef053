/**
 Whole runs of the generator, and the range reduction of `mt_rand(min, max)`.
 */
module TwisterRuns {
  import opened Bits
  import opened TwisterSpec
  import opened MersenneTwister

  datatype Operation = Reseed(seed: bv64) | Next

  function After(st: Status, op: Operation): Status {
    match op
    case Reseed(seed) => Running(seed, 0)
    case Next => AfterDraw(st)
  }

  /** The words drawn by a sequence of operations. */
  function Outputs(st: Status, ops: seq<Operation>): seq<Word>
    decreases |ops|
  {
    if ops == [] then []
    else (if ops[0].Next? then [NextDraw(st)] else []) + Outputs(After(st, ops[0]), ops[1..])
  }

  function Draws(n: nat): (ops: seq<Operation>)
    ensures |ops| == n && forall i :: 0 <= i < n ==> ops[i] == Next
  {
    seq(n, _ => Next)
  }

  /** The n draws that follow the first k after seeding. */
  function DrawSequence(seed: bv64, k: nat, n: nat): (r: seq<Word>)
    ensures |r| == n && forall i :: 0 <= i < n ==> r[i] == Draw(seed, k + i)
  {
    seq(n, i requires 0 <= i < n => Draw(seed, k + i))
  }

  lemma {:induction false} DrawsFrom(seed: bv64, drawn: nat, n: nat)
    ensures Outputs(Running(seed, drawn), Draws(n)) == DrawSequence(seed, drawn, n)
    decreases n
  {
    hide Draw;
    if n > 0 {
      DrawsFrom(seed, drawn + 1, n - 1);
      assert Draws(n)[1..] == Draws(n - 1);
      assert DrawSequence(seed, drawn, n) == [Draw(seed, drawn)] + DrawSequence(seed, drawn + 1, n - 1);
    }
  }

  /**
   Whatever happened before, the draws after seeding are the tempered words that follow the
   seed words, whole for one draw in 624 and halved for the others.
   */
  lemma {:induction false} DrawsAfterSeeding(st: Status, before: seq<Operation>, seed: bv64, n: nat)
    ensures Outputs(st, before + ([Reseed(seed)] + Draws(n)))
         == Outputs(st, before) + DrawSequence(seed, 0, n)
    decreases |before|
  {
    hide Draw, NextDraw, DrawSequence, AfterDraw;
    var tail := [Reseed(seed)] + Draws(n);
    if before == [] {
      assert before + tail == tail && tail[1..] == Draws(n);
      DrawsFrom(seed, 0, n);
      assert Outputs(st, tail) == [] + DrawSequence(seed, 0, n);
    } else {
      assert (before + tail)[1..] == before[1..] + tail;
      DrawsAfterSeeding(After(st, before[0]), before[1..], seed, n);
    }
  }

  /** Drawing before any seeding is the same as seeding with 4357 first. */
  lemma UnseededRun(n: nat)
    ensures Outputs(Unseeded, Draws(n)) == Outputs(Unseeded, [Reseed(DEFAULT_SEED)] + Draws(n))
  {
    hide Draw;
    var ops := [Reseed(DEFAULT_SEED)] + Draws(n);
    assert ops[1..] == Draws(n);
  }

  predicate AllWide(drawn: seq<bv64>, words: seq<Word>) {
    |drawn| == |words| && forall i :: 0 <= i < |drawn| ==> drawn[i] == Wide(words[i])
  }

  method Do(g: Generator, op: Operation, drawn: seq<bv64>, ghost words: seq<Word>) returns (longer: seq<bv64>)
    requires g.Valid() && AllWide(drawn, words)
    modifies g, g.state
    ensures g.Valid() && g.status == After(old(g.status), op)
    ensures AllWide(longer, words + if op.Next? then [NextDraw(old(g.status))] else [])
  {
    hide Wide, NextDraw, AfterDraw, Base, X;
    longer := drawn;
    match op
    case Reseed(seed) =>
      g.SeedMT(seed);
      assert words + [] == words;
    case Next =>
      var r := g.RandomMT();
      longer := drawn + [r];
  }

  /** Carries out a run on a real generator. */
  method Drive(g: Generator, ops: seq<Operation>) returns (drawn: seq<bv64>)
    requires g.Valid()
    modifies g, g.state
    ensures g.Valid()
    ensures AllWide(drawn, Outputs(old(g.status), ops))
  {
    drawn := [];
    ghost var done: seq<Word> := [];
    ghost var all := Outputs(g.status, ops);
    assert ops[0..] == ops && all == done + all;
    hide *;
    for i := 0 to |ops|
      invariant g.Valid()
      invariant all == done + Outputs(g.status, ops[i..])
      invariant AllWide(drawn, done)
    {
      OutputsStep(g.status, ops, i);
      ghost var w := if ops[i].Next? then [NextDraw(g.status)] else [];
      drawn := Do(g, ops[i], drawn, done);
      Associate(done, w, Outputs(g.status, ops[i + 1..]));
      done := done + w;
    }
    OutputsOfNothing(g.status);
    assert ops[|ops|..] == [] && done + [] == done;
  }

  lemma Associate(a: seq<Word>, b: seq<Word>, c: seq<Word>)
    ensures a + (b + c) == (a + b) + c
  {
  }

  lemma OutputsOfNothing(st: Status)
    ensures Outputs(st, []) == []
  {
  }

  lemma OutputsStep(st: Status, ops: seq<Operation>, i: nat)
    requires i < |ops|
    ensures Outputs(st, ops[i..])
         == (if ops[i].Next? then [NextDraw(st)] else []) + Outputs(After(st, ops[i]), ops[i + 1..])
  {
    assert ops[i..][1..] == ops[i + 1..];
  }

  // ---------- mt_rand(min, max) ----------

  /** Conversion of a real to `long`: towards zero. */
  function Truncate(x: real): int {
    if x >= 0.0 then x.Floor else -(-x).Floor
  }

  const EXACT: int := 0x20_0000_0000_0000 // up to 2^53 every integer is a double

  function Fraction(n: int): real {
    n as real / 2147483648.0
  }

  ghost predicate SameSide(x: real, p: real, v: real) {
    (v <= x ==> v <= p) && (x <= v ==> p <= v)
  }

  ghost predicate NoStepOver(x: real, p: real, k: int) {
    SameSide(x, p, k as real) && SameSide(x, p, Fraction(k))
  }

  /**
   What rounding a product to a double guarantees: a relative error of at most 2^-53, and no
   step over a double. Of the doubles these are the integers up to 2^53 and as many multiples
   of 2^-31.
   */
  ghost predicate Rounds(x: real, p: real) {
    && (x >= 0.0 ==> -x <= (p - x) * 9007199254740992.0 <= x)
    && forall k :: -EXACT <= k <= EXACT ==> NoStepOver(x, p, k)
  }

  lemma ExactProductIsAllowed(x: real)
    ensures Rounds(x, x)
  {
  }

  function Part(span: real, f: real): real {
    span * f
  }

  /** The exact product of the range macro; n / (MT_RAND_MAX + 1) is exact in a double too. */
  function Share(n: int, min: int, max: int): real {
    Part((max - min + 1) as real, Fraction(n))
  }

  lemma PartMonotone(span: real, f: real, g: real)
    requires span > 0.0 && f <= g
    ensures Part(span, f) <= Part(span, g)
  {
    assert span * (g - f) >= 0.0;
  }

  lemma PartConstants(span: real)
    ensures Part(span, 0.0) == 0.0
    ensures Part(span, 0.5) == span / 2.0
    ensures Part(span, 1.0 - 1.0 / 2147483648.0) == span - span / 2147483648.0
    ensures Part(span, 0.5 - 1.0 / 2147483648.0) == span / 2.0 - span / 2147483648.0
  {
  }

  lemma FractionBounds(n: int)
    requires 0 <= n < 0x80000000
    ensures 0.0 <= Fraction(n) <= 1.0 - 1.0 / 2147483648.0
    ensures n < 0x40000000 ==> Fraction(n) <= 0.5 - 1.0 / 2147483648.0
    ensures n >= 0x40000000 ==> Fraction(n) >= 0.5
  {
  }

  /** The product stays clear of the span, and of its half on the side that n says. */
  lemma ShareBounds(n: int, min: int, max: int)
    requires min <= max && 0 <= n < 0x80000000
    ensures var span := (max - min + 1) as real;
            && 0.0 <= Share(n, min, max) <= span - span / 2147483648.0
            && (n < 0x40000000 ==> Share(n, min, max) <= span / 2.0 - span / 2147483648.0)
            && (n >= 0x40000000 ==> Share(n, min, max) >= span / 2.0)
  {
    var span, f := (max - min + 1) as real, Fraction(n);
    FractionBounds(n);
    PartConstants(span);
    hide Fraction, Part;
    PartMonotone(span, 0.0, f);
    PartMonotone(span, f, 1.0 - 1.0 / 2147483648.0);
    if n < 0x40000000 {
      PartMonotone(span, f, 0.5 - 1.0 / 2147483648.0);
    } else {
      PartMonotone(span, 0.5, f);
    }
  }

  lemma TruncateBelow(x: real, k: int)
    requires 0.0 <= x < k as real
    ensures 0 <= Truncate(x) < k
  {
  }

  lemma TruncateBelowHalf(x: real, k: int)
    requires 0.0 <= x && 2.0 * x < k as real
    ensures 2 * Truncate(x) < k
  {
    assert 2.0 * x.Floor as real <= 2.0 * x;
    assert (2 * x.Floor) as real == 2.0 * x.Floor as real;
  }

  lemma TruncateFrom(x: real, k: int)
    requires 0.0 <= x && k as real <= x
    ensures k <= Truncate(x)
  {
  }

  lemma RoundsAt(x: real, p: real, k: int)
    requires Rounds(x, p) && -EXACT <= k <= EXACT
    ensures SameSide(x, p, k as real) && SameSide(x, p, Fraction(k))
  {
    assert NoStepOver(x, p, k);
  }

  /**
   The result lies between the bounds. It is in their lower half when n has 30 bits only, and in
   their upper half when n has 31, the middle of an odd number of values being open to both.
   The product may be exact or rounded.
   */
  lemma ScaleInRange(n: int, min: int, max: int, product: real)
    requires min <= max && max - min < EXACT && 0 <= n < 0x80000000
    requires Rounds(Share(n, min, max), product)
    ensures min <= min + Truncate(product) <= max
    ensures n < 0x40000000 ==> 2 * Truncate(product) <= max - min
    ensures n >= 0x40000000 ==> 2 * Truncate(product) >= max - min
  {
    var k := max - min + 1;
    var x, span := Share(n, min, max), k as real;
    ShareBounds(n, min, max);
    RoundsAt(x, product, 0);
    RoundsAt(x, product, k / 2);
    RoundsAt(x, product, k);
    hide Share, Truncate;
    TruncateBelow(product, k);
    if n < 0x40000000 {
      TruncateBelowHalf(product, k);
    } else {
      assert (k / 2) as real <= x;
      TruncateFrom(product, k / 2);
    }
  }

  lemma {:induction false} RealProduct(a: nat, b: nat)
    ensures (a * b) as real == a as real * b as real
  {
    if b > 0 {
      RealProduct(a, b - 1);
      assert a * b == a * (b - 1) + a;
    }
  }

  lemma TruncatedFraction(m: nat)
    ensures Truncate(Fraction(m)) == m / 0x80000000
  {
    var q, r := m / 0x80000000, m % 0x80000000;
    assert m as real == 2147483648.0 * q as real + r as real;
    assert q as real <= Fraction(m) < (q + 1) as real;
  }

  lemma ShareIsFraction(n: int, min: int, max: int)
    requires min <= max && 0 <= n
    ensures Share(n, min, max) == Fraction(n * (max - min + 1))
  {
    RealProduct(n, max - min + 1);
  }

  lemma FloorOf(x: real, q: int)
    requires x >= 0.0 && Truncate(x) == q
    ensures 0.0 <= q as real <= x < (q + 1) as real
  {
  }

  lemma TruncateBetween(x: real, q: int)
    requires 0.0 <= q as real <= x <= (q + 1) as real
    ensures q <= Truncate(x) <= q + 1
  {
  }

  lemma QuotientBound(n: int, span: int)
    requires 0 <= n < 0x80000000 && span > 0
    ensures 0 <= n * span / 0x80000000 < span
  {
    assert n * span < 0x80000000 * span;
  }

  /** The range macro divides the 2^31 numbers evenly: its result is a quotient of integers. */
  lemma ScaleIsQuotient(n: int, min: int, max: int)
    requires min <= max && 0 <= n < 0x80000000
    ensures Truncate(Share(n, min, max)) == n * (max - min + 1) / 0x80000000
  {
    hide *;
    ShareIsFraction(n, min, max);
    TruncatedFraction(n * (max - min + 1));
  }

  /**
   With the product rounded to a double the result is that quotient or one more, and it is the
   quotient itself as long as the product needs no rounding.
   */
  lemma RoundedQuotient(n: int, min: int, max: int, product: real)
    requires min <= max && max - min < EXACT && 0 <= n < 0x80000000
    requires Rounds(Share(n, min, max), product)
    ensures var q := n * (max - min + 1) / 0x80000000;
            && q <= Truncate(product) <= q + 1
            && (n * (max - min + 1) <= EXACT ==> Truncate(product) == q)
  {
    var m := n * (max - min + 1);
    var x, q := Share(n, min, max), m / 0x80000000;
    ScaleIsQuotient(n, min, max);
    ShareIsFraction(n, min, max);
    ShareBounds(n, min, max);
    FloorOf(x, q);
    hide Share;
    QuotientBound(n, max - min + 1);
    RoundsAt(x, product, q);
    RoundsAt(x, product, q + 1);
    if m <= EXACT {
      RoundsAt(x, product, m);
    } else {
      TruncateBetween(product, q);
    }
  }

  function Magnitude(w: Word): int {
    w as int
  }

  lemma RawBounds(v: bv31, w: bv30)
    ensures (v as Word) as int == v as int < 0x80000000
    ensures (w as Word) as int == w as int < 0x40000000
  {
  }

  lemma MagnitudeOf31(v: bv31)
    ensures Magnitude(v as Word) < 0x80000000
  {
    RawBounds(v, 0);
  }

  lemma MagnitudeOf30(v: bv30)
    ensures Magnitude(v as Word) < 0x40000000
  {
    RawBounds(0, v);
  }

  lemma Half31(w: Word)
    ensures Half(w) <= 0x7FFFFFFF && (Half(w) as bv31) as Word == Half(w)
  {
  }

  lemma Half30(w: Word)
    requires w < 0x80000000
    ensures Half(w) <= 0x3FFFFFFF && (Half(w) as bv30) as Word == Half(w)
  {
  }

  lemma HalfBelow31(w: Word)
    ensures 0 <= Magnitude(Half(w)) < 0x80000000
  {
    Half31(w);
    hide Half;
    MagnitudeOf31(Half(w) as bv31);
  }

  lemma HalfBelow30(w: Word)
    requires w < 0x80000000
    ensures Magnitude(Half(w)) < 0x40000000
  {
    Half30(w);
    hide Half;
    MagnitudeOf30(Half(w) as bv30);
  }

  /** Halving keeps the upper bit of a word as the bit of weight 2^30. */
  lemma HalfMagnitude(w: Word)
    ensures 0 <= Magnitude(Half(w)) < 0x80000000
    ensures Magnitude(Half(w)) >= 0x40000000 <==> w >= 0x80000000
  {
    hide Half, Magnitude;
    HalfBelow31(w);
    if w < 0x80000000 {
      HalfBelow30(w);
    } else {
      UpperBitStays(w);
    }
  }

  lemma UpperBitStays(w: Word)
    requires w >= 0x80000000
    ensures Magnitude(Half(w)) >= 0x40000000
  {
  }

  /**
   The number handed to the range macro has 31 bits exactly when the draw reloads the state and
   the upper bit of the tempered word is set; otherwise it has 30.
   */
  lemma DrawMagnitude(seed: bv64, i: nat)
    ensures 0 <= Magnitude(Half(Draw(seed, i))) < 0x80000000
    ensures Magnitude(Half(Draw(seed, i))) >= 0x40000000
       <==> i % 624 == 0 && Temper(X(seed, 624 + i)) >= 0x80000000
  {
    HalfMagnitude(Draw(seed, i));
    Half31(Temper(X(seed, 624 + i)));
    hide Half, Magnitude, Temper, X;
  }

  /** The very first draw of a run that never seeds has 31 bits. */
  lemma FirstDrawReachesUpperHalf()
    ensures Magnitude(Half(Draw(DEFAULT_SEED, 0))) >= 0x40000000
  {
    FirstDrawFrom4357();
    DrawMagnitude(DEFAULT_SEED, 0);
  }

  /** The outputs of a run that never seeds begin with these. */
  lemma FirstDrawsUnseeded()
    ensures Outputs(Unseeded, Draws(2)) == [0xD13C8AF5, 0x7FE13A41]
  {
    hide Draw;
    FirstDrawFrom4357();
    SecondDrawFrom4357();
    UnseededRun(2);
    DrawsAfterSeeding(Unseeded, [], DEFAULT_SEED, 2);
    assert [] + ([Reseed(DEFAULT_SEED)] + Draws(2)) == [Reseed(DEFAULT_SEED)] + Draws(2);
    assert DrawSequence(DEFAULT_SEED, 0, 2) == [0xD13C8AF5, 0x7FE13A41];
  }

  /** The second draw after seeding with 4357, as a throw of a die. */
  lemma SecondThrowFrom4357(product: real)
    requires Rounds(Share(Magnitude(Half(Draw(4357, 1))), 1, 6), product)
    ensures 1 + Truncate(product) == 3
  {
    SecondDrawFrom4357();
    assert Magnitude(Half(0x7FE13A41)) == 0x3FF09D20;
    RoundedQuotient(0x3FF09D20, 1, 6, product);
  }

  /**
   Every result lies between the bounds. For an even number of values it lies in the upper half
   exactly when the draw reloads and its upper bit is set; for an odd number it lies above the
   middle only then, and below the middle only otherwise.
   */
  lemma UpperHalfNeedsReload(seed: bv64, i: nat, min: int, max: int, product: real)
    requires min <= max && max - min < EXACT
    requires Rounds(Share(Magnitude(Half(Draw(seed, i))), min, max), product)
    ensures var above := 2 * Truncate(product) - (max - min);
            var upper := i % 624 == 0 && Temper(X(seed, 624 + i)) >= 0x80000000;
            && min <= min + Truncate(product) <= max
            && (above > 0 ==> upper)
            && (above < 0 ==> !upper)
            && ((max - min) % 2 == 1 ==> (above > 0 <==> upper))
  {
    hide Rounds, Share, Truncate, Temper, X, Half, Magnitude;
    DrawMagnitude(seed, i);
    ScaleInRange(Magnitude(Half(Draw(seed, i))), min, max, product);
  }

  function MagnitudeWide(y: bv64): int {
    y as int
  }

  lemma RawWide(w: Word)
    ensures (w as bv64) as int == w as int
  {
  }

  lemma WideMagnitude(w: Word)
    ensures MagnitudeWide(Wide(w)) == Magnitude(w)
  {
    RawWide(w);
  }

  /**
   One draw, scaled. How the floating-point unit rounds the product of span and draw is a
   parameter: `product` is any value it may deliver for the number drawn.
   */
  method RandomMTRange(g: Generator, min: int, max: int, product: real) returns (retval: int, result: int)
    requires g.Valid()
    requires Rounds(Share(Magnitude(Half(NextDraw(g.status))), min, max), product)
    modifies g, g.state
    ensures g.Valid() && g.status == AfterDraw(old(g.status))
    ensures retval == Magnitude(Half(NextDraw(old(g.status))))
    ensures result == min + Truncate(product)
    ensures min <= max && max - min < EXACT ==>
              var q := retval * (max - min + 1) / 0x80000000;
              && min <= result <= max
              && min + q <= result <= min + q + 1
              && (retval * (max - min + 1) <= EXACT ==> result == min + q)
  {
    hide Wide, NextDraw, Half, Magnitude, MagnitudeWide, Rounds, Share, Truncate;
    ghost var d := NextDraw(g.status);
    var y := g.RandomMT();
    y := Generator.HalfWord(y, d);
    WideMagnitude(Half(d));
    retval := MagnitudeWide(y);
    result := min + Truncate(product);
    if min <= max && max - min < EXACT {
      HalfMagnitude(d);
      ScaleInRange(retval, min, max, product);
      RoundedQuotient(retval, min, max, product);
    }
  }
}
