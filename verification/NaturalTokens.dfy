/**
 The order behind natural string comparison: a string is read as a sequence of
 tokens, and token sequences are compared lexicographically.
 */
module NaturalTokens {

  /** A C `char` of either signedness: -128..127 when signed, 0..255 when unsigned. */
  type CChar = c: int | -128 <= c <= 255

  const NUL: CChar := 0
  const ZERO: CChar := 48

  // The three <ctype.h> classifiers in the C locale.

  predicate IsSpace(c: CChar) {
    c == 32 || 9 <= c <= 13
  }

  predicate IsDigit(c: CChar) {
    48 <= c <= 57
  }

  function ToUpper(c: CChar): CChar {
    if 97 <= c <= 122 then c - 32 else c
  }

  function Fold(fold: bool, c: CChar): CChar {
    if fold then ToUpper(c) else c
  }

  /** A buffer that ends in a terminator; the first terminator ends the string. */
  predicate Terminated(s: seq<CChar>) {
    |s| > 0 && s[|s| - 1] == NUL
  }

  function Sign(x: int): int {
    if x < 0 then -1 else if x > 0 then 1 else 0
  }

  // ---------- digit runs ----------

  /** The maximal run of digits at the front of s. */
  function DigitRun(s: seq<CChar>): (r: seq<CChar>)
    ensures |r| <= |s| && r == s[..|r|]
    ensures forall k :: 0 <= k < |r| ==> IsDigit(r[k])
    ensures |r| < |s| ==> !IsDigit(s[|r|])
  {
    if s == [] || !IsDigit(s[0]) then [] else [s[0]] + DigitRun(s[1..])
  }

  predicate AllDigits(x: seq<CChar>) {
    forall k :: 0 <= k < |x| ==> IsDigit(x[k])
  }

  /** Left-aligned order: the first difference decides, then the shorter run is smaller. */
  function LeftOrder(x: seq<CChar>, y: seq<CChar>): (r: int)
    ensures -1 <= r <= 1
  {
    if x == [] && y == [] then 0
    else if x == [] then -1
    else if y == [] then 1
    else if x[0] != y[0] then Sign(x[0] as int - y[0] as int)
    else LeftOrder(x[1..], y[1..])
  }

  /** Right-aligned order: the longer run is greater, then the first difference decides. */
  function RightOrder(x: seq<CChar>, y: seq<CChar>): (r: int)
    ensures -1 <= r <= 1
  {
    if |x| != |y| then Sign(|x| - |y|) else LeftOrder(x, y)
  }

  /** Runs that start with a zero are left-aligned, and so is anything compared with them. */
  function RunOrder(x: seq<CChar>, y: seq<CChar>): (r: int)
    requires x != [] && y != []
    ensures -1 <= r <= 1
  {
    if x[0] == ZERO || y[0] == ZERO then LeftOrder(x, y) else RightOrder(x, y)
  }

  lemma {:induction false} LeftOrderSwap(x: seq<CChar>, y: seq<CChar>)
    ensures LeftOrder(y, x) == -LeftOrder(x, y)
    ensures LeftOrder(x, y) == 0 <==> x == y
  {
    if x != [] && y != [] {
      LeftOrderSwap(x[1..], y[1..]);
      assert x == [x[0]] + x[1..] && y == [y[0]] + y[1..];
    }
  }

  lemma {:induction false} LeftOrderTransitive(x: seq<CChar>, y: seq<CChar>, z: seq<CChar>)
    requires LeftOrder(x, y) <= 0 && LeftOrder(y, z) <= 0
    ensures LeftOrder(x, z) <= 0
  {
    if x != [] && y != [] && z != [] && x[0] == y[0] == z[0] {
      LeftOrderTransitive(x[1..], y[1..], z[1..]);
    }
  }

  // ---------- what the run orders mean ----------

  /** The decimal value of a run of digits. */
  function Value(x: seq<CChar>): (v: int)
    requires AllDigits(x)
    ensures v >= 0
  {
    if x == [] then 0 else 10 * Value(x[..|x| - 1]) + (x[|x| - 1] - ZERO)
  }

  function Pow10(n: nat): (p: int)
    ensures p >= 1
  {
    if n == 0 then 1 else 10 * Pow10(n - 1)
  }

  /** The first digit carries the largest power of ten. */
  lemma {:induction false} ValueFromLeft(x: seq<CChar>)
    requires AllDigits(x) && x != []
    ensures Value(x) == (x[0] - ZERO) * Pow10(|x| - 1) + Value(x[1..])
  {
    if |x| > 1 {
      var front := x[..|x| - 1];
      ValueFromLeft(front);
      assert front[1..] == x[1..][..|x| - 2];
      ScaleByTen(x[0] - ZERO, Pow10(|x| - 2));
    } else {
      assert x[..0] == [] && x[1..] == [];
    }
  }

  lemma ScaleByTen(d: int, p: int)
    ensures 10 * (d * p) == d * (10 * p)
  {
  }

  lemma {:induction false} ValueBound(x: seq<CChar>)
    requires AllDigits(x)
    ensures Value(x) < Pow10(|x|)
    ensures x != [] && x[0] != ZERO ==> Value(x) >= Pow10(|x| - 1)
  {
    if x != [] {
      var front := x[..|x| - 1];
      ValueBound(front);
    }
  }

  lemma {:induction false} Pow10Monotone(m: nat, n: nat)
    requires m <= n
    ensures Pow10(m) <= Pow10(n)
  {
    if m < n {
      Pow10Monotone(m, n - 1);
    }
  }

  /** Runs of equal length are left-ordered by value. */
  lemma {:induction false} SameLengthByValue(x: seq<CChar>, y: seq<CChar>)
    requires AllDigits(x) && AllDigits(y) && |x| == |y|
    ensures LeftOrder(x, y) == Sign(Value(x) - Value(y))
  {
    if x != [] {
      ValueFromLeft(x);
      ValueFromLeft(y);
      ValueBound(x[1..]);
      ValueBound(y[1..]);
      SameLengthByValue(x[1..], y[1..]);
      LeadingDigitDecides(x[0] - ZERO, y[0] - ZERO, Pow10(|x| - 1), Value(x[1..]), Value(y[1..]));
    }
  }

  lemma {:induction false} StepUp(d: int, e: int, p: int)
    requires d < e && p >= 0
    ensures d * p + p <= e * p
    decreases e - d
  {
    if d + 1 < e {
      StepUp(d + 1, e, p);
    }
    assert (d + 1) * p == d * p + p;
  }

  lemma LeadingDigitDecides(d: int, e: int, p: int, v: int, w: int)
    requires 0 <= v < p && 0 <= w < p
    ensures d < e ==> d * p + v < e * p + w
    ensures d > e ==> d * p + v > e * p + w
  {
    if d < e {
      StepUp(d, e, p);
    } else if d > e {
      StepUp(e, d, p);
    }
  }

  /** Without leading zeros, the right-aligned order is the order of decimal values. */
  lemma RightOrderByValue(x: seq<CChar>, y: seq<CChar>)
    requires AllDigits(x) && AllDigits(y) && x != [] && y != []
    requires x[0] != ZERO && y[0] != ZERO
    ensures RightOrder(x, y) == Sign(Value(x) - Value(y))
  {
    ValueBound(x);
    ValueBound(y);
    if |x| < |y| {
      Pow10Monotone(|x|, |y| - 1);
    } else if |x| > |y| {
      Pow10Monotone(|y|, |x| - 1);
    } else {
      SameLengthByValue(x, y);
    }
  }

  /** x followed by n zeros. */
  function ZeroExtended(x: seq<CChar>, n: nat): (r: seq<CChar>)
    ensures |r| == |x| + n
    ensures AllDigits(x) ==> AllDigits(r)
  {
    x + seq(n, _ => ZERO)
  }

  lemma {:induction false} ZeroExtendedValue(x: seq<CChar>, n: nat)
    requires AllDigits(x)
    ensures Value(ZeroExtended(x, n)) == Value(x) * Pow10(n)
  {
    var r := ZeroExtended(x, n);
    if n == 0 {
      assert r == x;
    } else {
      assert r[..|r| - 1] == ZeroExtended(x, n - 1);
      ZeroExtendedValue(x, n - 1);
      ScaleByTen(Value(x), Pow10(n - 1));
    }
  }

  /**
   The left-aligned order reads x and y as the decimal fractions 0.x and 0.y: cross-multiplied
   by the powers of ten of the two lengths, the fractions decide, and the length breaks ties.
   */
  lemma {:induction false} LeftOrderByFraction(x: seq<CChar>, y: seq<CChar>)
    requires AllDigits(x) && AllDigits(y)
    ensures var difference := Value(x) * Pow10(|y|) - Value(y) * Pow10(|x|);
            LeftOrder(x, y) == if difference != 0 then Sign(difference) else Sign(|x| - |y|)
  {
    var ex, ey := ZeroExtended(x, |y|), ZeroExtended(y, |x|);
    ZeroExtendedValue(x, |y|);
    ZeroExtendedValue(y, |x|);
    SameLengthByValue(ex, ey);
    PaddingKeepsOrder(x, y, |y|, |x|);
  }

  lemma {:induction false} PaddingKeepsOrder(x: seq<CChar>, y: seq<CChar>, m: nat, n: nat)
    requires AllDigits(x) && AllDigits(y) && |x| + m == |y| + n
    ensures var padded := LeftOrder(ZeroExtended(x, m), ZeroExtended(y, n));
            LeftOrder(x, y) == if padded != 0 then padded else Sign(|x| - |y|)
  {
    var ex, ey := ZeroExtended(x, m), ZeroExtended(y, n);
    LeftOrderSwap(ex, ey);
    if x == [] {
      ZerosAreLeast(ey, m);
      assert ex == seq(m, _ => ZERO);
    } else if y == [] {
      ZerosAreLeast(ex, n);
      assert ey == seq(n, _ => ZERO);
    } else {
      assert ex[1..] == ZeroExtended(x[1..], m) && ey[1..] == ZeroExtended(y[1..], n);
      PaddingKeepsOrder(x[1..], y[1..], m, n);
    }
  }

  lemma {:induction false} ZerosAreLeast(y: seq<CChar>, m: nat)
    requires AllDigits(y) && |y| == m
    ensures LeftOrder(seq(m, _ => ZERO), y) <= 0
  {
    if m > 0 {
      assert seq(m, _ => ZERO)[1..] == seq(m - 1, _ => ZERO);
      ZerosAreLeast(y[1..], m - 1);
    }
  }

  // ---------- tokens ----------

  datatype Token =
    | Run(digits: seq<CChar>)
    | Glyph(c: CChar)
    | End

  predicate ValidToken(t: Token) {
    match t
    case Run(d) => d != [] && AllDigits(d)
    case Glyph(c) => c != NUL && !IsSpace(c) && !IsDigit(c)
    case End => true
  }

  predicate ValidTokens(ts: seq<Token>) {
    forall k :: 0 <= k < |ts| ==> ValidToken(ts[k])
  }

  /** The token view: spaces separate and vanish, maximal digit runs are single tokens. */
  function Tokens(s: seq<CChar>): (ts: seq<Token>)
    requires Terminated(s)
    ensures ValidTokens(ts)
    decreases |s|
  {
    if IsSpace(s[0]) then Tokens(s[1..])
    else if s[0] == NUL then [End]
    else if IsDigit(s[0]) then
      [Run(DigitRun(s))] + Tokens(s[|DigitRun(s)|..])
    else [Glyph(s[0])] + Tokens(s[1..])
  }

  /** The character by which a token is compared with a token of another kind. */
  function Key(fold: bool, t: Token): int
    requires ValidToken(t)
  {
    match t
    case Run(d) => d[0]
    case Glyph(c) => Fold(fold, c)
    case End => NUL
  }

  function TokenOrder(fold: bool, x: Token, y: Token): (r: int)
    requires ValidToken(x) && ValidToken(y)
    ensures -1 <= r <= 1
  {
    if x.Run? && y.Run? then RunOrder(x.digits, y.digits)
    else Sign(Key(fold, x) - Key(fold, y))
  }

  /** Lexicographic order of token sequences. */
  function SeqOrder(fold: bool, xs: seq<Token>, ys: seq<Token>): (r: int)
    requires ValidTokens(xs) && ValidTokens(ys)
    ensures -1 <= r <= 1
  {
    if xs == [] || ys == [] then Sign(|xs| - |ys|)
    else
      var first := TokenOrder(fold, xs[0], ys[0]);
      if first != 0 then first else SeqOrder(fold, xs[1..], ys[1..])
  }

  /** Natural order of two strings. */
  function NatOrder(fold: bool, a: seq<CChar>, b: seq<CChar>): int
    requires Terminated(a) && Terminated(b)
  {
    SeqOrder(fold, Tokens(a), Tokens(b))
  }

  // ---------- case folding ----------

  function FoldToken(fold: bool, t: Token): Token {
    if t.Glyph? then Glyph(Fold(fold, t.c)) else t
  }

  function FoldTokens(fold: bool, ts: seq<Token>): (r: seq<Token>)
    ensures |r| == |ts|
  {
    seq(|ts|, i requires 0 <= i < |ts| => FoldToken(fold, ts[i]))
  }

  function UpperString(s: seq<CChar>): (r: seq<CChar>)
    ensures |r| == |s|
    ensures forall i :: 0 <= i < |s| ==> r[i] == ToUpper(s[i])
  {
    seq(|s|, i requires 0 <= i < |s| => ToUpper(s[i]))
  }

  // ---------- laws of the token order ----------

  lemma TokenOrderSwap(fold: bool, x: Token, y: Token)
    requires ValidToken(x) && ValidToken(y)
    ensures TokenOrder(fold, y, x) == -TokenOrder(fold, x, y)
    ensures TokenOrder(fold, x, y) == 0 <==> FoldToken(fold, x) == FoldToken(fold, y)
  {
    if x.Run? && y.Run? {
      LeftOrderSwap(x.digits, y.digits);
    }
  }

  lemma TokenOrderTransitive(fold: bool, x: Token, y: Token, z: Token)
    requires ValidToken(x) && ValidToken(y) && ValidToken(z)
    requires TokenOrder(fold, x, y) <= 0 && TokenOrder(fold, y, z) <= 0
    ensures TokenOrder(fold, x, z) <= 0
  {
    if x.Run? && y.Run? && z.Run? {
      RunOrderTransitive(x.digits, y.digits, z.digits);
    }
  }

  lemma RunOrderTransitive(x: seq<CChar>, y: seq<CChar>, z: seq<CChar>)
    requires x != [] && y != [] && z != []
    requires AllDigits(x) && AllDigits(y) && AllDigits(z)
    requires RunOrder(x, y) <= 0 && RunOrder(y, z) <= 0
    ensures RunOrder(x, z) <= 0
  {
    if LeftOrder(x, y) <= 0 && LeftOrder(y, z) <= 0 {
      LeftOrderTransitive(x, y, z);
    }
  }

  lemma {:induction false} SeqOrderSwap(fold: bool, xs: seq<Token>, ys: seq<Token>)
    requires ValidTokens(xs) && ValidTokens(ys)
    ensures SeqOrder(fold, ys, xs) == -SeqOrder(fold, xs, ys)
    ensures SeqOrder(fold, xs, ys) == 0 <==> FoldTokens(fold, xs) == FoldTokens(fold, ys)
  {
    var fx, fy := FoldTokens(fold, xs), FoldTokens(fold, ys);
    if xs != [] && ys != [] {
      TokenOrderSwap(fold, xs[0], ys[0]);
      SeqOrderSwap(fold, xs[1..], ys[1..]);
      assert fx == [FoldToken(fold, xs[0])] + FoldTokens(fold, xs[1..]);
      assert fy == [FoldToken(fold, ys[0])] + FoldTokens(fold, ys[1..]);
      assert fx == fy ==> fx[0] == fy[0] && fx[1..] == fy[1..];
    } else if SeqOrder(fold, xs, ys) == 0 {
      assert fx == fy;
    } else {
      assert |fx| != |fy|;
    }
  }

  lemma {:induction false} SeqOrderTransitive(fold: bool, xs: seq<Token>, ys: seq<Token>, zs: seq<Token>)
    requires ValidTokens(xs) && ValidTokens(ys) && ValidTokens(zs)
    requires SeqOrder(fold, xs, ys) <= 0 && SeqOrder(fold, ys, zs) <= 0
    ensures SeqOrder(fold, xs, zs) <= 0
  {
    if xs != [] && ys != [] && zs != [] {
      TokenOrderTransitive(fold, xs[0], ys[0], zs[0]);
      TokenOrderSwap(fold, xs[0], ys[0]);
      TokenOrderSwap(fold, ys[0], zs[0]);
      TokenOrderSwap(fold, xs[0], zs[0]);
      if TokenOrder(fold, xs[0], zs[0]) == 0 {
        if TokenOrder(fold, xs[0], ys[0]) != 0 {
          TokenOrderTransitive(fold, zs[0], xs[0], ys[0]);
        }
        SeqOrderTransitive(fold, xs[1..], ys[1..], zs[1..]);
      }
    }
  }

  // ---------- laws of the string order ----------

  /** Swapping the arguments negates the result. */
  lemma NatOrderSwap(fold: bool, a: seq<CChar>, b: seq<CChar>)
    requires Terminated(a) && Terminated(b)
    ensures NatOrder(fold, b, a) == -NatOrder(fold, a, b)
  {
    SeqOrderSwap(fold, Tokens(a), Tokens(b));
  }

  /** Ties are exactly the strings with the same tokens, up to case when folding. */
  lemma NatOrderTie(fold: bool, a: seq<CChar>, b: seq<CChar>)
    requires Terminated(a) && Terminated(b)
    ensures NatOrder(fold, a, b) == 0
       <==> FoldTokens(fold, Tokens(a)) == FoldTokens(fold, Tokens(b))
  {
    SeqOrderSwap(fold, Tokens(a), Tokens(b));
  }

  /** The order is transitive, and strictly so when either premise is strict. */
  lemma NatOrderTransitive(fold: bool, a: seq<CChar>, b: seq<CChar>, c: seq<CChar>)
    requires Terminated(a) && Terminated(b) && Terminated(c)
    requires NatOrder(fold, a, b) <= 0 && NatOrder(fold, b, c) <= 0
    ensures NatOrder(fold, a, c) <= 0
    ensures NatOrder(fold, a, b) < 0 || NatOrder(fold, b, c) < 0 ==> NatOrder(fold, a, c) < 0
  {
    var x, y, z := Tokens(a), Tokens(b), Tokens(c);
    SeqOrderTransitive(fold, x, y, z);
    SeqOrderSwap(fold, x, y);
    SeqOrderSwap(fold, y, z);
    SeqOrderSwap(fold, x, z);
    if SeqOrder(fold, z, x) <= 0 {
      SeqOrderTransitive(fold, z, x, y);
      SeqOrderTransitive(fold, y, z, x);
    }
  }

  lemma {:induction false} UpperTokens(s: seq<CChar>)
    requires Terminated(s)
    ensures Terminated(UpperString(s))
    ensures Tokens(UpperString(s)) == FoldTokens(true, Tokens(s))
    decreases |s|
  {
    var u := UpperString(s);
    if IsSpace(s[0]) {
      assert u[1..] == UpperString(s[1..]);
      UpperTokens(s[1..]);
    } else if s[0] == NUL {
    } else if IsDigit(s[0]) {
      UpperRun(s);
      var n := |DigitRun(s)|;
      assert n > 0;
      hide DigitRun;
      assert u[n..] == UpperString(s[n..]);
      UpperTokens(s[n..]);
      assert Tokens(u) == [Run(DigitRun(s))] + Tokens(u[n..]);
    } else {
      assert u[1..] == UpperString(s[1..]);
      UpperTokens(s[1..]);
    }
  }

  lemma {:induction false} UpperRun(s: seq<CChar>)
    ensures DigitRun(UpperString(s)) == DigitRun(s)
  {
    if s != [] {
      assert UpperString(s)[1..] == UpperString(s[1..]);
      UpperRun(s[1..]);
    }
  }

  lemma {:induction false} FoldIsOrderOfFolded(xs: seq<Token>, ys: seq<Token>)
    requires ValidTokens(xs) && ValidTokens(ys)
    ensures ValidTokens(FoldTokens(true, xs)) && ValidTokens(FoldTokens(true, ys))
    ensures SeqOrder(true, xs, ys) == SeqOrder(false, FoldTokens(true, xs), FoldTokens(true, ys))
  {
    if xs != [] && ys != [] {
      FoldIsOrderOfFolded(xs[1..], ys[1..]);
      assert FoldTokens(true, xs)[1..] == FoldTokens(true, xs[1..]);
      assert FoldTokens(true, ys)[1..] == FoldTokens(true, ys[1..]);
    }
  }

  /** Case-insensitive comparison is case-sensitive comparison of the upper-cased strings. */
  lemma CaseFoldingByUpperCasing(a: seq<CChar>, b: seq<CChar>)
    requires Terminated(a) && Terminated(b)
    ensures Terminated(UpperString(a)) && Terminated(UpperString(b))
    ensures NatOrder(true, a, b) == NatOrder(false, UpperString(a), UpperString(b))
  {
    UpperTokens(a);
    UpperTokens(b);
    FoldIsOrderOfFolded(Tokens(a), Tokens(b));
  }
}
