/**
 What the comparison means for the strings it is given: numbers, text before numbers, the two
 cases of a letter, and spaces. None of these statements names the orders they are proved from.
 */
module NaturalLaws {
  import opened NaturalTokens
  import opened NaturalCompare

  // ---------- numbers ----------

  /** Two strings that start with numbers, neither led by a zero: the smaller value comes first. */
  lemma NumbersByValue(fold: bool, a: seq<CChar>, b: seq<CChar>)
    requires Terminated(a) && Terminated(b) && IsDigit(a[0]) && IsDigit(b[0])
    requires a[0] != ZERO && b[0] != ZERO
    ensures var v, w := Value(DigitRun(a)), Value(DigitRun(b));
            v != w ==> NatOrder(fold, a, b) == Sign(v - w)
  {
    hide NatOrder, DigitRun, LeftOrder, RightOrder, Value;
    RunsDecide(fold, a, b);
    RightOrderByValue(DigitRun(a), DigitRun(b));
  }

  /**
   If one of them is led by a zero, both are read as decimal fractions: the smaller fraction
   comes first, and of equal fractions the one with fewer digits.
   */
  lemma NumbersByFraction(fold: bool, a: seq<CChar>, b: seq<CChar>)
    requires Terminated(a) && Terminated(b) && IsDigit(a[0]) && IsDigit(b[0])
    requires a[0] == ZERO || b[0] == ZERO
    ensures var x, y := DigitRun(a), DigitRun(b);
            var difference := Value(x) * Pow10(|y|) - Value(y) * Pow10(|x|);
            && (difference != 0 ==> NatOrder(fold, a, b) == Sign(difference))
            && (difference == 0 && |x| != |y| ==> NatOrder(fold, a, b) == Sign(|x| - |y|))
  {
    hide NatOrder, DigitRun, LeftOrder, RightOrder, Value, Pow10;
    RunsDecide(fold, a, b);
    LeftOrderByFraction(DigitRun(a), DigitRun(b));
  }

  /** In every other case the digits are the same, and what follows them decides. */
  lemma SameNumbers(fold: bool, a: seq<CChar>, b: seq<CChar>)
    requires Terminated(a) && Terminated(b) && IsDigit(a[0]) && IsDigit(b[0])
    ensures var x, y := DigitRun(a), DigitRun(b);
            var same := if a[0] != ZERO && b[0] != ZERO then Value(x) == Value(y)
                        else Value(x) * Pow10(|y|) == Value(y) * Pow10(|x|) && |x| == |y|;
            same ==> (x == y && Terminated(a[|x|..]) && Terminated(b[|x|..])
                      && NatOrder(fold, a, b) == NatOrder(fold, a[|x|..], b[|x|..]))
  {
    hide NatOrder, DigitRun, LeftOrder, Value, Pow10;
    var x, y := DigitRun(a), DigitRun(b);
    RunsDecide(fold, a, b);
    LeftOrderSwap(x, y);
    if a[0] != ZERO && b[0] != ZERO {
      RightOrderByValue(x, y);
    } else {
      LeftOrderByFraction(x, y);
    }
    if x == y {
      SameRun(fold, a, b, |x|);
    }
  }

  // ---------- text before numbers ----------

  predicate Text(p: seq<CChar>) {
    forall k :: 0 <= k < |p| ==> p[k] != NUL && !IsDigit(p[k])
  }

  /** A common beginning without digits does not matter. */
  lemma {:induction false} CommonText(fold: bool, p: seq<CChar>, a: seq<CChar>, b: seq<CChar>)
    requires Terminated(a) && Terminated(b) && Text(p)
    ensures Terminated(p + a) && Terminated(p + b)
    ensures NatOrder(fold, p + a, p + b) == NatOrder(fold, a, b)
  {
    if p == [] {
      assert p + a == a && p + b == b;
    } else {
      var pa, pb := p + a, p + b;
      assert pa[1..] == p[1..] + a && pb[1..] == p[1..] + b;
      CommonText(fold, p[1..], a, b);
      if IsSpace(p[0]) {
        SkipSpace(fold, pa, pb);
        SkipSpace(fold, pb, pa[1..]);
      } else {
        CharactersDecide(fold, pa, pb);
      }
    }
  }

  /** "img2" comes before "img10", although the character 2 is the greater. */
  lemma Img2BeforeImg10()
    ensures Terminated([105, 109, 103, 50, 0]) && Terminated([105, 109, 103, 49, 48, 0])
    ensures NatOrder(false, [105, 109, 103, 50, 0], [105, 109, 103, 49, 48, 0]) == -1
  {
    hide NatOrder;
    var img: seq<CChar>, two: seq<CChar>, ten: seq<CChar> := [105, 109, 103], [50, 0], [49, 48, 0];
    CommonText(false, img, two, ten);
    assert img + two == [105, 109, 103, 50, 0] && img + ten == [105, 109, 103, 49, 48, 0];
    TwoAndTen(two, ten);
    NumbersByValue(false, two, ten);
  }

  lemma TwoAndTen(two: seq<CChar>, ten: seq<CChar>)
    requires two == [50, 0] && ten == [49, 48, 0]
    ensures Value(DigitRun(two)) == 2 && Value(DigitRun(ten)) == 10
  {
    var x: seq<CChar>, y: seq<CChar> := [50], [49, 48];
    assert two[1..] == [0] && DigitRun(two) == x;
    assert ten[1..] == [48, 0] && ten[1..][1..] == [0] && DigitRun(ten) == y;
    assert x[..0] == [] && y[..1] == [49] && y[..1][..0] == [];
    assert Value(y[..1]) == 1;
  }

  // ---------- the two cases of a letter ----------

  /** c and d are the same character, or the upper and the lower case of one letter. */
  predicate SameLetter(c: CChar, d: CChar) {
    || c == d
    || (65 <= c <= 90 && d as int == c as int + 32)
    || (65 <= d <= 90 && c as int == d as int + 32)
  }

  predicate SameButCase(a: seq<CChar>, b: seq<CChar>) {
    |a| == |b| && forall k :: 0 <= k < |a| ==> SameLetter(a[k], b[k])
  }

  /** Strings that differ in case only tie when folding. */
  lemma CaseDoesNotMatter(a: seq<CChar>, b: seq<CChar>)
    requires Terminated(a) && Terminated(b) && SameButCase(a, b)
    ensures NatOrder(true, a, b) == 0
  {
    assert UpperString(a) == UpperString(b);
    CaseFoldingByUpperCasing(a, b);
    NatOrderTie(false, UpperString(a), UpperString(a));
  }

  /** Without folding, the upper case of a letter comes before its lower case. */
  lemma CaseMattersWithoutFolding(c: CChar, d: CChar, a: seq<CChar>, b: seq<CChar>)
    requires Terminated(a) && Terminated(b) && 65 <= c <= 90 && d as int == c as int + 32
    ensures Terminated([c] + a) && Terminated([d] + b)
    ensures NatOrder(false, [c] + a, [d] + b) == -1
  {
    CharactersDecide(false, [c] + a, [d] + b);
  }

  /**
   Other first characters are compared by their codes, those of the lower-case letters being
   taken for the upper-case ones when folding. A digit counts as a character unless it meets another.
   */
  lemma CharactersByCode(fold: bool, c: CChar, d: CChar, a: seq<CChar>, b: seq<CChar>)
    requires Terminated([c] + a) && Terminated([d] + b)
    requires c !in SPACES && d !in SPACES && !(48 <= c <= 57 && 48 <= d <= 57)
    ensures var m := if fold && 97 <= c <= 122 then c as int - 32 else c as int;
            var n := if fold && 97 <= d <= 122 then d as int - 32 else d as int;
            m != n ==> NatOrder(fold, [c] + a, [d] + b) == (if m < n then -1 else 1)
  {
    hide NatOrder;
    CharactersDecide(fold, [c] + a, [d] + b);
  }

  // ---------- spaces ----------

  /** Space, tab, line feed, vertical tab, form feed, carriage return. */
  const SPACES: set<int> := {32, 9, 10, 11, 12, 13}

  /**
   A space anywhere changes nothing, except between two digits, where it always does: it cuts
   the number in two.
   */
  lemma {:induction false} SpacesSeparate(p: seq<CChar>, c: CChar, s: seq<CChar>)
    requires Terminated(s) && NUL !in p && c in SPACES
    ensures Terminated(p + [c] + s) && Terminated(p + s)
    ensures Tokens(p + [c] + s) == Tokens(p + s) <==> !(p != [] && IsDigit(p[|p| - 1]) && IsDigit(s[0]))
    decreases |p|
  {
    var with, without := p + [c] + s, p + s;
    if p == [] {
      assert with[1..] == s && without == s;
    } else if IsDigit(p[0]) {
      var n := |DigitRun(p)|;
      assert n > 0;
      if n == |p| {
        SpaceAfterDigits(p, c, s);
      } else {
        SpacesSeparate(p[n..], c, s);
        hide Tokens, DigitRun;
        assert p[n..][|p| - n - 1] == p[|p| - 1];
        assert with == p + ([c] + s) && p[n..] + [c] + s == p[n..] + ([c] + s);
        RunThenRest(p, [c] + s);
        RunThenRest(p, s);
        SameTail(Run(DigitRun(p)), Tokens(p[n..] + [c] + s), Tokens(p[n..] + s));
      }
    } else {
      assert with[1..] == p[1..] + [c] + s && without[1..] == p[1..] + s;
      SpacesSeparate(p[1..], c, s);
      if !IsSpace(p[0]) {
        SameTail(Glyph(p[0]), Tokens(with[1..]), Tokens(without[1..]));
      }
    }
  }

  /** A run that ends inside p is the first token, whatever comes behind p. */
  lemma RunThenRest(p: seq<CChar>, u: seq<CChar>)
    requires Terminated(u) && p != [] && IsDigit(p[0]) && |DigitRun(p)| < |p|
    ensures Terminated(p + u) && Terminated(p[|DigitRun(p)|..] + u)
    ensures Tokens(p + u) == [Run(DigitRun(p))] + Tokens(p[|DigitRun(p)|..] + u)
  {
    RunInFront(p, u);
    RunIsFirstToken(p + u);
    hide Tokens, DigitRun;
    assert (p + u)[|DigitRun(p)|..] == p[|DigitRun(p)|..] + u;
  }

  /** Behind a string of digits a space matters exactly if a digit follows it. */
  lemma SpaceAfterDigits(p: seq<CChar>, c: CChar, s: seq<CChar>)
    requires Terminated(s) && p != [] && |DigitRun(p)| == |p| && c in SPACES
    ensures Terminated(p + [c] + s) && Terminated(p + s) && IsDigit(p[|p| - 1])
    ensures Tokens(p + [c] + s) == Tokens(p + s) <==> !IsDigit(s[0])
  {
    hide *;
    SpaceInFront(c, s);
    LastDigit(p);
    assert p + [c] + s == p + ([c] + s);
    DigitsThenRest(p, [c] + s);
    DigitsThenRest(p, s);
  }

  lemma SpaceInFront(c: CChar, s: seq<CChar>)
    requires Terminated(s) && c in SPACES
    ensures Terminated([c] + s) && !IsDigit(c) && Tokens([c] + s) == Tokens(s)
  {
    assert ([c] + s)[1..] == s;
  }

  lemma LastDigit(p: seq<CChar>)
    requires p != [] && |DigitRun(p)| == |p|
    ensures IsDigit(p[|p| - 1])
  {
    assert p[|p| - 1] == DigitRun(p)[|p| - 1];
  }

  /** The first token of p + u when p is all digits. */
  lemma DigitsThenRest(p: seq<CChar>, u: seq<CChar>)
    requires Terminated(u) && p != [] && |DigitRun(p)| == |p|
    ensures Terminated(p + u)
    ensures !IsDigit(u[0]) ==> Tokens(p + u) == [Run(p)] + Tokens(u)
    ensures IsDigit(u[0]) ==> Tokens(p + u) != [] && Tokens(p + u)[0] != Run(p)
  {
    assert DigitRun(p) == p && IsDigit(p[0]);
    assert |DigitRun(u)| > 0 <==> IsDigit(u[0]);
    RunInFront(p, u);
    RunIsFirstToken(p + u);
    hide Tokens, DigitRun;
    assert p + [] == p && (p + u)[|p|..] == u;
  }

  lemma SameTail(t: Token, xs: seq<Token>, ys: seq<Token>)
    ensures [t] + xs == [t] + ys <==> xs == ys
  {
    assert ([t] + xs)[1..] == xs && ([t] + ys)[1..] == ys;
  }

  /** The digit run at the front of p + s: that of p, continued into s when p is all digits. */
  lemma {:induction false} RunInFront(p: seq<CChar>, s: seq<CChar>)
    requires s != []
    ensures var run := DigitRun(p);
            DigitRun(p + s) == if |run| == |p| then p + DigitRun(s) else run
  {
    if p == [] {
      assert p + s == s;
    } else {
      assert (p + s)[1..] == p[1..] + s;
      RunInFront(p[1..], s);
    }
  }
}
