/**
 The comparison loops themselves. A `char const *` is a terminated buffer together with an
 index; the two workers below advance private copies of the caller's indices.
 */
module NaturalCompare {
  import opened NaturalTokens

  lemma {:induction false} DigitRunAt(s: seq<CChar>, k: nat)
    requires k <= |s| && forall i :: 0 <= i < k ==> IsDigit(s[i])
    ensures k <= |DigitRun(s)|
    ensures k < |s| && !IsDigit(s[k]) ==> |DigitRun(s)| == k
    ensures k < |s| && IsDigit(s[k]) ==> k < |DigitRun(s)|
  {
    if k > 0 {
      DigitRunAt(s[1..], k - 1);
    }
  }

  /** Extending two equally long prefixes by one digit each: an earlier difference persists. */
  lemma {:induction false} LeftOrderSnoc(x: seq<CChar>, y: seq<CChar>, c: CChar, d: CChar)
    requires |x| == |y|
    ensures LeftOrder(x + [c], y + [d])
         == if LeftOrder(x, y) != 0 then LeftOrder(x, y) else Sign(c as int - d as int)
  {
    if x != [] {
      assert (x + [c])[1..] == x[1..] + [c] && (y + [d])[1..] == y[1..] + [d];
      LeftOrderSnoc(x[1..], y[1..], c, d);
    }
  }

  /** Two runs that agree on k digits are ordered by what follows. */
  lemma {:induction false} LeftOrderAfterPrefix(x: seq<CChar>, y: seq<CChar>, k: nat)
    requires k <= |x| && k <= |y| && x[..k] == y[..k]
    ensures LeftOrder(x, y) == LeftOrder(x[k..], y[k..])
  {
    if k > 0 {
      assert x[0] == x[..k][0] && y[0] == y[..k][0];
      assert x[1..][..k - 1] == x[..k][1..] && y[1..][..k - 1] == y[..k][1..];
      LeftOrderAfterPrefix(x[1..], y[1..], k - 1);
      assert x[1..][k - 1..] == x[k..] && y[1..][k - 1..] == y[k..];
    }
  }

  /**
   The source's last branch, for two terminators, is left out here: both characters are digits
   once the first three tests have failed.
   */
  method CompareRight(a: seq<CChar>, i: nat, b: seq<CChar>, j: nat) returns (result: int)
    requires Terminated(a) && Terminated(b) && i < |a| && j < |b|
    ensures result == RightOrder(DigitRun(a[i..]), DigitRun(b[j..]))
  {
    ghost var x, y := DigitRun(a[i..]), DigitRun(b[j..]);
    var bias := 0;
    var k := 0;
    while true
      invariant k <= |x| && k <= |y|
      invariant bias == LeftOrder(x[..k], y[..k])
      decreases |x| - k
    {
      DigitRunAt(a[i..], k);
      DigitRunAt(b[j..], k);
      if !IsDigit(a[i + k]) && !IsDigit(b[j + k]) {
        assert x[..k] == x && y[..k] == y;
        return bias;
      } else if !IsDigit(a[i + k]) {
        return -1;
      } else if !IsDigit(b[j + k]) {
        return 1;
      }
      LeftOrderSnoc(x[..k], y[..k], x[k], y[k]);
      assert x[..k + 1] == x[..k] + [x[k]] && y[..k + 1] == y[..k] + [y[k]];
      if a[i + k] < b[j + k] {
        if bias == 0 {
          bias := -1;
        }
      } else if a[i + k] > b[j + k] {
        if bias == 0 {
          bias := 1;
        }
      }
      k := k + 1;
    }
  }

  method CompareLeft(a: seq<CChar>, i: nat, b: seq<CChar>, j: nat) returns (result: int)
    requires Terminated(a) && Terminated(b) && i < |a| && j < |b|
    ensures result == LeftOrder(DigitRun(a[i..]), DigitRun(b[j..]))
  {
    ghost var x, y := DigitRun(a[i..]), DigitRun(b[j..]);
    hide DigitRun;
    var k := 0;
    while true
      invariant k <= |x| && k <= |y|
      invariant x[..k] == y[..k]
      decreases |x| - k
    {
      DigitRunAt(a[i..], k);
      DigitRunAt(b[j..], k);
      LeftOrderAfterPrefix(x, y, k);
      if !IsDigit(a[i + k]) && !IsDigit(b[j + k]) {
        return 0;
      } else if !IsDigit(a[i + k]) {
        return -1;
      } else if !IsDigit(b[j + k]) {
        return 1;
      } else if a[i + k] < b[j + k] {
        return -1;
      } else if a[i + k] > b[j + k] {
        return 1;
      }
      assert x[..k + 1] == x[..k] + [x[k]] && y[..k + 1] == y[..k] + [y[k]];
      k := k + 1;
    }
  }

  /** The digit run that starts one character later inside a run. */
  lemma DigitRunTail(s: seq<CChar>)
    requires s != [] && IsDigit(s[0])
    ensures DigitRun(s) == [s[0]] + DigitRun(s[1..])
  {
  }

  lemma SameFirstToken(fold: bool, t: Token, xs: seq<Token>, ys: seq<Token>)
    requires ValidToken(t) && ValidTokens(xs) && ValidTokens(ys)
    ensures ValidTokens([t] + xs) && ValidTokens([t] + ys)
    ensures SeqOrder(fold, [t] + xs, [t] + ys) == SeqOrder(fold, xs, ys)
  {
    TokenOrderSwap(fold, t, t);
    assert ([t] + xs)[1..] == xs && ([t] + ys)[1..] == ys;
  }

  lemma RunIsFirstToken(s: seq<CChar>)
    requires Terminated(s) && IsDigit(s[0])
    ensures 0 < |DigitRun(s)| < |s| && Terminated(s[|DigitRun(s)|..])
    ensures ValidToken(Run(DigitRun(s)))
    ensures Tokens(s) == [Run(DigitRun(s))] + Tokens(s[|DigitRun(s)|..])
  {
    DigitRunTail(s);
  }

  /** Two strings that start with the same digit run are ordered by what follows it. */
  lemma SameRun(fold: bool, a: seq<CChar>, b: seq<CChar>, n: nat)
    requires Terminated(a) && Terminated(b)
    requires IsDigit(a[0]) && IsDigit(b[0]) && DigitRun(a) == DigitRun(b) && n == |DigitRun(a)|
    ensures n < |a| && n < |b| && Terminated(a[n..]) && Terminated(b[n..])
    ensures NatOrder(fold, a, b) == NatOrder(fold, a[n..], b[n..])
  {
    RunIsFirstToken(a);
    RunIsFirstToken(b);
    hide Tokens, SeqOrder, DigitRun;
    SameFirstToken(fold, Run(DigitRun(a)), Tokens(a[n..]), Tokens(b[n..]));
  }

  /**
   After two equal digit runs the scan steps over one digit only, and meets the rest of the
   runs again as shorter runs. That never changes the outcome.
   */
  lemma TiedRunsStep(fold: bool, a: seq<CChar>, b: seq<CChar>)
    requires Terminated(a) && Terminated(b)
    requires IsDigit(a[0]) && DigitRun(a) == DigitRun(b)
    ensures Terminated(a[1..]) && Terminated(b[1..])
    ensures NatOrder(fold, a, b) == NatOrder(fold, a[1..], b[1..])
  {
    var run := DigitRun(a);
    DigitRunTail(a);
    assert IsDigit(run[0]) && run[0] == b[0];
    DigitRunTail(b);
    hide NatOrder;
    SameRun(fold, a, b, |run|);
    if |run| > 1 {
      assert DigitRun(a[1..]) == run[1..] == DigitRun(b[1..]);
      assert run[1] == a[1] == b[1];
      SameRun(fold, a[1..], b[1..], |run| - 1);
      assert a[1..][|run| - 1..] == a[|run|..] && b[1..][|run| - 1..] == b[|run|..];
    }
  }

  lemma SkipSpace(fold: bool, a: seq<CChar>, b: seq<CChar>)
    requires Terminated(a) && Terminated(b) && IsSpace(a[0])
    ensures Terminated(a[1..])
    ensures NatOrder(fold, a, b) == NatOrder(fold, a[1..], b)
    ensures NatOrder(fold, b, a) == NatOrder(fold, b, a[1..])
  {
    assert Tokens(a) == Tokens(a[1..]);
  }

  lemma BothEnd(fold: bool, a: seq<CChar>, b: seq<CChar>)
    requires Terminated(a) && Terminated(b) && a[0] == NUL && b[0] == NUL
    ensures NatOrder(fold, a, b) == 0
  {
    SeqOrderSwap(fold, Tokens(a), Tokens(b));
  }

  /** Runs at the front that differ decide the order; otherwise they are the same run. */
  lemma RunsDecide(fold: bool, a: seq<CChar>, b: seq<CChar>)
    requires Terminated(a) && Terminated(b) && IsDigit(a[0]) && IsDigit(b[0])
    ensures DigitRun(a) != [] && DigitRun(b) != []
    ensures DigitRun(a)[0] == a[0] && DigitRun(b)[0] == b[0]
    ensures var order := RunOrder(DigitRun(a), DigitRun(b));
            if order != 0 then NatOrder(fold, a, b) == order else DigitRun(a) == DigitRun(b)
  {
    DigitRunTail(a);
    DigitRunTail(b);
    LeftOrderSwap(DigitRun(a), DigitRun(b));
  }

  /** Unless both strings are at a digit run, their (folded) first characters decide. */
  lemma CharactersDecide(fold: bool, a: seq<CChar>, b: seq<CChar>)
    requires Terminated(a) && Terminated(b)
    requires !IsSpace(a[0]) && !IsSpace(b[0]) && !(IsDigit(a[0]) && IsDigit(b[0]))
    ensures var ca, cb := Fold(fold, a[0]), Fold(fold, b[0]);
            if ca != cb then NatOrder(fold, a, b) == Sign(ca as int - cb as int)
            else a[0] != NUL && b[0] != NUL ==>
                   (Terminated(a[1..]) && Terminated(b[1..])
                    && NatOrder(fold, a, b) == NatOrder(fold, a[1..], b[1..]))
  {
    if IsDigit(a[0]) {
      DigitRunTail(a);
    } else if IsDigit(b[0]) {
      DigitRunTail(b);
    }
  }

  method StrNatCmp0(a: seq<CChar>, b: seq<CChar>, foldCase: bool) returns (result: int)
    requires Terminated(a) && Terminated(b)
    ensures result == NatOrder(foldCase, a, b)
  {
    hide NatOrder, Tokens, DigitRun, LeftOrder, RightOrder;
    var ai, bi := 0, 0;
    assert a[0..] == a && b[0..] == b;
    while true
      invariant ai < |a| && bi < |b|
      invariant NatOrder(foldCase, a, b) == NatOrder(foldCase, a[ai..], b[bi..])
      decreases |a| - ai
    {
      var ca, cb := a[ai], b[bi];
      while IsSpace(ca)
        invariant ai < |a| && ca == a[ai]
        invariant NatOrder(foldCase, a, b) == NatOrder(foldCase, a[ai..], b[bi..])
        decreases |a| - ai
      {
        SkipSpace(foldCase, a[ai..], b[bi..]);
        assert a[ai..][1..] == a[ai + 1..];
        ai := ai + 1;
        ca := a[ai];
      }
      while IsSpace(cb)
        invariant bi < |b| && cb == b[bi]
        invariant NatOrder(foldCase, a, b) == NatOrder(foldCase, a[ai..], b[bi..])
        decreases |b| - bi
      {
        SkipSpace(foldCase, b[bi..], a[ai..]);
        assert b[bi..][1..] == b[bi + 1..];
        bi := bi + 1;
        cb := b[bi];
      }
      ghost var x, y := a[ai..], b[bi..];
      if IsDigit(ca) && IsDigit(cb) {
        var fractional := ca == ZERO || cb == ZERO;
        RunsDecide(foldCase, x, y);
        if fractional {
          result := CompareLeft(a, ai, b, bi);
          if result != 0 {
            return;
          }
        } else {
          result := CompareRight(a, ai, b, bi);
          if result != 0 {
            return;
          }
        }
        TiedRunsStep(foldCase, x, y);
      } else {
        CharactersDecide(foldCase, x, y);
      }
      if ca == NUL && cb == NUL {
        BothEnd(foldCase, x, y);
        return 0;
      }
      if foldCase {
        ca, cb := ToUpper(ca), ToUpper(cb);
      }
      if ca < cb {
        return -1;
      } else if ca > cb {
        return 1;
      }
      assert x[1..] == a[ai + 1..] && y[1..] == b[bi + 1..];
      ai, bi := ai + 1, bi + 1;
    }
  }

  method StrNatCmp(a: seq<CChar>, b: seq<CChar>) returns (result: int)
    requires Terminated(a) && Terminated(b)
    ensures result == NatOrder(false, a, b)
  {
    result := StrNatCmp0(a, b, false);
  }

  method StrNatCaseCmp(a: seq<CChar>, b: seq<CChar>) returns (result: int)
    requires Terminated(a) && Terminated(b)
    ensures result == NatOrder(true, a, b)
  {
    result := StrNatCmp0(a, b, true);
  }
}
