/**
 The length-bounded substring search. The source scans with two unrolled loops joined by gotos;
 here each stretch is a method of its own, and `Search` holds the jumps between them.

 A C string is a buffer of its contents and one terminator. A read beyond the terminator is
 outside the buffer, and ends the search with the outcome `Overrun`.
 */
module Strstr {

  type Byte = x: int | 0 <= x < 256

  datatype Outcome = Found(at: nat) | NotFound | Overrun

  // ---------- what the search is for ----------

  /** The word occurs in the haystack at index p. */
  predicate Occurs(hay: seq<Byte>, word: seq<Byte>, p: nat) {
    p + |word| <= |hay| && hay[p..p + |word|] == word
  }

  ghost predicate OccursFrom(hay: seq<Byte>, word: seq<Byte>, start: nat) {
    exists p: nat :: start <= p && Occurs(hay, word, p)
  }

  ghost predicate LeastFrom(hay: seq<Byte>, word: seq<Byte>, start: nat, p: nat) {
    start <= p && Occurs(hay, word, p) && forall q: nat :: start <= q < p ==> !Occurs(hay, word, q)
  }

  /**
   The last z bytes of the haystack are the first z of the word, and the word goes on with a NUL,
   which the terminator of the haystack is mistaken for. For z = 0, when the word starts with a
   NUL, the haystack must hold another one.
   */
  predicate StraddlesBy(hay: seq<Byte>, word: seq<Byte>, z: nat) {
    && z < |word| && z <= |hay| && word[z] == 0
    && hay[|hay| - z..] == word[..z]
    && (z == 0 ==> 0 in hay)
  }

  ghost predicate Straddles(hay: seq<Byte>, word: seq<Byte>) {
    exists z: nat :: StraddlesBy(hay, word, z)
  }

  /** The documented result: the least occurrence, or nothing when there is none. */
  ghost predicate Correct(hay: seq<Byte>, word: seq<Byte>, r: Outcome) {
    if OccursFrom(hay, word, 0) then r.Found? && LeastFrom(hay, word, 0, r.at) else r == NotFound
  }

  /**
   The result of the search on every input. For an empty word it looks for a NUL, and reads
   beyond the word's own terminator when it finds one.
   */
  ghost predicate SearchResult(hay: seq<Byte>, word: seq<Byte>, r: Outcome) {
    if word == [] then r == if 0 in hay then Overrun else NotFound
    else if OccursFrom(hay, word, 0) then r.Found? && LeastFrom(hay, word, 0, r.at)
    else r == if Straddles(hay, word) then Overrun else NotFound
  }

  /** The search is correct exactly when a non-empty word occurs, or at least does not straddle the end. */
  lemma CorrectUnlessStraddling(hay: seq<Byte>, word: seq<Byte>, r: Outcome)
    requires SearchResult(hay, word, r)
    ensures Correct(hay, word, r) <==> word != [] && (OccursFrom(hay, word, 0) || !Straddles(hay, word))
  {
    if word == [] {
      assert Occurs(hay, word, 0);
    }
  }

  /** A word without NULs never straddles the end. */
  lemma NulFreeNeverStraddles(hay: seq<Byte>, word: seq<Byte>)
    requires 0 !in word
    ensures !Straddles(hay, word)
  {
    forall z: nat ensures !StraddlesBy(hay, word, z) {
      if z < |word| {
        assert word[z] in word;
      }
    }
  }

  /**
   The failing case is real: the search of the one-byte haystack 'a' for 'a' and a NUL can only
   read beyond the terminator, where it should find nothing.
   */
  lemma StraddlingExample(r: Outcome)
    ensures var hay, word := ['a' as int], ['a' as int, 0];
            SearchResult(hay, word, r) ==> r == Overrun && !Correct(hay, word, r)
  {
    var hay, word := ['a' as int], ['a' as int, 0];
    assert StraddlesBy(hay, word, 1);
  }

  // ---------- buffers ----------

  /** A buffer that holds n bytes and their terminator. */
  predicate Buffer(s: seq<Byte>, n: nat) {
    |s| == n + 1 && s[n] == 0
  }

  /** Somewhere inside the buffer the needle, laid at index q, differs from the haystack. */
  ghost predicate Mismatch(h: seq<Byte>, needle: seq<Byte>, nlen: nat, q: nat)
    requires nlen < |needle|
  {
    exists k :: 0 <= k < nlen && q + k < |h| && h[q + k] != needle[k]
  }

  lemma MismatchMeans(h: seq<Byte>, hslen: nat, needle: seq<Byte>, nlen: nat, q: nat)
    requires Buffer(h, hslen) && Buffer(needle, nlen) && q <= hslen
    requires Mismatch(h, needle, nlen, q)
    ensures !Occurs(h[..hslen], needle[..nlen], q)
    ensures !(q < hslen && StraddlesBy(h[..hslen], needle[..nlen], hslen - q))
  {
    var k :| 0 <= k < nlen && q + k < |h| && h[q + k] != needle[k];
  }

  // ---------- the stretches ----------

  /** The first loop: the first occurrence of the needle's first byte. */
  method FindFirst(h: seq<Byte>, hslen: nat, b: Byte) returns (found: bool, p: int, ih: int)
    requires Buffer(h, hslen)
    ensures found ==> 0 <= p < hslen && h[p] == b && ih == hslen - p - 1
    ensures forall q :: 0 <= q < (if found then p else hslen) ==> h[q] != b
  {
    p, ih := -1, hslen;
    while true
      invariant -1 <= p < hslen && ih == hslen - p - 1
      invariant forall q :: 0 <= q <= p ==> h[q] != b
      decreases ih
    {
      p := p + 1;
      var a := h[p];
      ih := ih - 1;
      if ih < 0 {
        return false, p, ih;
      }
      if a == b {
        return true, p, ih;
      }
    }
  }

  /**
   The second loop: from p on, the first place where b is followed by c. The body is unrolled
   once, and ends on the position of c.
   */
  method FindPair(h: seq<Byte>, hslen: nat, b: Byte, c: Byte, p0: nat, ih0: int)
      returns (r: Outcome, p: nat, ih: int)
    requires Buffer(h, hslen) && p0 <= hslen && ih0 == hslen - p0 - 1
    ensures r.Found? ==> p0 < p <= hslen && h[p - 1] == b && h[p] == c && ih == hslen - p - 1
    ensures forall q :: p0 <= q < (if r.Found? then p - 1 else hslen) ==> !(h[q] == b && h[q + 1] == c)
    ensures r == Overrun ==> b == 0
    ensures r == NotFound ==> b != 0
  {
    p, ih := p0, ih0;
    var a := h[p];
    while true
      invariant p0 <= p <= hslen && ih == hslen - p - 1 && a == h[p]
      invariant forall q :: p0 <= q < p ==> !(h[q] == b && h[q + 1] == c)
      decreases hslen - p
    {
      while a != b
        invariant p0 <= p <= hslen && ih == hslen - p - 1 && a == h[p]
        invariant forall q :: p0 <= q < p ==> !(h[q] == b && h[q + 1] == c)
        decreases hslen - p
      {
        if ih < 0 {
          return NotFound, p, ih;
        }
        ih := ih - 1;
        p := p + 1;
        a := h[p];
        if a == b {
          break;
        }
        if ih < 0 {
          return NotFound, p, ih;
        }
        p := p + 1;
        a := h[p];
        ih := ih - 1;
      }
      ih := ih - 1;
      p := p + 1;
      if p >= |h| {
        return Overrun, p, ih;
      }
      a := h[p];
      if a == c {
        return Found(p - 1), p, ih;
      }
    }
  }

  /**
   The comparison at a candidate p whose first two bytes already match. `rest` counts the needle
   bytes from index 2 on, and runs out exactly when the needle's terminator is reached.
   */
  method CompareRest(h: seq<Byte>, hslen: nat, needle: seq<Byte>, nlen: nat, p: nat, rest: int)
      returns (r: Outcome)
    requires Buffer(h, hslen) && Buffer(needle, nlen) && nlen >= 2 && rest == nlen - 2
    requires p < hslen && h[p] == needle[0] && h[p + 1] == needle[1]
    ensures r.Found? ==> p + nlen <= hslen && forall k :: 0 <= k < nlen ==> h[p + k] == needle[k]
    ensures r == NotFound ==> Mismatch(h, needle, nlen, p)
    ensures r == Overrun ==> hslen - p < nlen && forall k :: 0 <= k <= hslen - p ==> h[p + k] == needle[k]
  {
    var left := rest;
    var rp, n := p + 2, 2;
    if rp >= |h| {
      return Overrun;
    }
    if h[rp] == needle[n] {
      while true
        invariant 2 <= n <= nlen && rp == p + n <= hslen && left == nlen - n
        invariant forall k :: 0 <= k <= n ==> h[p + k] == needle[k]
        decreases nlen - n
      {
        if left <= 0 {
          return Found(p);
        }
        rp := rp + 1;
        if rp >= |h| {
          return Overrun;
        }
        n := n + 1;
        if h[rp] != needle[n] {
          left := left - 1;
          break;
        }
        left := left - 1;
        if left <= 0 {
          return Found(p);
        }
        left := left - 1;
        rp := rp + 1;
        if rp >= |h| {
          return Overrun;
        }
        n := n + 1;
        if h[rp] != needle[n] {
          break;
        }
      }
    }
    if left <= 0 {
      return Found(p);
    }
    assert h[p + n] != needle[n];
    return NotFound;
  }

  // ---------- the search ----------

  /** Mismatches everywhere: no occurrence, and no straddling but for a leading NUL. */
  lemma AllMismatch(h: seq<Byte>, hslen: nat, needle: seq<Byte>, nlen: nat, n: nat)
    requires Buffer(h, hslen) && Buffer(needle, nlen) && n <= hslen
    requires forall q: nat :: q < n ==> Mismatch(h, needle, nlen, q)
    ensures forall q: nat :: q < n ==> !Occurs(h[..hslen], needle[..nlen], q)
    ensures forall z: nat :: hslen - n < z <= hslen ==> !StraddlesBy(h[..hslen], needle[..nlen], z)
  {
    forall q: nat | q < n
      ensures !Occurs(h[..hslen], needle[..nlen], q)
    {
      MismatchMeans(h, hslen, needle, nlen, q);
    }
    forall z: nat | hslen - n < z <= hslen
      ensures !StraddlesBy(h[..hslen], needle[..nlen], z)
    {
      MismatchMeans(h, hslen, needle, nlen, hslen - z);
    }
  }

  lemma FoundIsRight(h: seq<Byte>, hslen: nat, needle: seq<Byte>, nlen: nat, p: nat)
    requires Buffer(h, hslen) && Buffer(needle, nlen) && nlen > 0
    requires p + nlen <= hslen && forall k :: 0 <= k < nlen ==> h[p + k] == needle[k]
    requires forall q: nat :: q < p ==> Mismatch(h, needle, nlen, q)
    ensures SearchResult(h[..hslen], needle[..nlen], Found(p))
  {
    AllMismatch(h, hslen, needle, nlen, p);
    assert Occurs(h[..hslen], needle[..nlen], p);
  }

  lemma NotFoundIsRight(h: seq<Byte>, hslen: nat, needle: seq<Byte>, nlen: nat)
    requires Buffer(h, hslen) && Buffer(needle, nlen) && nlen > 0
    requires forall q: nat :: q < hslen ==> Mismatch(h, needle, nlen, q)
    requires needle[0] == 0 ==> 0 !in h[..hslen]
    ensures SearchResult(h[..hslen], needle[..nlen], NotFound)
  {
    AllMismatch(h, hslen, needle, nlen, hslen);
  }

  lemma OverrunAtEnd(h: seq<Byte>, hslen: nat, needle: seq<Byte>, nlen: nat)
    requires Buffer(h, hslen) && Buffer(needle, nlen) && nlen > 0
    requires forall q: nat :: q < hslen ==> Mismatch(h, needle, nlen, q)
    requires needle[0] == 0 && 0 in h[..hslen]
    ensures SearchResult(h[..hslen], needle[..nlen], Overrun)
  {
    AllMismatch(h, hslen, needle, nlen, hslen);
    assert StraddlesBy(h[..hslen], needle[..nlen], 0);
  }

  lemma OverrunAtCandidate(h: seq<Byte>, hslen: nat, needle: seq<Byte>, nlen: nat, p: nat)
    requires Buffer(h, hslen) && Buffer(needle, nlen) && nlen > 0
    requires p < hslen && hslen - p < nlen && forall k :: 0 <= k <= hslen - p ==> h[p + k] == needle[k]
    requires forall q: nat :: q < p ==> Mismatch(h, needle, nlen, q)
    ensures SearchResult(h[..hslen], needle[..nlen], Overrun)
  {
    AllMismatch(h, hslen, needle, nlen, p);
    assert StraddlesBy(h[..hslen], needle[..nlen], hslen - p);
  }

  /** Without the first two needle bytes in a row, there is a mismatch. */
  lemma NoPairNoMatch(h: seq<Byte>, needle: seq<Byte>, nlen: nat, q: nat)
    requires nlen < |needle| && nlen >= 2 && q + 1 < |h|
    requires !(h[q] == needle[0] && h[q + 1] == needle[1])
    ensures Mismatch(h, needle, nlen, q)
  {
    assert h[q + 0] != needle[0] || h[q + 1] != needle[1];
  }

  /** The stretches, and the jumps between them. */
  method Scan(h: seq<Byte>, hslen: nat, needle: seq<Byte>, nlen: nat) returns (r: Outcome)
    requires Buffer(h, hslen) && Buffer(needle, nlen)
    ensures SearchResult(h[..hslen], needle[..nlen], r)
  {
    var b := needle[0];
    var found, p, ih := FindFirst(h, hslen, b);
    if nlen == 0 {
      assert needle[..nlen] == [];
    } else {
      forall q: nat | q < (if found then p else hslen)
        ensures Mismatch(h, needle, nlen, q)
      {
        assert h[q + 0] != needle[0];
      }
    }
    if !found {
      if nlen > 0 {
        NotFoundIsRight(h, hslen, needle, nlen);
      }
      return NotFound;
    }
    assert h[..hslen][p] == b;
    if 1 >= |needle| {
      return Overrun;
    }
    var c := needle[1];
    var rest := nlen - 1;
    if rest <= 0 {
      FoundIsRight(h, hslen, needle, nlen, p);
      return Found(p);
    }
    rest := rest - 1;
    var jumpIn := true;
    while true
      invariant 0 <= p < hslen && ih == hslen - p - 1 && h[p] == b
      invariant forall q: nat :: q < p ==> Mismatch(h, needle, nlen, q)
      invariant !jumpIn ==> Mismatch(h, needle, nlen, p)
      invariant b in h[..hslen]
      decreases hslen - p, jumpIn
    {
      ih := ih - 1;
      p := p + 1;
      if !(jumpIn && h[p] == c) {
        if jumpIn {
          NoPairNoMatch(h, needle, nlen, p - 1);
        }
        ghost var start := p;
        r, p, ih := FindPair(h, hslen, b, c, p, ih);
        forall q: nat | q < (if r.Found? then p - 1 else hslen)
          ensures Mismatch(h, needle, nlen, q)
        {
          if q >= start {
            NoPairNoMatch(h, needle, nlen, q);
          }
        }
        if r == NotFound {
          NotFoundIsRight(h, hslen, needle, nlen);
          return;
        } else if r == Overrun {
          OverrunAtEnd(h, hslen, needle, nlen);
          return;
        }
      }
      jumpIn := false;
      p := p - 1;
      ih := ih + 1;
      r := CompareRest(h, hslen, needle, nlen, p, rest);
      if r.Found? {
        FoundIsRight(h, hslen, needle, nlen, p);
        return Found(p);
      } else if r == Overrun {
        OverrunAtCandidate(h, hslen, needle, nlen, p);
        return;
      }
    }
  }

  /**
   The search on every input: the least occurrence, or nothing, or a read beyond a terminator.
   It does what is documented exactly when the needle is not empty and occurs or does not
   straddle the end.
   */
  method Search(h: seq<Byte>, hslen: nat, needle: seq<Byte>, nlen: nat) returns (r: Outcome)
    requires Buffer(h, hslen) && Buffer(needle, nlen)
    ensures SearchResult(h[..hslen], needle[..nlen], r)
    ensures Correct(h[..hslen], needle[..nlen], r)
       <==> nlen > 0 && (OccursFrom(h[..hslen], needle[..nlen], 0) || !Straddles(h[..hslen], needle[..nlen]))
  {
    r := Scan(h, hslen, needle, nlen);
    CorrectUnlessStraddling(h[..hslen], needle[..nlen], r);
  }

  /** A bstring is stored with a terminator. */
  function Stored(s: seq<Byte>): (h: seq<Byte>)
    ensures Buffer(h, |s|) && h[..|s|] == s
  {
    s + [0]
  }

  /** The case-sensitive search from an offset. The index found is relative to the whole haystack. */
  method StrPos(haystack: seq<Byte>, needle: seq<Byte>, offset: nat) returns (r: Outcome)
    requires offset <= |haystack|
    ensures if needle == [] then r == if 0 in haystack[offset..] then Overrun else NotFound
            else if OccursFrom(haystack, needle, offset) then r.Found? && LeastFrom(haystack, needle, offset, r.at)
            else r == if Straddles(haystack[offset..], needle) then Overrun else NotFound
  {
    var h, hlen := Stored(haystack)[offset..], |haystack| - offset;
    assert h[..hlen] == haystack[offset..];
    assert Stored(needle)[..|needle|] == needle;
    r := Search(h, hlen, Stored(needle), |needle|);
    ShiftedOccurrences(haystack, needle, offset);
    if r.Found? {
      r := Found(r.at + offset);
    }
  }

  lemma ShiftedOccurrence(haystack: seq<Byte>, needle: seq<Byte>, offset: nat, p: nat)
    requires offset <= p && offset <= |haystack|
    ensures Occurs(haystack[offset..], needle, p - offset) <==> Occurs(haystack, needle, p)
  {
    var tail := haystack[offset..];
    if p + |needle| <= |haystack| {
      assert tail[p - offset..p - offset + |needle|] == haystack[p..p + |needle|];
    }
  }

  lemma ShiftedOccurrences(haystack: seq<Byte>, needle: seq<Byte>, offset: nat)
    requires offset <= |haystack|
    ensures OccursFrom(haystack[offset..], needle, 0) <==> OccursFrom(haystack, needle, offset)
    ensures forall p: nat :: LeastFrom(haystack[offset..], needle, 0, p) ==> LeastFrom(haystack, needle, offset, p + offset)
  {
    hide Occurs;
    var tail := haystack[offset..];
    if OccursFrom(tail, needle, 0) {
      var p: nat :| Occurs(tail, needle, p);
      ShiftedOccurrence(haystack, needle, offset, p + offset);
    }
    if OccursFrom(haystack, needle, offset) {
      var p: nat :| offset <= p && Occurs(haystack, needle, p);
      ShiftedOccurrence(haystack, needle, offset, p);
    }
    forall p: nat | LeastFrom(tail, needle, 0, p)
      ensures LeastFrom(haystack, needle, offset, p + offset)
    {
      ShiftedOccurrence(haystack, needle, offset, p + offset);
      forall q: nat | offset <= q < p + offset
        ensures !Occurs(haystack, needle, q)
      {
        ShiftedOccurrence(haystack, needle, offset, q);
      }
    }
  }

  /** The entry the runtime calls: it guards offset and lengths, and finds nothing outside them. */
  method PccStrPos(haystack: seq<Byte>, needle: seq<Byte>, offset: int) returns (r: Outcome)
    ensures if 0 <= offset && needle != [] && OccursFrom(haystack, needle, offset)
            then r.Found? && LeastFrom(haystack, needle, offset, r.at)
            else r == if 0 <= offset < |haystack| && Straddles(haystack[offset..], needle) then Overrun else NotFound
  {
    if offset < |haystack| && offset >= 0 && |needle| > 0 && |haystack| > 0 {
      r := StrPos(haystack, needle, offset);
    } else {
      r := NotFound;
    }
  }

  /** For a needle without NULs the answer is the least occurrence, and -1 only if there is none. */
  method StrPosIndex(haystack: seq<Byte>, needle: seq<Byte>, offset: int) returns (index: int)
    requires 0 !in needle
    ensures if 0 <= offset && needle != [] && OccursFrom(haystack, needle, offset)
            then index >= 0 && LeastFrom(haystack, needle, offset, index)
            else index == -1
  {
    if 0 <= offset < |haystack| {
      NulFreeNeverStraddles(haystack[offset..], needle);
    }
    var r := PccStrPos(haystack, needle, offset);
    index := if r.Found? then r.at else -1;
  }
}
