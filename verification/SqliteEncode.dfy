/**
 The SQLite helper that turns binary data into a string without quotes and NULs, and back.
 An `unsigned char` is an integer below 256 here, with the wrap-around written out.
 */
module SqliteEncode {

  type Byte = x: int | 0 <= x < 256

  const QUOTE: Byte := 39
  const ESCAPE: Byte := 1

  datatype Option<T> = None | Some(value: T)

  // ---------- the encoding for a given offset ----------

  predicate NeedsEscape(x: Byte) {
    x == 0 || x == 1 || x == QUOTE
  }

  /** The offset is itself a character of the output. */
  predicate Allowed(e: int) {
    1 <= e < 256 && e != QUOTE
  }

  function EncodeByte(b: Byte, e: Byte): (r: seq<Byte>) {
    var x: Byte := (b - e) % 256;
    if NeedsEscape(x) then [ESCAPE, x + 1] else [x]
  }

  function EncodeBody(s: seq<Byte>, e: Byte): seq<Byte> {
    if s == [] then [] else EncodeBody(s[..|s| - 1], e) + EncodeByte(s[|s| - 1], e)
  }

  /** Offset, body and terminator. */
  function EncodeWith(s: seq<Byte>, e: Byte): seq<Byte> {
    [e] + EncodeBody(s, e) + [0]
  }

  /** How many bytes of s need an escape at offset e. */
  function Escapes(s: seq<Byte>, e: Byte): (n: nat)
    ensures n <= |s|
  {
    if s == [] then 0
    else Escapes(s[..|s| - 1], e) + if NeedsEscape((s[|s| - 1] - e) % 256) then 1 else 0
  }

  lemma {:induction false} BodyLength(s: seq<Byte>, e: Byte)
    ensures |EncodeBody(s, e)| == |s| + Escapes(s, e)
  {
    if s != [] {
      BodyLength(s[..|s| - 1], e);
    }
  }

  // ---------- the best offset ----------

  ghost predicate IsBest(s: seq<Byte>, e: int) {
    && Allowed(e)
    && (forall d :: Allowed(d) ==> Escapes(s, e) <= Escapes(s, d))
    && (forall d :: Allowed(d) && d < e ==> Escapes(s, e) < Escapes(s, d))
  }

  /** The least allowed offset up to k with the fewest escapes. */
  ghost function BestUpTo(s: seq<Byte>, k: int): (e: Byte)
    requires 1 <= k < 256
    ensures Allowed(e) && e <= k
    ensures forall d :: Allowed(d) && d <= k ==> Escapes(s, e) <= Escapes(s, d)
    ensures forall d :: Allowed(d) && d < e ==> Escapes(s, e) < Escapes(s, d)
  {
    if k == 1 then 1
    else
      var e := BestUpTo(s, k - 1);
      if Allowed(k) && Escapes(s, k) < Escapes(s, e) then k else e
  }

  ghost function BestOffset(s: seq<Byte>): (e: Byte)
    ensures IsBest(s, e)
  {
    BestUpTo(s, 255)
  }

  lemma BestIsUnique(s: seq<Byte>, e: int)
    requires IsBest(s, e)
    ensures e == BestOffset(s)
  {
    assert Allowed(BestOffset(s));
  }

  /** What the encoder writes, terminator included. */
  ghost function Encoding(s: seq<Byte>): seq<Byte> {
    if s == [] then ['x' as int, 0] else EncodeWith(s, BestOffset(s))
  }

  /** No allowed offset gives a shorter string. */
  lemma EncodingIsShortest(s: seq<Byte>, e: int)
    requires Allowed(e)
    ensures |Encoding(s)| <= |EncodeWith(s, e)|
  {
    BodyLength(s, e);
    BodyLength(s, BestOffset(s));
  }

  // ---------- the encodings of the source's own description ----------

  /** The three escapes, and every other byte as its distance from the offset. */
  lemma EscapeTable(b: Byte, e: Byte)
    ensures b == e ==> EncodeWith([b], e) == [e, 1, 1, 0]
    ensures b == (e + 1) % 256 ==> EncodeWith([b], e) == [e, 1, 2, 0]
    ensures b == (e + 39) % 256 ==> EncodeWith([b], e) == [e, 1, 40, 0]
    ensures b != e && b != (e + 1) % 256 && b != (e + 39) % 256 ==>
              exists x :: 1 < x < 256 && EncodeWith([b], e) == [e, x, 0] && (e + x) % 256 == b
  {
    var s := [b];
    assert s[..0] == [] && EncodeBody(s[..0], e) == [];
    assert EncodeBody(s, e) == EncodeByte(b, e);
    var x: Byte := (b - e) % 256;
    if x == 39 {
      assert b == (e + 39) % 256;
    } else if x > 1 {
      assert EncodeWith(s, e) == [e, x, 0];
    }
  }

  function Repeated(b: Byte, n: nat): (s: seq<Byte>)
    ensures |s| == n && forall k :: 0 <= k < n ==> s[k] == b
  {
    seq(n, _ => b)
  }

  lemma {:induction false} QuotesAtOne(n: nat)
    ensures Escapes(Repeated(QUOTE, n), 1) == 0
    ensures EncodeBody(Repeated(QUOTE, n), 1) == Repeated(38, n)
  {
    if n > 0 {
      QuotesAtOne(n - 1);
      assert Repeated(QUOTE, n)[..n - 1] == Repeated(QUOTE, n - 1);
      assert Repeated(38, n) == Repeated(38, n - 1) + [38];
    }
  }

  /** A string of quotes takes one byte each: the encoder moves them all out of the way. */
  lemma OnlyQuotes(n: nat)
    requires n > 0
    ensures Encoding(Repeated(QUOTE, n)) == [1] + Repeated(38, n) + [0]
  {
    QuotesAtOne(n);
    BestIsUnique(Repeated(QUOTE, n), 1);
  }

  // ---------- the size bound ----------

  /** Escapes summed over the allowed offsets up to k. */
  function TotalEscapes(s: seq<Byte>, k: nat): nat
    requires k < 256
  {
    if k == 0 then 0 else TotalEscapes(s, k - 1) + if Allowed(k) then Escapes(s, k) else 0
  }

  /** The allowed offsets up to k at which the byte b needs an escape. */
  function Hits(b: Byte, k: nat): nat
    requires k < 256
  {
    if k == 0 then 0
    else Hits(b, k - 1) + if Allowed(k) && NeedsEscape((b - k) % 256) then 1 else 0
  }

  function AllowedCount(k: nat): nat {
    if k < QUOTE then k else k - 1
  }

  lemma HittingOffsets(b: Byte, k: nat)
    requires k < 256
    ensures NeedsEscape((b - k) % 256) <==> k == b || k == (b - 1) % 256 || k == (b - 39) % 256
  {
  }

  /** Every byte is hit by at most three offsets: b, b - 1 and b - 39, modulo 256. */
  lemma {:induction false} HitsAtMostThree(b: Byte, k: nat)
    requires k < 256
    ensures Hits(b, k) <= (if b <= k then 1 else 0)
                        + (if (b - 1) % 256 <= k then 1 else 0)
                        + (if (b - 39) % 256 <= k then 1 else 0)
  {
    if k > 0 {
      HitsAtMostThree(b, k - 1);
      HittingOffsets(b, k);
    }
  }

  lemma {:induction false} TotalOfOneMore(s: seq<Byte>, b: Byte, k: nat)
    requires k < 256
    ensures TotalEscapes(s + [b], k) == TotalEscapes(s, k) + Hits(b, k)
  {
    if k > 0 {
      TotalOfOneMore(s, b, k - 1);
      assert (s + [b])[..|s|] == s;
    }
  }

  lemma {:induction false} NoEscapesInNothing(k: nat)
    requires k < 256
    ensures TotalEscapes([], k) == 0
  {
    if k > 0 {
      NoEscapesInNothing(k - 1);
    }
  }

  lemma {:induction false} TotalAtMost(s: seq<Byte>)
    ensures TotalEscapes(s, 255) <= 3 * |s|
  {
    if s == [] {
      NoEscapesInNothing(255);
    } else {
      var front := s[..|s| - 1];
      TotalAtMost(front);
      TotalOfOneMore(front, s[|s| - 1], 255);
      HitsAtMostThree(s[|s| - 1], 255);
      assert s == front + [s[|s| - 1]];
    }
  }

  lemma {:induction false} TotalAtLeast(s: seq<Byte>, m: nat, k: nat)
    requires k < 256
    requires forall d :: Allowed(d) ==> m <= Escapes(s, d)
    ensures m * AllowedCount(k) <= TotalEscapes(s, k)
    ensures AllowedCount(255) == 254
  {
    if k > 0 {
      TotalAtLeast(s, m, k - 1);
      assert m * (AllowedCount(k - 1) + 1) == m * AllowedCount(k - 1) + m;
    }
  }

  lemma SubstituteFactor(m: nat, count: nat)
    requires count == 254
    ensures m * count == 254 * m
  {
  }

  /** The best of 254 offsets escapes at most 3 bytes in 254. */
  lemma FewEscapes(s: seq<Byte>)
    ensures 254 * Escapes(s, BestOffset(s)) <= 3 * |s|
  {
    var m := Escapes(s, BestOffset(s));
    assert IsBest(s, BestOffset(s));
    TotalAtLeast(s, m, 255);
    TotalAtMost(s);
    hide *;
    SubstituteFactor(m, AllowedCount(255));
  }

  /** The documented buffer size suffices. */
  lemma EncodingFits(s: seq<Byte>)
    ensures |Encoding(s)| <= 2 + (257 * |s|) / 254
  {
    if s != [] {
      FewEscapes(s);
      BodyLength(s, BestOffset(s));
    }
  }

  // ---------- decoding ----------

  /** The decoder's loop; None when it would read past the end of the buffer. */
  function DecodeBody(t: seq<Byte>, e: Byte): Option<seq<Byte>>
    decreases |t|
  {
    if t == [] then None
    else if t[0] == 0 then Some([])
    else if t[0] == ESCAPE then
      if |t| == 1 then None else Prepend(((t[1] - 1) % 256 + e) % 256, DecodeBody(t[2..], e))
    else Prepend((t[0] + e) % 256, DecodeBody(t[1..], e))
  }

  function Prepend(b: Byte, rest: Option<seq<Byte>>): Option<seq<Byte>> {
    match rest
    case None => None
    case Some(bytes) => Some([b] + bytes)
  }

  function Decoding(t: seq<Byte>): Option<seq<Byte>> {
    if t == [] then None else DecodeBody(t[1..], t[0])
  }

  lemma EncodedByteDecodes(b: Byte, e: Byte, rest: seq<Byte>)
    ensures DecodeBody(EncodeByte(b, e) + rest, e) == Prepend(b, DecodeBody(rest, e))
  {
    var x: Byte := (b - e) % 256;
    var t := EncodeByte(b, e) + rest;
    assert (x + e) % 256 == b;
    if NeedsEscape(x) {
      assert t[0] == ESCAPE && t[1] == x + 1 && t[2..] == rest;
    } else {
      assert t[0] == x && t[1..] == rest;
    }
  }

  function Join(front: seq<Byte>, rest: Option<seq<Byte>>): Option<seq<Byte>> {
    match rest
    case None => None
    case Some(bytes) => Some(front + bytes)
  }

  lemma JoinPrepend(front: seq<Byte>, b: Byte, rest: Option<seq<Byte>>)
    ensures Join(front, Prepend(b, rest)) == Join(front + [b], rest)
  {
    if rest.Some? {
      assert front + ([b] + rest.value) == front + [b] + rest.value;
    }
  }

  lemma {:induction false} EncodedBodyDecodes(s: seq<Byte>, e: Byte, rest: seq<Byte>)
    ensures DecodeBody(EncodeBody(s, e) + rest, e) == Join(s, DecodeBody(rest, e))
    decreases |s|
  {
    if s == [] {
      assert EncodeBody(s, e) + rest == rest;
      var tail := DecodeBody(rest, e);
      assert tail.Some? ==> [] + tail.value == tail.value;
    } else {
      var front, b := s[..|s| - 1], s[|s| - 1];
      assert EncodeBody(s, e) + rest == EncodeBody(front, e) + (EncodeByte(b, e) + rest);
      EncodedBodyDecodes(front, e, EncodeByte(b, e) + rest);
      EncodedByteDecodes(b, e, rest);
      assert s == front + [b];
      hide *;
      JoinPrepend(front, b, DecodeBody(rest, e));
    }
  }

  /** Decoding an encoding, at any offset and with anything behind it, gives the original. */
  lemma DecodeEncodeWith(s: seq<Byte>, e: Byte, junk: seq<Byte>)
    ensures Decoding(EncodeWith(s, e) + junk) == Some(s)
  {
    var t := EncodeWith(s, e) + junk;
    assert t[1..] == EncodeBody(s, e) + ([0] + junk);
    EncodedBodyDecodes(s, e, [0] + junk);
    assert s + [] == s;
  }

  lemma DecodeEncode(s: seq<Byte>, junk: seq<Byte>)
    ensures Decoding(Encoding(s) + junk) == Some(s)
  {
    if s == [] {
      var t := Encoding(s) + junk;
      assert t[1..][0] == 0;
    } else {
      DecodeEncodeWith(s, BestOffset(s), junk);
    }
  }

  // ---------- what an encoding looks like ----------

  /** Up to the end: no NUL, no quote, and every escape is followed by 1, 2 or 40. */
  predicate WellFormedBody(t: seq<Byte>)
    decreases |t|
  {
    if t == [] then true
    else if t[0] == 0 || t[0] == QUOTE then false
    else if t[0] == ESCAPE then
      |t| > 1 && t[1] in {1, 2, 40} && WellFormedBody(t[2..])
    else WellFormedBody(t[1..])
  }

  lemma {:induction false} WellFormedJoin(t: seq<Byte>, u: seq<Byte>)
    requires WellFormedBody(t) && WellFormedBody(u)
    ensures WellFormedBody(t + u)
    decreases |t|
  {
    if t == [] {
      assert t + u == u;
    } else if t[0] == ESCAPE {
      assert (t + u)[2..] == t[2..] + u;
      WellFormedJoin(t[2..], u);
    } else {
      assert (t + u)[1..] == t[1..] + u;
      WellFormedJoin(t[1..], u);
    }
  }

  lemma {:induction false} EncodedBodyIsWellFormed(s: seq<Byte>, e: Byte)
    ensures WellFormedBody(EncodeBody(s, e))
  {
    if s != [] {
      EncodedBodyIsWellFormed(s[..|s| - 1], e);
      var r := EncodeByte(s[|s| - 1], e);
      if |r| == 2 {
        assert WellFormedBody(r[2..]);
      } else {
        assert WellFormedBody(r[1..]);
      }
      WellFormedJoin(EncodeBody(s[..|s| - 1], e), r);
    }
  }

  lemma {:induction false} WellFormedIsClean(t: seq<Byte>, k: nat)
    requires WellFormedBody(t) && k < |t|
    ensures t[k] != 0 && t[k] != QUOTE
    decreases |t|
  {
    if t[0] == ESCAPE {
      if k >= 2 {
        WellFormedIsClean(t[2..], k - 2);
      }
    } else if k >= 1 {
      WellFormedIsClean(t[1..], k - 1);
    }
  }

  /** Before its terminator an encoding holds no NUL and no quote. */
  lemma EncodingIsClean(s: seq<Byte>, k: nat)
    requires k < |Encoding(s)| - 1
    ensures Encoding(s)[k] != 0 && Encoding(s)[k] != QUOTE
  {
    if s != [] {
      var e := BestOffset(s);
      EncodedBodyIsWellFormed(s, e);
      if k > 0 {
        WellFormedIsClean(EncodeBody(s, e), k - 1);
      }
    }
  }

  // ---------- which strings are encodings ----------

  lemma {:induction false} EncodeBodyFront(b: Byte, s: seq<Byte>, e: Byte)
    ensures EncodeBody([b] + s, e) == EncodeByte(b, e) + EncodeBody(s, e)
  {
    hide EncodeByte;
    var t := [b] + s;
    if s == [] {
      assert t[..0] == [] && EncodeBody([], e) == [];
    } else {
      var front, last := s[..|s| - 1], s[|s| - 1];
      EncodeBodyFront(b, front, e);
      assert t[..|s|] == [b] + front && t[|s|] == last;
      assert EncodeBody(t, e) == EncodeByte(b, e) + EncodeBody(front, e) + EncodeByte(last, e);
    }
  }

  /** When the bytes t[..n] are what encoding the byte b gives. */
  lemma OneByteBack(t: seq<Byte>, e: Byte, b: Byte)
    requires t != [] && t[0] != 0 && (t[0] == ESCAPE ==> |t| > 1 && t[1] != 0)
    requires b == if t[0] == ESCAPE then ((t[1] - 1) % 256 + e) % 256 else (t[0] + e) % 256
    ensures t[0] == ESCAPE && t[1] in {1, 2, 40} ==> EncodeByte(b, e) == t[..2]
    ensures t[0] == ESCAPE && t[1] !in {1, 2, 40} ==> EncodeByte(b, e)[0] != t[0]
    ensures t[0] != ESCAPE && t[0] != QUOTE ==> EncodeByte(b, e) == t[..1]
    ensures t[0] == QUOTE ==> EncodeByte(b, e)[0] != t[0]
  {
    ShiftBack(if t[0] == ESCAPE then t[1] - 1 else t[0], e, b);
  }

  lemma ShiftBack(x: Byte, e: Byte, b: Byte)
    requires b == (x + e) % 256
    ensures (b - e) % 256 == x
  {
  }

  lemma DecodeBodyStep(t: seq<Byte>, e: Byte, n: nat, b: Byte)
    requires t != [] && t[0] != 0 && n == (if t[0] == ESCAPE then 2 else 1) && n <= |t|
    requires b == if t[0] == ESCAPE then ((t[1] - 1) % 256 + e) % 256 else (t[0] + e) % 256
    ensures DecodeBody(t + [0], e) == Prepend(b, DecodeBody(t[n..] + [0], e))
  {
    assert (t + [0])[n..] == t[n..] + [0];
  }

  /**
   A NUL-free body is an encoding at offset e exactly when it is well formed: re-encoding
   what the decoder makes of it gives the same body back.
   */
  lemma {:induction false} EncodeDecode(t: seq<Byte>, e: Byte)
    requires forall k :: 0 <= k < |t| ==> t[k] != 0
    ensures WellFormedBody(t)
       <==> DecodeBody(t + [0], e).Some? && EncodeBody(DecodeBody(t + [0], e).value, e) == t
    decreases |t|
  {
    if t == [] {
      assert t + [0] == [0];
    } else if t[0] == ESCAPE && |t| == 1 {
      assert (t + [0])[2..] == [];
    } else {
      var n := if t[0] == ESCAPE then 2 else 1;
      var b: Byte := if n == 2 then ((t[1] - 1) % 256 + e) % 256 else (t[0] + e) % 256;
      EncodeDecode(t[n..], e);
      DecodeBodyStep(t, e, n, b);
      OneByteBack(t, e, b);
      var rest := DecodeBody(t[n..] + [0], e);
      hide DecodeBody, EncodeByte;
      if rest.Some? {
        EncodeBodyFront(b, rest.value, e);
        hide EncodeBody;
        var r := EncodeByte(b, e);
        if r == t[..n] {
          assert (r + EncodeBody(rest.value, e))[n..] == EncodeBody(rest.value, e);
          assert t == t[..n] + t[n..];
        }
      }
    }
  }

  // ---------- when the decoder stays inside its string ----------

  predicate NulFree(t: seq<Byte>) {
    forall k :: 0 <= k < |t| ==> t[k] != 0
  }

  /** The number of escape bytes at the end of t. */
  function TrailingEscapes(t: seq<Byte>): (n: nat)
    ensures n <= |t|
  {
    if t == [] || t[|t| - 1] != ESCAPE then 0 else 1 + TrailingEscapes(t[..|t| - 1])
  }

  lemma {:induction false} TrailingOfJoin(u: seq<Byte>, v: seq<Byte>)
    ensures TrailingEscapes(u + v)
         == if TrailingEscapes(v) == |v| then |v| + TrailingEscapes(u) else TrailingEscapes(v)
  {
    if v == [] {
      assert u + v == u;
    } else {
      assert (u + v)[..|u + v| - 1] == u + v[..|v| - 1];
      TrailingOfJoin(u, v[..|v| - 1]);
    }
  }

  lemma {:induction false} BodyStops(t: seq<Byte>, e: Byte)
    requires NulFree(t)
    ensures DecodeBody(t + [0], e).Some? <==> TrailingEscapes(t) % 2 == 0
    decreases |t|
  {
    if t == [] {
    } else if t[0] == ESCAPE && |t| == 1 {
      assert (t + [0])[2..] == [];
      assert t[..0] == [];
    } else {
      var n := if t[0] == ESCAPE then 2 else 1;
      var b: Byte := if n == 2 then ((t[1] - 1) % 256 + e) % 256 else (t[0] + e) % 256;
      BodyStops(t[n..], e);
      DecodeBodyStep(t, e, n, b);
      assert t == t[..n] + t[n..];
      TrailingOfJoin(t[..n], t[n..]);
      TrailingOfFront(t[..n]);
    }
  }

  lemma TrailingOfFront(u: seq<Byte>)
    requires (|u| == 1 && u[0] != ESCAPE) || (|u| == 2 && u[0] == ESCAPE)
    ensures TrailingEscapes(u) == 0 || TrailingEscapes(u) == 2
  {
    if |u| == 2 {
      assert u[..1][..0] == [];
    }
  }

  /**
   The decoder stays inside a string exactly when the string is not empty and, behind its offset
   byte, ends in an even number of escape bytes. Otherwise it takes the terminator for the offset
   or for half of a pair, and reads on.
   */
  lemma DecoderStops(w: seq<Byte>)
    requires NulFree(w)
    ensures Decoding(w + [0]).Some? <==> w != [] && TrailingEscapes(w[1..]) % 2 == 0
  {
    if w == [] {
      EmptyStringOverruns();
    } else {
      assert (w + [0])[1..] == w[1..] + [0];
      BodyStops(w[1..], w[0]);
    }
  }

  /** The terminator of the empty string is taken for the offset. */
  lemma EmptyStringOverruns()
    ensures Decoding([] + [0]) == None
  {
    assert ([] + [0])[1..] == [];
  }

  // ---------- which strings the decoder should accept ----------

  /** The string w, with its terminator, is s encoded at an offset the encoder may use. */
  ghost predicate Encodes(w: seq<Byte>, s: seq<Byte>) {
    exists e: Byte :: Allowed(e) && EncodeWith(s, e) == w + [0]
  }

  /** An allowed offset and a well-formed body. */
  predicate WellFormed(w: seq<Byte>) {
    w != [] && Allowed(w[0]) && WellFormedBody(w[1..])
  }

  /** The documented result: the number of bytes that w encodes, or -1 if it encodes nothing. */
  ghost predicate AsDocumented(w: seq<Byte>, result: int) {
    if exists s :: Encodes(w, s) then exists s :: Encodes(w, s) && result == |s|
    else result == -1
  }

  lemma EncodesMeans(w: seq<Byte>, s: seq<Byte>)
    requires Encodes(w, s)
    ensures WellFormed(w) && Decoding(w + [0]) == Some(s)
  {
    var e: Byte :| Allowed(e) && EncodeWith(s, e) == w + [0];
    assert w == (w + [0])[..|w|] == [e] + EncodeBody(s, e);
    EncodedBodyIsWellFormed(s, e);
    DecodeEncodeWith(s, e, []);
    assert w + [0] + [] == w + [0];
  }

  /** The strings that encode something are exactly the well-formed ones, and they encode what they decode to. */
  lemma EncodingsAreWellFormed(w: seq<Byte>)
    requires NulFree(w)
    ensures (exists s :: Encodes(w, s)) <==> WellFormed(w)
    ensures WellFormed(w) ==> Decoding(w + [0]).Some? && Encodes(w, Decoding(w + [0]).value)
  {
    if s: seq<Byte> :| Encodes(w, s) {
      EncodesMeans(w, s);
    }
    if WellFormed(w) {
      EncodeDecode(w[1..], w[0]);
      assert (w + [0])[1..] == w[1..] + [0];
      assert EncodeWith(Decoding(w + [0]).value, w[0]) == w + [0];
      assert Encodes(w, Decoding(w + [0]).value);
    }
  }

  /**
   The decoder returns the documented result exactly for the well-formed strings. For every other
   string it reads past the end or returns a length, where -1 is promised.
   */
  lemma ResultAsDocumented(w: seq<Byte>)
    requires NulFree(w)
    ensures Decoding(w + [0]).Some? && AsDocumented(w, |Decoding(w + [0]).value|) <==> WellFormed(w)
  {
    EncodingsAreWellFormed(w);
  }

  /** Two strings that encode nothing and are decoded all the same: a bad pair, and a quote as offset. */
  lemma MalformedIsAccepted()
    ensures Decoding([5, 1, 7] + [0]) == Some([11]) && AsDocumented([5, 1, 7], -1)
    ensures Decoding([39, 2] + [0]) == Some([41]) && AsDocumented([39, 2], -1)
  {
    var nothing: seq<Byte> := [];
    var v: seq<Byte> := [5, 1, 7];
    assert (v + [0])[1..] == [1, 7, 0] && [1, 7, 0][2..] == [0];
    assert DecodeBody([0], 5) == Some(nothing) && [11] + nothing == [11];
    assert DecodeBody([1, 7, 0], 5) == Prepend(11, DecodeBody([0], 5));
    assert !WellFormedBody([1, 7]) && v[1..] == [1, 7];
    EncodingsAreWellFormed(v);
    var w: seq<Byte> := [39, 2];
    assert (w + [0])[1..] == [2, 0] && [2, 0][1..] == [0];
    assert DecodeBody([0], 39) == Some(nothing) && [41] + nothing == [41];
    assert DecodeBody([2, 0], 39) == Prepend(41, DecodeBody([0], 39));
    EncodingsAreWellFormed(w);
  }
}
