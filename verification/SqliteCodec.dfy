/**
 The encoder and decoder loops, proved against the encoding in module SqliteEncode.
 */
module SqliteCodec {
  import opened SqliteEncode

  /** Occurrences of the byte value v. */
  function Occurrences(s: seq<Byte>, v: Byte): nat {
    multiset(s)[v]
  }

  /** The three histogram cells add up to the escapes at an offset. */
  lemma {:induction false} EscapesFromHistogram(s: seq<Byte>, e: Byte)
    ensures Escapes(s, e)
         == Occurrences(s, e) + Occurrences(s, (e + 1) % 256) + Occurrences(s, (e + QUOTE) % 256)
  {
    if s != [] {
      var front, b := s[..|s| - 1], s[|s| - 1];
      assert s == front + [b];
      EscapesFromHistogram(front, e);
      EscapingOffset(b, e);
    }
  }

  lemma EscapingOffset(b: Byte, e: Byte)
    ensures NeedsEscape((b - e) % 256) <==> b == e || b == (e + 1) % 256 || b == (e + QUOTE) % 256
  {
  }

  method Histogram(input: array<Byte>, n: nat) returns (cnt: array<int>)
    requires n <= input.Length
    ensures fresh(cnt) && cnt.Length == 256
    ensures forall v: Byte :: cnt[v] == Occurrences(input[..n], v)
  {
    cnt := new int[256](_ => 0);
    var i := n - 1;
    while i >= 0
      invariant -1 <= i < n
      invariant forall v: Byte :: cnt[v] == Occurrences(input[i + 1..n], v)
    {
      assert input[i..n] == [input[i]] + input[i + 1..n];
      cnt[input[i]] := cnt[input[i]] + 1;
      i := i - 1;
    }
    assert input[0..n] == input[..n];
  }

  /** The search over all offsets; it may stop early once no escape is needed. */
  method ChooseOffset(ghost s: seq<Byte>, n: int, cnt: array<int>) returns (e: Byte, m: int)
    requires |s| == n > 0 && cnt.Length == 256
    requires forall v: Byte :: cnt[v] == Occurrences(s, v)
    ensures e == BestOffset(s) && m == Escapes(s, e)
  {
    e := *; // not initialised
    m := n;
    var i := 1;
    while i < 256
      invariant 1 <= i <= 256
      invariant m <= n
      invariant m == n ==> forall d :: Allowed(d) && d < i ==> m <= Escapes(s, d)
      invariant m < n ==> Allowed(e) && e < i && m == Escapes(s, e)
      invariant m < n ==> forall d :: Allowed(d) && d < i ==> m <= Escapes(s, d)
      invariant m < n ==> forall d :: Allowed(d) && d < e ==> m < Escapes(s, d)
    {
      if i != QUOTE {
        var sum := cnt[i] + cnt[(i + 1) % 256] + cnt[(i + QUOTE) % 256];
        EscapesFromHistogram(s, i);
        if sum < m {
          m := sum;
          e := i;
          if m == 0 {
            break;
          }
        }
      }
      i := i + 1;
    }
    FewEscapes(s);
    assert m < n;
    assert IsBest(s, e);
    BestIsUnique(s, e);
  }

  lemma BodyGrows(s: seq<Byte>, i: nat, e: Byte)
    requires i < |s|
    ensures EncodeBody(s[..i + 1], e) == EncodeBody(s[..i], e) + EncodeByte(s[i], e)
    ensures |EncodeBody(s[..i + 1], e)| + (|s| - i - 1) <= |EncodeBody(s, e)|
  {
    assert s[..i + 1][..i] == s[..i];
    RestOfBody(s, i + 1, e);
  }

  /** Every byte still to come takes at least one place. */
  lemma {:induction false} RestOfBody(s: seq<Byte>, i: nat, e: Byte)
    requires i <= |s|
    ensures |EncodeBody(s[..i], e)| + (|s| - i) <= |EncodeBody(s, e)|
    decreases |s|
  {
    if i == |s| {
      assert s[..i] == s;
    } else {
      assert s[..|s| - 1][..i] == s[..i];
      RestOfBody(s[..|s| - 1], i, e);
    }
  }

  /** One turn of the writing loop: a byte or an escape pair goes to the place j. */
  method WriteByte(b: Byte, e: Byte, out: array<Byte>, at: nat) returns (j: nat)
    requires at + |EncodeByte(b, e)| <= out.Length
    modifies out
    ensures j == at + |EncodeByte(b, e)|
    ensures out[..j] == old(out[..at]) + EncodeByte(b, e)
    ensures out[j..] == old(out[j..])
  {
    j := at;
    var x: Byte := (b - e) % 256;
    if x == 0 || x == 1 || x == QUOTE {
      out[j] := 1;
      j := j + 1;
      x := x + 1;
    }
    out[j] := x;
    j := j + 1;
  }

  /** Writes offset, body and terminator, and leaves the rest of the buffer alone. */
  method WriteBody(input: array<Byte>, n: nat, e: Byte, out: array<Byte>) returns (j: nat)
    requires n <= input.Length && out != input
    requires out.Length >= |EncodeWith(input[..n], e)|
    modifies out
    ensures j == |EncodeWith(input[..n], e)| - 1
    ensures out[..] == EncodeWith(input[..n], e) + old(out[j + 1..])
  {
    hide EncodeBody, EncodeByte;
    ghost var s := input[..n];
    assert EncodeBody(s[..0], e) == [] by { EmptyBody(e); }
    RestOfBody(s, 0, e);
    out[0] := e;
    j := 1;
    for i := 0 to n
      invariant j == 1 + |EncodeBody(s[..i], e)|
      invariant |EncodeBody(s[..i], e)| + (n - i) <= |EncodeBody(s, e)|
      invariant out[..j] == [e] + EncodeBody(s[..i], e)
      invariant out[j..] == old(out[..])[j..]
    {
      BodyGrows(s, i, e);
      j := WriteByte(input[i], e, out, j);
    }
    assert s[..n] == s;
    out[j] := 0;
  }

  lemma EmptyBody(e: Byte)
    ensures EncodeBody([], e) == []
  {
  }

  method EncodeBinary(input: array<Byte>, n: int, out: array?<Byte>) returns (length: int)
    requires n <= input.Length
    requires out != null ==> out != input && out.Length >= 2 + (if n <= 0 then 0 else (257 * n) / 254)
    modifies if out == null then {} else {out}
    ensures var s := if n <= 0 then [] else input[..n];
            && length == |Encoding(s)| - 1
            && (out != null ==> length < out.Length && out[..] == Encoding(s) + old(out[length + 1..]))
  {
    if n <= 0 {
      if out != null {
        out[0] := 'x' as int;
        out[1] := 0;
        assert out[..] == [out[0], out[1]] + out[2..];
      }
      return 1;
    }
    var cnt := Histogram(input, n);
    ghost var s := input[..n];
    var e, m := ChooseOffset(s, n, cnt);
    BodyLength(s, e);
    EncodingFits(s);
    if out == null {
      return n + m + 1;
    }
    hide *;
    var j := WriteBody(input, n, e, out);
    assert j == n + m + 1;
    return j;
  }

  /** Truncation to an `unsigned char`. */
  function Wrap(x: int): Byte {
    x % 256
  }

  /** The bytes one turn of the decoder consumes, and the byte it writes. */
  function Width(c: Byte): nat {
    if c == ESCAPE then 2 else 1
  }

  function Decoded(t: seq<Byte>, at: nat, e: Byte): Byte
    requires at < |t| && at + Width(t[at]) <= |t|
  {
    if t[at] == ESCAPE then Wrap(Wrap(t[at + 1] as int - 1) + e) else Wrap(t[at] as int + e)
  }

  /** The rest of the source decodes to the rest of the result. */
  ghost predicate Pending(source: seq<Byte>, at: nat, e: Byte, result: seq<Byte>, i: nat) {
    at <= |source| && i <= |result| && DecodeBody(source[at..], e) == Some(result[i..])
  }

  /** One turn of the decoder: where it stops, or what it writes next and where it goes on. */
  lemma DecodeTurn(source: seq<Byte>, at: nat, e: Byte, result: seq<Byte>, i: nat)
    requires Pending(source, at, e, result, i)
    ensures at < |source|
    ensures source[at] == 0 ==> i == |result|
    ensures source[at] != 0 ==>
              (var next := at + Width(source[at]);
               && next < |source| && i < |result|
               && result[i] == Decoded(source, at, e)
               && Pending(source, next, e, result, i + 1))
  {
    if at < |source| && source[at] != 0 && at + Width(source[at]) <= |source| {
      assert source[at..][Width(source[at])..] == source[at + Width(source[at])..];
      var rest := DecodeBody(source[at + Width(source[at])..], e);
      assert rest.Some? ==> result[i..] == [Decoded(source, at, e)] + rest.value;
      assert result[i + 1..] == result[i..][1..];
    }
  }

  /**
   Decodes input into out, which may be the same buffer. The buffer must be one that the
   decoder can scan to its terminator.
   */
  method DecodeBinary(input: array<Byte>, out: array<Byte>) returns (i: nat)
    requires Decoding(input[..]).Some?
    requires out.Length >= |Decoding(input[..]).value|
    modifies out
    ensures i == |old(Decoding(input[..]).value)|
    ensures out[..] == old(Decoding(input[..]).value + out[|Decoding(input[..]).value|..])
  {
    ghost var result := Decoding(input[..]).value;
    var e := input[0];
    assert result == result[0..];
    i := DecodeFrom(input, e, out, input[..], result);
  }

  /** The loop of the decoder. It writes strictly behind the place it reads from. */
  method DecodeFrom(input: array<Byte>, e: Byte, out: array<Byte>, ghost source: seq<Byte>, ghost result: seq<Byte>)
    returns (i: nat)
    requires input[..] == source && Pending(source, 1, e, result, 0)
    requires out.Length >= |result|
    modifies out
    ensures i == |result| && out[..] == result + old(out[i..])
  {
    hide DecodeBody, Wrap, Pending;
    DecodeTurn(source, 1, e, result, 0);
    i := 0;
    var at := 1;
    var c := input[at];
    at := at + 1;
    while c != 0
      invariant 0 <= i < at - 1 < input.Length && c == source[at - 1]
      invariant forall k :: at <= k < input.Length ==> input[k] == source[k]
      invariant i <= |result| && Pending(source, at - 1, e, result, i)
      invariant forall k :: 0 <= k < i ==> out[k] == result[k]
      invariant forall k :: i <= k < out.Length ==> out[k] == old(out[k])
      decreases input.Length - at
    {
      DecodeTurn(source, at - 1, e, result, i);
      if c == ESCAPE {
        c := Wrap(input[at] as int - 1);
        at := at + 1;
      }
      out[i] := Wrap(c as int + e);
      i := i + 1;
      DecodeTurn(source, at, e, result, i);
      c := input[at];
      at := at + 1;
    }
    DecodeTurn(source, at - 1, e, result, i);
  }

  /** Encoding into a buffer and decoding that buffer in place brings the input back. */
  method EncodeThenDecodeInPlace(input: array<Byte>, buffer: array<Byte>) returns (n: nat)
    requires buffer != input && buffer.Length >= 2 + (257 * input.Length) / 254
    modifies buffer
    ensures n == input.Length && n <= buffer.Length && buffer[..n] == old(input[..])
  {
    ghost var s := input[..];
    assert input[..input.Length] == s;
    var length := EncodeBinary(input, input.Length, buffer);
    DecodeEncode(s, buffer[length + 1..]);
    assert buffer[..] == Encoding(s) + buffer[length + 1..];
    n := DecodeBinary(buffer, buffer);
  }
}
