/**
 The streaming implementation of SHA-1: a context that takes octets in chunks of any size,
 flushes full blocks, and pads when the digest is asked for.
 */
module Sha1Context {
  import opened Sha1Spec

  /** What a context has absorbed so far. */
  datatype Status =
    | Absorbing(message: seq<Octet>)
    | Finished(message: seq<Octet>)
    | Overflowed(message: seq<Octet>) // corrupted: the bit count reached 2^64
    | Late(message: seq<Octet>)       // corrupted: more was fed after a result
  {
    predicate Corrupted() {
      Overflowed? || Late?
    }
  }

  /** An `unsigned` holds the length of a chunk, so a longer chunk is cut. */
  function Accepted(data: seq<Octet>): (r: seq<Octet>)
    ensures |r| == |data| % 0x1_0000_0000 && r <= data
  {
    data[..|data| % 0x1_0000_0000]
  }

  function AfterInput(st: Status, data: seq<Octet>): Status {
    var chunk := Accepted(data);
    if chunk == [] then st
    else match st
    case Absorbing(m) => Extended(m + chunk)
    case Finished(m) => Late(m)
    case Overflowed(_) => st
    case Late(_) => st
  }

  /** A message is absorbed up to 2^64 bits; reaching them corrupts the context. */
  function Extended(m: seq<Octet>): Status {
    if |m| < MAX_OCTETS then Absorbing(m) else Overflowed(m[..MAX_OCTETS])
  }

  function AfterResult(st: Status): Status {
    if st.Absorbing? then Finished(st.message) else st
  }

  const K0: Word := 0x5A827999
  const K1: Word := 0x6ED9EBA1
  const K2: Word := 0x8F1BBCDC
  const K3: Word := 0xCA62C1D6

  // The circular-shift macro at the three widths in use.

  function CircularShift1(word: Word): (r: Word)
    ensures r == word.RotateLeft(1)
  {
    ((word << 1) & 0xFFFFFFFF) | (word >> 31)
  }

  function CircularShift5(word: Word): (r: Word)
    ensures r == word.RotateLeft(5)
  {
    ((word << 5) & 0xFFFFFFFF) | (word >> 27)
  }

  function CircularShift30(word: Word): (r: Word)
    ensures r == word.RotateLeft(30)
  {
    ((word << 30) & 0xFFFFFFFF) | (word >> 2)
  }

  function NextWord(a: Word, b: Word, c: Word, d: Word): (r: Word)
    ensures r == Mix(a, b, c, d)
  {
    CircularShift1(a ^ b ^ c ^ d)
  }

  // Additions, forced to 32 bits as the source does.

  function MaskedSum(u: Word, v: Word, w: Word, x: Word, y: Word): (temp: Word)
    ensures temp == Sum(u, v, w, x, y)
  {
    (u + v + w + x + y) & 0xFFFFFFFF
  }

  function MaskedAdd(x: Word, y: Word): (r: Word)
    ensures r == Add(x, y)
  {
    (x + y) & 0xFFFFFFFF
  }

  lemma ChoiceStep(t: nat, w: Word, a: Word, b: Word, c: Word, d: Word, e: Word)
    requires t < 20
    ensures Step(t, w, Chain(a, b, c, d, e))
         == Chain(Sum(CircularShift5(a), (b & c) | (!b & d), e, w, K0), a, CircularShift30(b), c, d)
  {
    hide Sum, CircularShift5, CircularShift30;
  }

  lemma ParityStep(t: nat, w: Word, a: Word, b: Word, c: Word, d: Word, e: Word, k: Word)
    requires (20 <= t < 40 && k == K1) || (60 <= t < 80 && k == K3)
    ensures Step(t, w, Chain(a, b, c, d, e))
         == Chain(Sum(CircularShift5(a), b ^ c ^ d, e, w, k), a, CircularShift30(b), c, d)
  {
    hide Sum, CircularShift5, CircularShift30;
  }

  lemma MajorityStep(t: nat, w: Word, a: Word, b: Word, c: Word, d: Word, e: Word)
    requires 40 <= t < 60
    ensures Step(t, w, Chain(a, b, c, d, e))
         == Chain(Sum(CircularShift5(a), (b & c) | (b & d) | (c & d), e, w, K2), a, CircularShift30(b), c, d)
  {
    hide Sum, CircularShift5, CircularShift30;
  }

  /** The octets since the last full block are pending; all before them are folded into the chain. */
  ghost predicate Chained(message: seq<Octet>, pending: seq<Octet>, chain: Chain) {
    var flushed := |message| - |message| % 64;
    pending == message[flushed..] && chain == FoldBlocks(IV, message[..flushed])
  }

  /** The two length words hold eight times n, modulo 2^64. */
  ghost predicate Counted(n: nat, low: nat, high: nat) {
    low == 8 * n % 0x1_0000_0000 && high == (8 * n / 0x1_0000_0000) % 0x1_0000_0000
  }

  lemma NothingChained()
    ensures Chained([], [], IV) && Counted(0, 0, 0)
  {
  }

  lemma PendingLength(message: seq<Octet>, pending: seq<Octet>, chain: Chain)
    requires Chained(message, pending, chain)
    ensures |pending| == |message| % 64
  {
    hide FoldBlocks;
  }

  lemma OctetBuffered(message: seq<Octet>, pending: seq<Octet>, chain: Chain, o: Octet)
    requires Chained(message, pending, chain) && |pending| < 63
    ensures Chained(message + [o], pending + [o], chain)
  {
    hide FoldBlocks;
    var flushed := |message| - |message| % 64;
    assert (message + [o])[..flushed] == message[..flushed];
    assert (message + [o])[flushed..] == pending + [o];
  }

  lemma BlockFlushed(message: seq<Octet>, pending: seq<Octet>, chain: Chain, o: Octet)
    requires Chained(message, pending, chain) && |pending| == 63
    ensures Chained(message + [o], [], Compress(chain, pending + [o]))
  {
    hide FoldBlocks, Compress;
    var flushed := |message| - |message| % 64;
    FoldOneMore(IV, message[..flushed], pending + [o]);
    var longer := message + [o];
    assert longer == message[..flushed] + (pending + [o]);
    assert longer[..|longer|] == longer;
  }

  lemma ZeroCountByIndex(n: nat)
    ensures ZeroCount(n) == if n % 64 <= 55 then 55 - n % 64 else 119 - n % 64
  {
  }

  lemma Regroup(done: seq<Octet>, a: seq<Octet>, b: seq<Octet>, c: seq<Octet>, d: seq<Octet>)
    ensures done + a + b + c + d == done + (a + b + c + d)
  {
  }

  lemma RegroupTwo(done: seq<Octet>, a: seq<Octet>, b: seq<Octet>, c: seq<Octet>, d: seq<Octet>, e: seq<Octet>)
    ensures done + a + b + (c + d) + e == done + (a + b + c) + (d + e)
  {
  }

  /** The padded message, with the octets that are already folded set apart. */
  lemma PadAfterFlushed(message: seq<Octet>, pending: seq<Octet>, chain: Chain) returns (done: seq<Octet>)
    requires Chained(message, pending, chain)
    ensures |pending| == |message| % 64
    ensures |done| % 64 == 0 && chain == FoldBlocks(IV, done)
    ensures Pad(message) == done + pending + [0x80] + Zeros(ZeroCount(|message|)) + BigEndian(8 * |message|, 8)
    ensures ZeroCount(|message|) == if |pending| <= 55 then 55 - |pending| else 119 - |pending|
  {
    hide FoldBlocks, BigEndian;
    var flushed := |message| - |message| % 64;
    done := message[..flushed];
    assert message == done + pending;
    PendingLength(message, pending, chain);
    ZeroCountByIndex(|message|);
  }

  /** The block that holds the pending octets, 0x80, zeros and the length of n octets. */
  function OnlyBlock(pending: seq<Octet>, n: nat): Block
    requires |pending| <= 55
  {
    pending + [0x80] + Zeros(55 - |pending|) + BigEndian(8 * n, 8)
  }

  /** The two blocks that are needed when the length does not fit beside the pending octets. */
  function FirstBlock(pending: seq<Octet>): Block
    requires 55 < |pending| < 64
  {
    pending + [0x80] + Zeros(63 - |pending|)
  }

  function LengthBlock(n: nat): Block {
    Zeros(56) + BigEndian(8 * n, 8)
  }

  lemma PadByOneBlock(message: seq<Octet>, pending: seq<Octet>, chain: Chain) returns (done: seq<Octet>)
    requires Chained(message, pending, chain) && |pending| <= 55
    ensures |done| % 64 == 0 && chain == FoldBlocks(IV, done)
    ensures Pad(message) == done + OnlyBlock(pending, |message|)
  {
    hide FoldBlocks, BigEndian, Zeros, ZeroCount, Pad, Chained;
    done := PadAfterFlushed(message, pending, chain);
    Regroup(done, pending, [0x80], Zeros(55 - |pending|), BigEndian(8 * |message|, 8));
  }

  lemma PadByTwoBlocks(message: seq<Octet>, pending: seq<Octet>, chain: Chain) returns (done: seq<Octet>)
    requires Chained(message, pending, chain) && |pending| > 55
    ensures |pending| < 64
    ensures |done| % 64 == 0 && chain == FoldBlocks(IV, done)
    ensures Pad(message) == done + FirstBlock(pending) + LengthBlock(|message|)
  {
    hide FoldBlocks, BigEndian, ZeroCount, Pad, Chained;
    done := PadAfterFlushed(message, pending, chain);
    assert Zeros(119 - |pending|) == Zeros(63 - |pending|) + Zeros(56);
    hide Zeros;
    RegroupTwo(done, pending, [0x80], Zeros(63 - |pending|), Zeros(56), BigEndian(8 * |message|, 8));
  }

  /** With at most 55 pending octets, the padding completes the current block. */
  lemma PaddedInOneBlock(message: seq<Octet>, pending: seq<Octet>, chain: Chain)
    requires Chained(message, pending, chain) && |pending| <= 55
    ensures Sha1(message) == Compress(chain, OnlyBlock(pending, |message|))
  {
    hide Compress, FoldBlocks, Pad, OnlyBlock, Chained;
    var done := PadByOneBlock(message, pending, chain);
    FoldOneMore(IV, done, OnlyBlock(pending, |message|));
  }

  /** With more, 0x80 and zeros complete the current block, and the length ends one more block. */
  lemma PaddedInTwoBlocks(message: seq<Octet>, pending: seq<Octet>, chain: Chain)
    requires Chained(message, pending, chain) && |pending| > 55
    ensures |pending| < 64
    ensures Sha1(message) == Compress(Compress(chain, FirstBlock(pending)), LengthBlock(|message|))
  {
    hide Compress, FoldBlocks, Pad, FirstBlock, LengthBlock, Chained;
    var done := PadByTwoBlocks(message, pending, chain);
    FoldOneMore(IV, done, FirstBlock(pending));
    FoldOneMore(IV, done + FirstBlock(pending), LengthBlock(|message|));
  }

  lemma LengthIsCounted(n: nat, low: nat, high: nat)
    requires n < MAX_OCTETS && Counted(n, low, high)
    ensures low < 0x1_0000_0000 && high < 0x1_0000_0000
    ensures high * 0x1_0000_0000 + low == 8 * n
  {
  }

  /** Adding eight bits carries into the high word exactly when the low word returns to zero. */
  lemma EightBitsCounted(n: nat, low: nat, high: nat)
    requires n < MAX_OCTETS && Counted(n, low, high)
    ensures var low' := (low + 8) % 0x1_0000_0000;
            var high' := if low' == 0 then (high + 1) % 0x1_0000_0000 else high;
            && Counted(n + 1, low', high')
            && (low' == 0 && high' == 0 <==> n + 1 == MAX_OCTETS)
  {
    CountEightBits(n);
  }

  class Context {
    const digest: array<Word>
    const block: array<Octet>
    var lengthLow: nat
    var lengthHigh: nat
    var index: nat
    var computed: bool
    var corrupted: bool
    ghost var message: seq<Octet>

    constructor ()
      ensures fresh(digest) && fresh(block)
      ensures Shaped()
    {
      digest := new Word[5];
      block := new Octet[64];
      lengthLow, lengthHigh, index := *, *, *;
      computed, corrupted := *, *;
      message := *;
    }

    ghost predicate Shaped()
    {
      digest.Length == 5 && block.Length == 64
    }

    ghost function Chaining(): Chain
      requires Shaped()
      reads digest
    {
      Chain(digest[0], digest[1], digest[2], digest[3], digest[4])
    }

    ghost function Status(): Status
      reads this
    {
      if computed then (if corrupted then Late(message) else Finished(message))
      else (if corrupted then Overflowed(message) else Absorbing(message))
    }

    /** The fields agree with the octets absorbed since the last reset. */
    ghost predicate Buffered()
      requires Shaped()
      reads this, digest, block
    {
      && index < 64
      && Chained(message, block[..index], Chaining())
      && Counted(|message|, lengthLow, lengthHigh)
    }

    ghost predicate Valid()
      reads this, digest, block
    {
      && Shaped()
      && (Status().Absorbing? ==> |message| < MAX_OCTETS && Buffered())
      && (Status().Overflowed? ==> |message| == MAX_OCTETS && Chained(message, [], Chaining()))
      && (computed ==> |message| < MAX_OCTETS && Chaining() == Sha1(message))
    }

    method Reset()
      requires Shaped()
      modifies this, digest
      ensures Valid() && Status() == Absorbing([])
    {
      hide Chained, Counted, Sha1;
      NothingChained();
      lengthLow := 0;
      lengthHigh := 0;
      index := 0;
      digest[0] := 0x67452301;
      digest[1] := 0xEFCDAB89;
      digest[2] := 0x98BADCFE;
      digest[3] := 0x10325476;
      digest[4] := 0xC3D2E1F0;
      computed := false;
      corrupted := false;
      message := [];
      assert block[..index] == [];
    }

    /** Rounds 0 to 19. */
    static method ChoiceRounds(w: array<Word>, a0: Word, b0: Word, c0: Word, d0: Word, e0: Word,
        ghost m: Block, ghost h: Chain)
      returns (a: Word, b: Word, c: Word, d: Word, e: Word)
      requires w.Length == 80 && forall t :: 0 <= t < 80 ==> w[t] == Schedule(m, t)
      requires Chain(a0, b0, c0, d0, e0) == Rounds(m, h, 0)
      ensures Chain(a, b, c, d, e) == Rounds(m, h, 20)
    {
      hide Sum, MaskedSum, Step, Schedule, F, K, CircularShift5, CircularShift30;
      a, b, c, d, e := a0, b0, c0, d0, e0;
      for t := 0 to 20
        invariant Chain(a, b, c, d, e) == Rounds(m, h, t)
      {
        ChoiceStep(t, w[t], a, b, c, d, e);
        var temp := MaskedSum(CircularShift5(a), (b & c) | (!b & d), e, w[t], K0);
        e := d;
        d := c;
        c := CircularShift30(b);
        b := a;
        a := temp;
      }
    }

    /** Rounds 20 to 39, or 60 to 79: the two loops differ in their constant only. */
    static method ParityRounds(w: array<Word>, a0: Word, b0: Word, c0: Word, d0: Word, e0: Word,
        start: nat, k: Word, ghost m: Block, ghost h: Chain)
      returns (a: Word, b: Word, c: Word, d: Word, e: Word)
      requires w.Length == 80 && forall t :: 0 <= t < 80 ==> w[t] == Schedule(m, t)
      requires (start == 20 && k == K1) || (start == 60 && k == K3)
      requires Chain(a0, b0, c0, d0, e0) == Rounds(m, h, start)
      ensures Chain(a, b, c, d, e) == Rounds(m, h, start + 20)
    {
      hide Sum, MaskedSum, Step, Schedule, F, K, CircularShift5, CircularShift30;
      a, b, c, d, e := a0, b0, c0, d0, e0;
      for t := start to start + 20
        invariant Chain(a, b, c, d, e) == Rounds(m, h, t)
      {
        ParityStep(t, w[t], a, b, c, d, e, k);
        var temp := MaskedSum(CircularShift5(a), b ^ c ^ d, e, w[t], k);
        e := d;
        d := c;
        c := CircularShift30(b);
        b := a;
        a := temp;
      }
    }

    /** Rounds 40 to 59. */
    static method MajorityRounds(w: array<Word>, a0: Word, b0: Word, c0: Word, d0: Word, e0: Word,
        ghost m: Block, ghost h: Chain)
      returns (a: Word, b: Word, c: Word, d: Word, e: Word)
      requires w.Length == 80 && forall t :: 0 <= t < 80 ==> w[t] == Schedule(m, t)
      requires Chain(a0, b0, c0, d0, e0) == Rounds(m, h, 40)
      ensures Chain(a, b, c, d, e) == Rounds(m, h, 60)
    {
      hide Sum, MaskedSum, Step, Schedule, F, K, CircularShift5, CircularShift30;
      a, b, c, d, e := a0, b0, c0, d0, e0;
      for t := 40 to 60
        invariant Chain(a, b, c, d, e) == Rounds(m, h, t)
      {
        MajorityStep(t, w[t], a, b, c, d, e);
        var temp := MaskedSum(CircularShift5(a), (b & c) | (b & d) | (c & d), e, w[t], K2);
        e := d;
        d := c;
        c := CircularShift30(b);
        b := a;
        a := temp;
      }
    }

    method AddToDigest(a: Word, b: Word, c: Word, d: Word, e: Word)
      requires Shaped()
      modifies digest
      ensures Chaining() == AddChains(old(Chaining()), Chain(a, b, c, d, e))
    {
      hide Add, MaskedAdd;
      digest[0] := MaskedAdd(digest[0], a);
      digest[1] := MaskedAdd(digest[1], b);
      digest[2] := MaskedAdd(digest[2], c);
      digest[3] := MaskedAdd(digest[3], d);
      digest[4] := MaskedAdd(digest[4], e);
    }

    method ProcessMessageBlock()
      requires Shaped()
      modifies this`index, digest
      ensures index == 0
      ensures Chaining() == Compress(old(Chaining()), old(block[..]))
    {
      assert Rounds(block[..], Chaining(), 0) == Chaining();
      hide Rounds, Schedule, AddChains;
      ghost var h: Chain, m: Block := Chaining(), block[..];
      var w := ExpandSchedule();
      var a, b, c, d, e := digest[0], digest[1], digest[2], digest[3], digest[4];
      a, b, c, d, e := ChoiceRounds(w, a, b, c, d, e, m, h);
      a, b, c, d, e := ParityRounds(w, a, b, c, d, e, 20, K1, m, h);
      a, b, c, d, e := MajorityRounds(w, a, b, c, d, e, m, h);
      a, b, c, d, e := ParityRounds(w, a, b, c, d, e, 60, K3, m, h);
      AddToDigest(a, b, c, d, e);
      index := 0;
    }

    static method AssembleWord(o0: Octet, o1: Octet, o2: Octet, o3: Octet) returns (w: Word)
      ensures w == WordOf(o0, o1, o2, o3)
    {
      w := (o0 as Word) << 24;
      w := w | ((o1 as Word) << 16);
      w := w | ((o2 as Word) << 8);
      w := w | (o3 as Word);
    }

    /** The first two loops of the block function: the 80-word schedule array. */
    method ExpandSchedule() returns (w: array<Word>)
      requires Shaped()
      ensures fresh(w) && w.Length == 80
      ensures forall t :: 0 <= t < 80 ==> w[t] == Schedule(block[..], t)
    {
      hide WordOf, Mix, NextWord;
      ghost var m: Block := block[..];
      w := new Word[80];
      for t := 0 to 16
        invariant forall u :: 0 <= u < t ==> w[u] == Schedule(m, u)
      {
        w[t] := AssembleWord(block[t * 4], block[t * 4 + 1], block[t * 4 + 2], block[t * 4 + 3]);
      }
      for t := 16 to 80
        invariant forall u :: 0 <= u < t ==> w[u] == Schedule(m, u)
      {
        w[t] := NextWord(w[t - 3], w[t - 8], w[t - 14], w[t - 16]);
      }
    }

    method Input(data: seq<Octet>)
      requires Valid()
      modifies this, digest, block
      ensures Valid() && Status() == AfterInput(old(Status()), data)
      ensures Accepted(data) == [] ==> unchanged(this) && unchanged(digest) && unchanged(block)
    {
      hide Chained, Counted, Sha1;
      var length := |data| % 0x1_0000_0000;
      if length == 0 {
        return;
      }
      if computed || corrupted {
        corrupted := true;
        return;
      }
      ghost var before := message;
      var next := 0;
      while length != 0 && !corrupted
        invariant 0 <= next && 0 <= length && next + length == |data| % 0x1_0000_0000 <= |data|
        invariant Valid() && !computed
        invariant message == before + Accepted(data)[..next]
        invariant corrupted <==> |message| == MAX_OCTETS
        decreases length
      {
        length := length - 1;
        InputOctet(data[next]);
        next := next + 1;
      }
      assert (before + Accepted(data))[..|before| + next] == message;
    }

    /** Stores an octet at the index and advances it. */
    method AppendOctet(o: Octet)
      requires Shaped() && index < 64
      modifies this`index, block
      ensures index == old(index) + 1
      ensures block[..index] == old(block[..index]) + [o]
    {
      block[index] := o;
      index := index + 1;
    }

    /** One turn of the input loop: buffer the octet, count its bits, flush a full block. */
    method InputOctet(o: Octet)
      requires Valid() && Status().Absorbing?
      modifies this, digest, block
      ensures Valid() && !computed && message == old(message) + [o]
      ensures corrupted <==> |message| == MAX_OCTETS
    {
      hide Chained, Counted, Compress, Sha1;
      ghost var pending, chain := block[..index], Chaining();
      EightBitsCounted(|message|, lengthLow, lengthHigh);
      PendingLength(message, pending, chain);
      AppendOctet(o);
      lengthLow := (lengthLow + 8) % 0x1_0000_0000;
      if lengthLow == 0 {
        lengthHigh := (lengthHigh + 1) % 0x1_0000_0000;
        if lengthHigh == 0 {
          corrupted := true;
        }
      }
      if index == 64 {
        assert block[..] == pending + [o];
        BlockFlushed(message, pending, chain, o);
        ProcessMessageBlock();
        assert block[..index] == [];
      } else {
        OctetBuffered(message, pending, chain, o);
      }
      message := message + [o];
    }

    /** The loop that appends zero octets up to a limit; it occurs three times in the source. */
    method ZeroFill(limit: nat)
      requires Shaped() && index <= limit <= 64
      modifies this`index, block
      ensures index == limit
      ensures block[..limit] == old(block[..index]) + Zeros(limit - old(index))
    {
      ghost var start := index;
      while index < limit
        invariant start <= index <= limit
        invariant block[..index] == old(block[..index]) + Zeros(index - start)
      {
        AppendOctet(0);
      }
    }

    method PadMessage()
      requires Valid() && Status().Absorbing?
      modifies this`index, digest, block
      ensures index == 0
      ensures Chaining() == Sha1(message)
    {
      hide Chained, Counted, Compress, Sha1, BigEndian;
      ghost var pending, chain, n := block[..index], Chaining(), |message|;
      PendingLength(message, pending, chain);
      LengthIsCounted(n, lengthLow, lengthHigh);
      if index > 55 {
        AppendOctet(0x80);
        ZeroFill(64);
        assert block[..] == block[..64] == FirstBlock(pending);
        PaddedInTwoBlocks(message, pending, chain);
        ProcessMessageBlock();
        assert block[..index] == [];
        ZeroFill(56);
        assert block[..56] + BigEndian(8 * n, 8) == LengthBlock(n);
      } else {
        AppendOctet(0x80);
        ZeroFill(56);
        PaddedInOneBlock(message, pending, chain);
        assert block[..56] + BigEndian(8 * n, 8) == OnlyBlock(pending, n);
      }
      hide FirstBlock, LengthBlock, OnlyBlock, Zeros;
      StoreLength();
      ProcessMessageBlock();
    }

    /** The message length as the last eight octets. */
    method StoreLength()
      requires Shaped() && lengthLow < 0x1_0000_0000 && lengthHigh < 0x1_0000_0000
      modifies block
      ensures block[..] == old(block[..56]) + BigEndian(lengthHigh * 0x1_0000_0000 + lengthLow, 8)
    {
      hide OctetOf, BigEndian;
      StoreLengthWord(56, lengthHigh);
      StoreLengthWord(60, lengthLow);
      LengthInTwoWords(lengthHigh, lengthLow);
      assert block[..] == block[..64];
    }

    method StoreLengthWord(at: nat, word: nat)
      requires Shaped() && at + 4 <= 64
      modifies block
      ensures block[..at + 4] == old(block[..at])
           + [OctetOf(word / 0x1000000), OctetOf(word / 0x10000), OctetOf(word / 0x100), OctetOf(word)]
    {
      hide OctetOf;
      block[at] := OctetOf(word / 0x1000000);
      block[at + 1] := OctetOf(word / 0x10000);
      block[at + 2] := OctetOf(word / 0x100);
      block[at + 3] := OctetOf(word);
    }

    method Result() returns (ok: bool)
      requires Valid()
      modifies this`index, this`computed, digest, block
      ensures Valid() && Status() == AfterResult(old(Status()))
      ensures ok <==> !Status().Corrupted()
      ensures !old(Status()).Absorbing? ==> unchanged(this) && unchanged(digest) && unchanged(block)
    {
      if corrupted {
        return false;
      }
      if !computed {
        PadMessage();
        computed := true;
      }
      return true;
    }

    /** Writes the digest as octets into a string of length 20, and nothing into any other. */
    method GetDigest(output: array<Octet>)
      requires Shaped() && output != block
      modifies output
      ensures if output.Length == 20 then output[..] == DigestOctets(Chaining()) else unchanged(output)
    {
      if output.Length != 20 {
        return;
      }
      hide WordOctets;
      StoreWord(output, 0, digest[0]);
      StoreWord(output, 4, digest[1]);
      StoreWord(output, 8, digest[2]);
      StoreWord(output, 12, digest[3]);
      StoreWord(output, 16, digest[4]);
      assert output[..] == output[..20];
    }

    static method StoreWord(output: array<Octet>, at: nat, word: Word)
      requires at + 4 <= output.Length
      modifies output
      ensures output[..at + 4] == old(output[..at]) + WordOctets(word)
    {
      output[at] := ((word >> 24) & 0xFF) as Octet;
      output[at + 1] := ((word >> 16) & 0xFF) as Octet;
      output[at + 2] := ((word >> 8) & 0xFF) as Octet;
      output[at + 3] := (word & 0xFF) as Octet;
    }
  }

  /** Adding eight bits carries from the low to the high word exactly at multiples of 2^32. */
  lemma CountEightBits(n: nat)
    requires n < MAX_OCTETS
    ensures (8 * n % 0x1_0000_0000 + 8) % 0x1_0000_0000 == 8 * (n + 1) % 0x1_0000_0000
    ensures 8 * (n + 1) % 0x1_0000_0000 != 0 ==> 8 * (n + 1) / 0x1_0000_0000 == 8 * n / 0x1_0000_0000
    ensures 8 * (n + 1) % 0x1_0000_0000 == 0 ==> 8 * (n + 1) / 0x1_0000_0000 == 8 * n / 0x1_0000_0000 + 1
    ensures 8 * n / 0x1_0000_0000 < 0x1_0000_0000
    ensures n + 1 < MAX_OCTETS <==> 8 * (n + 1) / 0x1_0000_0000 < 0x1_0000_0000
  {
  }

  lemma SameOctet(x: int, y: int)
    requires x % 256 == y % 256
    ensures OctetOf(x) == OctetOf(y)
  {
  }

  lemma BigEndianWord(n: nat, k: nat)
    ensures BigEndian(n, k + 4) == BigEndian(n / 0x1_0000_0000, k)
         + [OctetOf(n / 0x1000000), OctetOf(n / 0x10000), OctetOf(n / 0x100), OctetOf(n)]
  {
    hide OctetOf;
    assert BigEndian(n, k + 4) == BigEndian(n / 0x100, k + 3) + [OctetOf(n)];
    assert BigEndian(n / 0x100, k + 3) == BigEndian(n / 0x10000, k + 2) + [OctetOf(n / 0x100)];
    assert BigEndian(n / 0x10000, k + 2) == BigEndian(n / 0x1000000, k + 1) + [OctetOf(n / 0x10000)];
    assert BigEndian(n / 0x1000000, k + 1) == BigEndian(n / 0x1_0000_0000, k) + [OctetOf(n / 0x1000000)];
  }

  lemma LengthInTwoWords(high: nat, low: nat)
    requires high < 0x1_0000_0000 && low < 0x1_0000_0000
    ensures BigEndian(high * 0x1_0000_0000 + low, 8)
         == [OctetOf(high / 0x1000000), OctetOf(high / 0x10000), OctetOf(high / 0x100), OctetOf(high),
             OctetOf(low / 0x1000000), OctetOf(low / 0x10000), OctetOf(low / 0x100), OctetOf(low)]
  {
    hide OctetOf, BigEndian;
    assert high / 0x1_0000_0000 == 0;
    var n := high * 0x1_0000_0000 + low;
    BigEndianWord(n, 4);
    BigEndianWord(high, 0);
    LowWordOctets(high, low);
    SameOctet(n / 0x1000000, low / 0x1000000);
    SameOctet(n / 0x10000, low / 0x10000);
    SameOctet(n / 0x100, low / 0x100);
    SameOctet(n, low);
  }

  lemma LowWordOctets(high: nat, low: nat)
    requires low < 0x1_0000_0000
    ensures var n := high * 0x1_0000_0000 + low;
            && n / 0x1_0000_0000 == high
            && (n / 0x1000000) % 256 == (low / 0x1000000) % 256
            && (n / 0x10000) % 256 == (low / 0x10000) % 256
            && (n / 0x100) % 256 == (low / 0x100) % 256
            && n % 256 == low % 256
  {
    var n := high * 0x1_0000_0000 + low;
    assert n / 0x1000000 == high * 0x100 + low / 0x1000000;
    assert n / 0x10000 == high * 0x10000 + low / 0x10000;
    assert n / 0x100 == high * 0x1000000 + low / 0x100;
    DropHighOctets(high, low / 0x1000000);
    DropHighOctets(high * 0x100, low / 0x10000);
    DropHighOctets(high * 0x10000, low / 0x100);
    DropHighOctets(high * 0x1000000, low);
  }

  lemma DropHighOctets(high: nat, low: nat)
    ensures (high * 0x100 + low) % 256 == low % 256
  {
  }
}
