/**
 Whole runs of a SHA-1 context: any sequence of inputs and results, and the driver that hashes
 a port in buffers of up to 1024 octets.
 */
module Sha1Runs {
  import opened Sha1Spec
  import opened Sha1Context

  datatype Operation = Feed(data: seq<Octet>) | Finish

  function Apply(st: Status, op: Operation): Status {
    match op
    case Feed(data) => AfterInput(st, data)
    case Finish => AfterResult(st)
  }

  function Run(st: Status, ops: seq<Operation>): Status
    decreases |ops|
  {
    if ops == [] then st else Run(Apply(st, ops[0]), ops[1..])
  }

  /** Everything fed before the first result is asked for. */
  function Fed(ops: seq<Operation>): seq<Octet> {
    if ops == [] || ops[0].Finish? then [] else Accepted(ops[0].data) + Fed(ops[1..])
  }

  /** The operations from the first result on. */
  function FromFinish(ops: seq<Operation>): (r: seq<Operation>)
    ensures r != [] ==> r[0].Finish?
  {
    if ops == [] || ops[0].Finish? then ops else FromFinish(ops[1..])
  }

  predicate FeedsNothing(ops: seq<Operation>) {
    forall k :: 0 <= k < |ops| && ops[k].Feed? ==> Accepted(ops[k].data) == []
  }

  lemma {:induction false} CorruptionStays(st: Status, ops: seq<Operation>)
    requires st.Corrupted()
    ensures Run(st, ops) == st
  {
    if ops != [] {
      CorruptionStays(st, ops[1..]);
    }
  }

  lemma {:induction false} RunAfterFinish(m: seq<Octet>, ops: seq<Operation>)
    ensures Run(Finished(m), ops) == if FeedsNothing(ops) then Finished(m) else Late(m)
  {
    if ops != [] {
      CorruptionStays(Late(m), ops[1..]);
      RunAfterFinish(m, ops[1..]);
      assert forall k :: 1 <= k < |ops| ==> ops[k] == ops[1..][k - 1];
    }
  }

  /** The status of a context that was fed m, and then went through the operations from a result on. */
  function Closed(m: seq<Octet>, rest: seq<Operation>): Status {
    if |m| >= MAX_OCTETS || rest == [] then Extended(m)
    else if FeedsNothing(rest) then Finished(m)
    else Late(m)
  }

  lemma {:induction false} RunFrom(m: seq<Octet>, ops: seq<Operation>)
    requires |m| < MAX_OCTETS
    ensures Run(Absorbing(m), ops) == Closed(m + Fed(ops), FromFinish(ops))
    decreases |ops|
  {
    if ops == [] {
      assert m + [] == m;
    } else if ops[0].Finish? {
      assert m + [] == m;
      RunAfterFinish(m, ops[1..]);
      assert forall k :: 1 <= k < |ops| ==> ops[k] == ops[1..][k - 1];
    } else {
      var chunk := Accepted(ops[0].data);
      assert m + Fed(ops) == (m + chunk) + Fed(ops[1..]);
      assert m + [] == m;
      if |m| + |chunk| < MAX_OCTETS {
        RunFrom(m + chunk, ops[1..]);
      } else {
        CorruptionStays(Extended(m + chunk), ops[1..]);
        assert (m + Fed(ops))[..MAX_OCTETS] == (m + chunk)[..MAX_OCTETS];
      }
    }
  }

  /**
   Every run from a reset context, described by what was fed and whether more was fed after a
   result: a digest is available exactly when fewer than 2^64 bits were fed and none too late.
   */
  lemma RunFromReset(ops: seq<Operation>)
    ensures Run(Absorbing([]), ops) == Closed(Fed(ops), FromFinish(ops))
    ensures Run(Absorbing([]), ops).Corrupted()
       <==> |Fed(ops)| >= MAX_OCTETS || !FeedsNothing(FromFinish(ops))
  {
    RunFrom([], ops);
    assert [] + Fed(ops) == Fed(ops);
  }

  // ---------- the way a message is cut does not matter ----------

  function Concat(chunks: seq<seq<Octet>>): seq<Octet> {
    if chunks == [] then [] else chunks[0] + Concat(chunks[1..])
  }

  function FeedAll(chunks: seq<seq<Octet>>): (r: seq<Operation>)
    ensures |r| == |chunks|
  {
    seq(|chunks|, i requires 0 <= i < |chunks| => Feed(chunks[i]))
  }

  lemma {:induction false} FedIsConcat(chunks: seq<seq<Octet>>)
    requires forall k :: 0 <= k < |chunks| ==> |chunks[k]| < 0x1_0000_0000
    ensures Fed(FeedAll(chunks) + [Finish]) == Concat(chunks)
    ensures FromFinish(FeedAll(chunks) + [Finish]) == [Finish]
  {
    var ops := FeedAll(chunks) + [Finish];
    if chunks == [] {
      assert ops == [Finish];
    } else {
      assert ops[1..] == FeedAll(chunks[1..]) + [Finish];
      FedIsConcat(chunks[1..]);
    }
  }

  /** Any cutting of a message into chunks, followed by a result, finishes on the whole message. */
  lemma AnyCutting(message: seq<Octet>, chunks: seq<seq<Octet>>)
    requires |message| < MAX_OCTETS
    requires forall k :: 0 <= k < |chunks| ==> |chunks[k]| < 0x1_0000_0000
    requires Concat(chunks) == message
    ensures Run(Absorbing([]), FeedAll(chunks) + [Finish]) == Finished(message)
  {
    FedIsConcat(chunks);
    RunFromReset(FeedAll(chunks) + [Finish]);
  }

  // ---------- the driver ----------

  /** Carries out a run on a real context. */
  method Drive(c: Context, ops: seq<Operation>)
    requires c.Valid()
    modifies c, c.digest, c.block
    ensures c.Valid() && c.Status() == Run(old(c.Status()), ops)
  {
    for i := 0 to |ops|
      invariant c.Valid()
      invariant Run(c.Status(), ops[i..]) == Run(old(c.Status()), ops)
    {
      assert ops[i..][1..] == ops[i + 1..];
      match ops[i]
      case Feed(data) =>
        c.Input(data);
      case Finish =>
        var _ := c.Result();
    }
  }

  /** What the digest words hold when a message has been fed and a result asked for. */
  function FinalChain(m: seq<Octet>): Chain {
    if |m| < MAX_OCTETS then Sha1(m) else FoldBlocks(IV, m[..MAX_OCTETS])
  }

  lemma ChainWhenClosed(c: Context, m: seq<Octet>)
    requires c.Valid() && c.Status() == Closed(m, [Finish])
    ensures c.Chaining() == FinalChain(m)
  {
    hide Sha1, FoldBlocks;
    assert FeedsNothing([Finish]);
    if |m| >= MAX_OCTETS {
      WholeMessage(m[..MAX_OCTETS], c.Chaining());
    }
  }

  lemma WholeMessage(m: seq<Octet>, chain: Chain)
    requires |m| == MAX_OCTETS && Chained(m, [], chain)
    ensures chain == FoldBlocks(IV, m)
  {
    hide FoldBlocks;
    assert m[..|m|] == m;
  }

  /**
   Hashes what a port delivers, in reads of up to 1024 octets. From 2^64 bits on the result is
   refused, which this driver does not notice: it takes the chain after the first 2^61 octets.
   */
  method HashPort(buffers: seq<seq<Octet>>) returns (output: array<Octet>)
    requires forall k :: 0 <= k < |buffers| ==> |buffers[k]| <= 1024
    ensures output.Length == 20
    ensures output[..] == DigestOctets(FinalChain(Concat(buffers)))
  {
    ghost var ops := FeedAll(buffers) + [Finish];
    hide Sha1, DigestOctets, FinalChain, Closed, AfterInput, Chained, Counted, Fed, FromFinish;
    var c := new Context();
    output := new Octet[20];
    c.Reset();
    assert ops[0..] == ops;
    for i := 0 to |buffers|
      invariant c.Valid() && fresh(c) && fresh(c.digest) && fresh(c.block) && c.block != output
      invariant Run(c.Status(), ops[i..]) == Run(Absorbing([]), ops)
    {
      assert ops[i] == Feed(buffers[i]) && ops[i..][1..] == ops[i + 1..];
      c.Input(buffers[i]);
    }
    assert ops[|buffers|..] == [Finish] && [Finish][1..] == [];
    var _ := c.Result();
    FedIsConcat(buffers);
    RunFromReset(ops);
    ChainWhenClosed(c, Concat(buffers));
    c.GetDigest(output);
  }
}
