/** A run that completes the download: one pass over the content, block by block. */
module Completion {
  import opened Bytes
  import opened Blocks
  import opened PieceManagers
  import opened Disk
  import opened PieceStore
  import opened Downloads
  import opened Safety
  import opened Convergence

  const SEEDER: PeerIp := [0, 0, 0, 0, 0, 0]

  /** The delivery of the block at offset o of piece i, taken from the content. */
  function BlockStep(c: Config, content: seq<byte>, i: u32, o: u32): (Action, Env)
    requires o < c.pieceLength && At(c.disk, i) + BlockEnd(c, o) <= |content|
  {
    var block := content[At(c.disk, i) + o..At(c.disk, i) + BlockEnd(c, o)];
    (Deliver(ReceivedPiece(i, o, block), SEEDER), Env(0, 0, Works, []))
  }

  /** The blocks of piece i from offset o on, as far as the content reaches. */
  function BlockSteps(c: Config, content: seq<byte>, i: u32, o: nat): seq<(Action, Env)>
    requires 0 < c.blockSize && c.pieceLength < U32_RANGE
    decreases c.pieceLength - o
  {
    if c.pieceLength <= o || |content| < At(c.disk, i) + BlockEnd(c, o) then []
    else [BlockStep(c, content, i, o)] + BlockSteps(c, content, i, o + c.blockSize)
  }

  /** The blocks of the first n pieces. */
  function PieceSteps(c: Config, content: seq<byte>, n: nat): seq<(Action, Env)>
    requires 0 < c.blockSize && c.pieceLength < U32_RANGE && n <= U32_RANGE
  {
    if n == 0 then [] else PieceSteps(c, content, n - 1) + BlockSteps(c, content, n - 1, 0)
  }

  ghost predicate AllWritesWork(steps: seq<(Action, Env)>) {
    forall k :: 0 <= k < |steps| ==> steps[k].1.io.Works?
  }

  /** An honest block from the wire, written without failure, with no peer registered. */
  ghost predicate Plain(c: Config, content: seq<byte>, step: (Action, Env))
    requires 0 < c.blockSize
  {
    && step.0.Deliver? && step.0.event.ReceivedPiece?
    && FromWire(step.0) && HonestAction(c, content, step.0)
    && step.1.io.Works? && step.1.order == []
  }

  ghost predicate AllPlain(c: Config, content: seq<byte>, steps: seq<(Action, Env)>)
    requires 0 < c.blockSize
  {
    forall k :: 0 <= k < |steps| ==> Plain(c, content, steps[k])
  }

  lemma {:induction false} BlockStepsArePlain(c: Config, content: seq<byte>, i: u32, o: nat)
    requires 0 < c.blockSize && c.pieceLength < U32_RANGE
    ensures AllPlain(c, content, BlockSteps(c, content, i, o))
    decreases c.pieceLength - o
  {
    if o < c.pieceLength && At(c.disk, i) + BlockEnd(c, o) <= |content| {
      BlockStepsArePlain(c, content, i, o + c.blockSize);
      assert Plain(c, content, BlockStep(c, content, i, o));
    }
  }

  lemma {:induction false} PieceStepsArePlain(c: Config, content: seq<byte>, n: nat)
    requires 0 < c.blockSize && c.pieceLength < U32_RANGE && n <= U32_RANGE
    ensures AllPlain(c, content, PieceSteps(c, content, n))
  {
    if n > 0 {
      PieceStepsArePlain(c, content, n - 1);
      BlockStepsArePlain(c, content, n - 1, 0);
    }
  }

  lemma {:induction false} BlockIsAmong(c: Config, content: seq<byte>, i: u32, from: nat, o: nat) returns (k: nat)
    requires 0 < c.blockSize && c.pieceLength < U32_RANGE
    requires Aligned(from, c.blockSize) && from <= o && BlockStart(c, o)
    requires At(c.disk, i) + BlockEnd(c, o) <= |content|
    ensures k < |BlockSteps(c, content, i, from)| && Brings(c, BlockSteps(c, content, i, from)[k].0, i, o)
    decreases c.pieceLength - from
  {
    if from == o {
      k := 0;
    } else {
      AlignedAreApart(from, o, c.blockSize);
      k := BlockIsAmong(c, content, i, from + c.blockSize, o);
      k := k + 1;
    }
  }

  lemma {:induction false} PieceIsAmong(c: Config, content: seq<byte>, n: nat, i: u32, o: nat) returns (k: nat)
    requires 0 < c.blockSize && c.pieceLength < U32_RANGE && i < n <= U32_RANGE && BlockStart(c, o)
    requires At(c.disk, i) + BlockEnd(c, o) <= |content|
    ensures k < |PieceSteps(c, content, n)| && Brings(c, PieceSteps(c, content, n)[k].0, i, o)
  {
    if i == n - 1 {
      k := BlockIsAmong(c, content, i, 0, o);
      k := |PieceSteps(c, content, n - 1)| + k;
    } else {
      k := PieceIsAmong(c, content, n - 1, i, o);
    }
  }

  lemma BlocksKeepPeers(c: Config, s: State, action: Action, env: Env)
    requires WellFormed(c, s) && action.Deliver? && action.event.ReceivedPiece?
    ensures Step(c, s, action, env).peers == s.peers
  {
    BlockStepIs(c, s, action, env);
  }

  /** Deliveries without a registered peer are a run, whatever the blocks. */
  lemma {:induction false} PlainStepsAreRun(c: Config, content: seq<byte>, s: State, steps: seq<(Action, Env)>)
    requires 0 < c.blockSize && WellFormed(c, s) && s.peers == map[] && AllPlain(c, content, steps)
    ensures IsRun(c, s, steps) && After(c, s, steps).peers == map[]
    decreases |steps|
  {
    if steps != [] {
      var before, last := steps[..|steps| - 1], steps[|steps| - 1];
      assert last == steps[|steps| - 1];
      PlainStepsAreRun(c, content, s, before);
      BlocksKeepPeers(c, After(c, s, before), last.0, last.1);
    }
  }

  ghost predicate IsHonestRun(c: Config, content: seq<byte>, disk: Option<Files>, steps: seq<(Action, Env)>)
    requires Proper(c) && WellFormed(c, Initial(c, disk))
  {
    AllFromWire(steps) && AllHonest(c, content, steps) && IsRun(c, Initial(c, disk), steps)
  }

  /** The hypotheses of the convergence theorems can be met, for every content and disk. */
  lemma FullPassExists(c: Config, content: seq<byte>, disk: Option<Files>) returns (steps: seq<(Action, Env)>)
    requires Proper(c) && WellFormed(c, Initial(c, disk))
    ensures IsHonestRun(c, content, disk, steps) && AllBrought(c, content, steps) && AllWritesWork(steps)
  {
    steps := PieceSteps(c, content, |c.hashes|);
    PieceStepsArePlain(c, content, |c.hashes|);
    PlainStepsAreRun(c, content, Initial(c, disk), steps);
    forall i: u32, o: nat | i < |c.hashes| && BlockStart(c, o) && At(c.disk, i) + BlockEnd(c, o) <= |content|
      ensures exists k :: 0 <= k < |steps| && Brings(c, steps[k].0, i, o)
    {
      var k := PieceIsAmong(c, content, |c.hashes|, i, o);
    }
  }

  lemma CompletedContentIsWhole(c: Config, content: seq<byte>, disk: Option<Files>, steps: seq<(Action, Env)>)
    requires Proper(c) && Describes(c, content) && WellFormed(c, Initial(c, disk))
    requires IsHonestRun(c, content, disk, steps) && AllComplete(After(c, Initial(c, disk), steps).pieces)
    ensures |content| == At(c.disk, |c.hashes|)
  {
    InitiallyFaithful(c, content, disk);
    HonestRunsLoseNothing(c, content, Initial(c, disk), steps);
    CompleteLastPieceIsFull(c, content, After(c, Initial(c, disk), steps).pieces);
  }

  /** Some run among honest peers completes the download exactly when the content is a whole number of pieces. */
  lemma CompletableExactly(c: Config, content: seq<byte>, disk: Option<Files>)
    requires Proper(c) && Describes(c, content) && WellFormed(c, Initial(c, disk))
    ensures (exists steps :: IsHonestRun(c, content, disk, steps) && AllComplete(After(c, Initial(c, disk), steps).pieces))
      <==> |content| == At(c.disk, |c.hashes|)
  {
    if steps :| IsHonestRun(c, content, disk, steps) && AllComplete(After(c, Initial(c, disk), steps).pieces) {
      CompletedContentIsWhole(c, content, disk, steps);
    } else {
      var steps := FullPassExists(c, content, disk);
      DownloadConverges(c, content, disk, steps);
    }
  }
}
