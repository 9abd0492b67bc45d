/**
 * The download manager as a state machine (src/core/peer/download_manager.rs): one step for each
 * event. Everything the program does not decide itself, such as the clock, the iteration order of
 * a hash map or the fate of a disk write, is the environment's part of the step.
 */
module Downloads {
  import opened Bytes
  import opened Blocks
  import opened Pieces
  import opened PieceManagers
  import opened Bitfields
  import opened Disk
  import opened PieceStore

  /** Events of a peer connection (src/core/peer/peer_connection.rs); a rate carries no number here. */
  datatype PeerEvent =
    | PeerChoked
    | PeerUnchoked
    | PeerInterested
    | PeerNotInterested
    | ReceivedHave(index: u32)
    | ReceivedBitfield(bits: seq<byte>)
    | RequestedBlock(index: u32, begin: u32, length: u32)
    | ReceivedPiece(index: u32, begin: u32, block: seq<byte>)
    | PeerDisconnected
    | DownloadRate

  datatype Command =
    | Interested
    | RequestBlock(index: u32, begin: u32, length: nat)
    | HavePiece(index: u32)

  /** A command handed to the connection of a peer. */
  datatype Sent = Sent(to: PeerIp, command: Command)

  datatype Action =
    | AddPeer(peer: PeerIp)
    | RemovePeer(peer: PeerIp)
    | Deliver(event: PeerEvent, peer: PeerIp)
    | ResetTimeouts(index: u32)

  /** A disk write succeeds, or fails after a prefix of the data has reached the disk. */
  datatype Io = Works | Fails(stored: nat)

  datatype Env = Env(now: int, block: nat, io: Io, order: seq<PeerIp>)

  datatype Config = Config(sha1: Hasher, pieceLength: nat, hashes: seq<Digest>, blockSize: nat, disk: Geometry)

  /** `sent` is everything sent so far, oldest first. */
  datatype State = State(
    pieces: PieceMap,
    peers: map<PeerIp, Option<seq<byte>>>,
    disk: Option<Files>,
    sent: seq<Sent>)

  ghost predicate WellFormed(c: Config, s: State) {
    && (forall i :: i in s.pieces ==> s.pieces[i].WellCut())
    && (s.disk.Some? ==> Opened(c.disk, s.disk.value))
  }

  // ---------------------------------------------------------------- handlers

  function Listing(s: State, peer: PeerIp): seq<u32> {
    if peer in s.peers then AvailablePieces(s.peers[peer]) else []
  }

  function Send(s: State, peer: PeerIp, command: Command): State {
    if peer in s.peers then s.(sent := s.sent + [Sent(peer, command)]) else s
  }

  function HandleBitfield(s: State, peer: PeerIp, bits: seq<byte>): State {
    var known := if peer in s.peers then s.(peers := s.peers[peer := Some(bits)]) else s;
    if NextPiece(known.pieces, Listing(known, peer)).Some? then Send(known, peer, Interested) else known
  }

  function HandleHave(s: State, peer: PeerIp, index: u32): State {
    if peer in s.peers && s.peers[peer].Some? then
      s.(peers := s.peers[peer := Some(SetHave(s.peers[peer].value, index))])
    else s
  }

  ghost function RequestNextBlock(s: State, peer: PeerIp, i: u32, env: Env): (t: State)
    requires i in s.pieces
    ensures t.disk == s.disk && t.peers == s.peers
    ensures (forall i :: i in s.pieces ==> s.pieces[i].WellCut()) ==> forall i :: i in t.pieces ==> t.pieces[i].WellCut()
  {
    var piece := s.pieces[i];
    if env.block in piece.blocks && !piece.FullyDownloaded() then
      Send(s.(pieces := s.pieces[i := piece.Request(env.block, peer, env.now)]), peer,
           RequestBlock(i, Wrap32(env.block), piece.blocks[env.block].length))
    else s
  }

  ghost function HandleUnchoke(s: State, peer: PeerIp, env: Env): (t: State)
    ensures t.disk == s.disk && t.peers == s.peers
    ensures (forall i :: i in s.pieces ==> s.pieces[i].WellCut()) ==> forall i :: i in t.pieces ==> t.pieces[i].WellCut()
  {
    match NextPiece(s.pieces, Listing(s, peer))
    case Some(i) => if i in s.pieces then RequestNextBlock(s, peer, i, env) else s
    case None => s
  }

  /** The outcome of `write_piece`: whether it returned Ok, and the files after it. */
  ghost function WriteOutcome(g: Geometry, files: Files, i: u32, data: seq<byte>, io: Io): (bool, Files)
    requires Opened(g, files)
  {
    var stored := if io.Works? then data else data[..Min(io.stored, |data|)];
    match WritePiece(g, files, i, stored)
    case Some(now) => (io.Works?, now)
    case None => (false, files)
  }

  function HavesFor(order: seq<PeerIp>, i: u32): seq<Sent> {
    seq(|order|, k requires 0 <= k < |order| => Sent(order[k], HavePiece(i)))
  }

  /** A complete piece is written, marked and announced; when the write fails it stays as it is. */
  ghost function StorePiece(c: Config, s: State, i: u32, env: Env): (t: State)
    requires WellFormed(c, s) && i in s.pieces
    ensures WellFormed(c, t)
  {
    if !s.pieces[i].IsComplete() || s.disk.None? || s.pieces[i].Data().None? then s
    else
      var (ok, now) := WriteOutcome(c.disk, s.disk.value, i, s.pieces[i].Data().value, env.io);
      if ok then
        s.(disk := Some(now), pieces := s.pieces[i := s.pieces[i].MarkWritten()],
           sent := s.sent + HavesFor(env.order, i))
      else s.(disk := Some(now))
  }

  ghost function WithBlock(c: Config, s: State, i: u32, begin: nat, block: seq<byte>): State
    requires WellFormed(c, s) && i in s.pieces
  {
    s.(pieces := s.pieces[i := s.pieces[i].ReceiveBlock(c.sha1, begin, block)])
  }

  ghost function HandleReceivedPiece(c: Config, s: State, i: u32, begin: nat, block: seq<byte>, env: Env): (t: State)
    requires WellFormed(c, s)
    ensures WellFormed(c, t)
  {
    if i in s.pieces then
      ReceiveKeepsWellCut(s.pieces[i], c.sha1, begin, block);
      StorePiece(c, WithBlock(c, s, i, begin, block), i, env)
    else s
  }

  lemma ReceiveKeepsWellCut(p: PieceView, sha1: Hasher, begin: nat, block: seq<byte>)
    requires p.WellCut()
    ensures p.ReceiveBlock(sha1, begin, block).WellCut()
  {
  }

  // -------------------------------------------------------------------- steps

  /** One step; `PossibleEnv` says what the environment may choose. */
  ghost function Step(c: Config, s: State, action: Action, env: Env): (t: State)
    requires WellFormed(c, s)
    ensures WellFormed(c, t)
  {
    match action
    case AddPeer(peer) => s.(peers := s.peers[peer := None])
    case RemovePeer(peer) => s.(peers := s.peers - {peer})
    case ResetTimeouts(i) =>
      if i in s.pieces then s.(pieces := s.pieces[i := s.pieces[i].ResetTimeouts(env.now)]) else s
    case Deliver(event, peer) =>
      match event
      case ReceivedBitfield(bits) => HandleBitfield(s, peer, bits)
      case ReceivedHave(index) => HandleHave(s, peer, index)
      case PeerUnchoked => HandleUnchoke(s, peer, env)
      case ReceivedPiece(index, begin, block) => HandleReceivedPiece(c, s, index, begin, block, env)
      case PeerDisconnected => s.(peers := s.peers - {peer})
      case _ => s
  }

  // One lemma for each kind of step, so that a proof need not look at the others.

  lemma BlockStepIs(c: Config, s: State, action: Action, env: Env)
    requires WellFormed(c, s) && action.Deliver? && action.event.ReceivedPiece?
    ensures Step(c, s, action, env)
      == HandleReceivedPiece(c, s, action.event.index, action.event.begin, action.event.block, env)
  {
  }

  lemma UnchokeStepIs(c: Config, s: State, action: Action, env: Env)
    requires WellFormed(c, s) && action.Deliver? && action.event.PeerUnchoked?
    ensures Step(c, s, action, env) == HandleUnchoke(s, action.peer, env)
  {
  }

  lemma TimeoutStepIs(c: Config, s: State, action: Action, env: Env)
    requires WellFormed(c, s) && action.ResetTimeouts? && action.index in s.pieces
    ensures Step(c, s, action, env)
      == s.(pieces := s.pieces[action.index := s.pieces[action.index].ResetTimeouts(env.now)])
  {
  }

  /** A step that touches neither the pieces nor the disk. */
  predicate IsQuiet(s: State, action: Action) {
    match action
    case AddPeer(_) => true
    case RemovePeer(_) => true
    case ResetTimeouts(i) => i !in s.pieces
    case Deliver(event, _) => !event.PeerUnchoked? && !event.ReceivedPiece?
  }

  lemma QuietStepIs(c: Config, s: State, action: Action, env: Env)
    requires WellFormed(c, s) && IsQuiet(s, action)
    ensures Step(c, s, action, env).pieces == s.pieces && Step(c, s, action, env).disk == s.disk
  {
  }

  /** `order` lists each peer once. */
  ghost predicate Enumerates(order: seq<PeerIp>, peers: set<PeerIp>) {
    && (forall p :: p in order <==> p in peers)
    && forall a, b :: 0 <= a < b < |order| ==> order[a] != order[b]
  }

  /** The block picked for a request is one the iteration over the blocks can stop at. */
  ghost predicate PickIsOpen(s: State, peer: PeerIp, block: nat) {
    match NextPiece(s.pieces, Listing(s, peer))
    case Some(i) => i in s.pieces && !s.pieces[i].FullyDownloaded() ==>
      block in s.pieces[i].blocks && !s.pieces[i].blocks[block].IsComplete()
    case None => true
  }

  ghost predicate PossibleEnv(s: State, action: Action, env: Env) {
    && Enumerates(env.order, s.peers.Keys)
    && (action.Deliver? && action.event.PeerUnchoked? ==> PickIsOpen(s, action.peer, env.block))
  }

  /** The state after a sequence of steps. */
  ghost function After(c: Config, s: State, steps: seq<(Action, Env)>): (t: State)
    requires WellFormed(c, s)
    ensures WellFormed(c, t)
    decreases |steps|
  {
    if steps == [] then s
    else
      var last := steps[|steps| - 1];
      Step(c, After(c, s, steps[..|steps| - 1]), last.0, last.1)
  }

  ghost predicate IsRun(c: Config, s: State, steps: seq<(Action, Env)>)
    requires WellFormed(c, s)
    decreases |steps|
  {
    steps == [] ||
    var before, last := steps[..|steps| - 1], steps[|steps| - 1];
    IsRun(c, s, before) && PossibleEnv(After(c, s, before), last.0, last.1)
  }

  lemma OneMoreStep(c: Config, s: State, steps: seq<(Action, Env)>, action: Action, env: Env)
    requires WellFormed(c, s) && IsRun(c, s, steps) && PossibleEnv(After(c, s, steps), action, env)
    ensures IsRun(c, s, steps + [(action, env)])
    ensures After(c, s, steps + [(action, env)]) == Step(c, After(c, s, steps), action, env)
  {
    assert (steps + [(action, env)])[..|steps|] == steps;
  }

  /** A new manager, with or without a disk. */
  function Initial(c: Config, disk: Option<Files>): State
    requires CanBeCut(c.pieceLength, c.blockSize) && |c.hashes| <= U32_RANGE
  {
    State(NewPieces(c.pieceLength, c.hashes, c.blockSize), map[], disk, [])
  }
}
