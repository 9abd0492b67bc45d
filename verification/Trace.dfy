/** Everything the download manager sends, with the state that justifies it. */
module Trace {
  import opened Bytes
  import opened Blocks
  import opened Pieces
  import opened PieceManagers
  import opened Bitfields
  import opened Disk
  import opened PieceStore
  import opened Downloads
  import opened Safety

  // ------------------------------------------------------------ justification

  /** Interest is declared to a peer whose new bitfield names a piece that is still needed. */
  ghost predicate InterestIsDue(action: Action, t: State, to: PeerIp) {
    && action.Deliver? && action.event.ReceivedBitfield? && action.peer == to
    && to in t.peers && t.peers[to] == Some(action.event.bits)
    && exists i :: i in Listing(t, to) && Needed(t.pieces, i)
  }

  /**
   * A request answers an unchoke of the same peer, for a piece that peer claims and that is not
   * complete; it names an existing block that has not arrived, with its own length and inside the
   * piece, and the cast of its offset to u32 loses nothing. The block is then requested from that peer at
   * that time, and nothing else about the pieces is changed.
   */
  ghost predicate RequestIsDue(c: Config, s: State, action: Action, env: Env, t: State, to: PeerIp,
                               i: u32, begin: u32, length: nat) {
    && action == Deliver(PeerUnchoked, to)
    && to in s.peers && s.peers[to].Some? && i in Listing(s, to)
    && (NoBitPastU32(s.peers[to].value) ==> HasPiece(s.peers[to], i))
    && i in s.pieces && !s.pieces[i].IsComplete()
    && begin == env.block && begin in s.pieces[i].blocks && !s.pieces[i].blocks[begin].IsComplete()
    && 0 < length == s.pieces[i].blocks[begin].length && begin + length <= c.pieceLength
    && var blocks := s.pieces[i].blocks;
      t == s.(pieces := s.pieces[i := s.pieces[i].(
                blocks := blocks[begin := blocks[begin].(state := Requested(to, env.now))])], sent := t.sent)
  }

  /**
   * A piece is announced right after the arrival of one of its blocks, a write that worked, and the
   * mark. What was written is a whole piece with the hash of the torrent; where the write is in place,
   * the image shows it.
   */
  ghost predicate HaveIsEarned(c: Config, s: State, action: Action, env: Env, t: State, i: u32)
    requires WellFormed(c, s) && WellFormed(c, t)
  {
    && action.Deliver? && action.event.ReceivedPiece? && action.event.index == i && env.io.Works?
    && i < |c.hashes| && i in t.pieces && t.pieces[i].state.Written? && t.pieces[i].Hashed().Some?
    && var data := t.pieces[i].Hashed().value;
      && |data| == c.pieceLength && c.sha1(data) == c.hashes[i]
      && s.disk.Some? && t.disk.Some? && t.disk == WritePiece(c.disk, s.disk.value, i, data)
      && (Writable(c.disk, i) ==> Shows(c.disk, s.disk.value, t.disk.value, i, data))
  }

  /** The write of a piece as the image shows it. */
  ghost predicate Shows(g: Geometry, was: Files, now: Files, i: u32, data: seq<byte>)
    requires Opened(g, was) && Opened(g, now)
  {
    Image(g, now) == WriteAt(Image(g, was), At(g, i), Fit(g, i, data))
  }

  ghost predicate SentRight(c: Config, s: State, action: Action, env: Env, t: State, sent: Sent)
    requires WellFormed(c, s) && WellFormed(c, t)
  {
    match sent.command
    case Interested => InterestIsDue(action, t, sent.to)
    case RequestBlock(i, begin, length) => RequestIsDue(c, s, action, env, t, sent.to, i, begin, length)
    case HavePiece(i) => HaveIsEarned(c, s, action, env, t, i)
  }

  /** Nothing sent is taken back, and everything new is right. */
  ghost predicate SendsRight(c: Config, s: State, action: Action, env: Env, t: State)
    requires WellFormed(c, s) && WellFormed(c, t)
  {
    s.sent <= t.sent && forall k :: |s.sent| <= k < |t.sent| ==> SentRight(c, s, action, env, t, t.sent[k])
  }

  // --------------------------------------------------------------- bitfield

  lemma BitfieldSendsRight(c: Config, s: State, action: Action, env: Env)
    requires WellFormed(c, s) && action.Deliver? && action.event.ReceivedBitfield?
    ensures SendsRight(c, s, action, env, Step(c, s, action, env))
  {
    var t := Step(c, s, action, env);
    NextPieceIsThere(t.pieces, Listing(t, action.peer));
  }

  // ---------------------------------------------------------------- unchoke

  lemma ListedIsClaimed(bits: seq<byte>, i: u32)
    requires i in AvailablePieces(Some(bits)) && NoBitPastU32(bits)
    ensures HasPiece(Some(bits), i)
  {
    ListingAgreesExactly(bits);
  }

  /** In a sound piece every block lies inside the piece, so its offset survives the cast to u32. */
  lemma BlockIsInside(c: Config, p: PieceView, i: u32, b: nat)
    requires i < |c.hashes| && PieceSound(c, p, i) && b in p.blocks
    ensures Wrap32(b) == b && 0 < p.blocks[b].length && b + p.blocks[b].length <= c.pieceLength
  {
  }

  /** What an unchoke does: a request for the first needed piece of the peer, or nothing at all. */
  lemma UnchokeLaw(c: Config, s: State, peer: PeerIp, env: Env)
    requires Proper(c) && WellFormed(c, s) && PiecesSound(c, s.pieces) && PickIsOpen(s, peer, env.block)
    ensures var next := NextPiece(s.pieces, Listing(s, peer));
      match next
      case None => HandleUnchoke(s, peer, env) == s
      case Some(i) =>
        && peer in s.peers && s.peers[peer].Some? && i in Listing(s, peer) && Needed(s.pieces, i)
        && env.block in s.pieces[i].blocks && !s.pieces[i].blocks[env.block].IsComplete() && Wrap32(env.block) == env.block
        && var length := s.pieces[i].blocks[env.block].length;
          && 0 < length && env.block + length <= c.pieceLength
          && HandleUnchoke(s, peer, env) == s.(
               pieces := s.pieces[i := s.pieces[i].(blocks := s.pieces[i].blocks[
                 env.block := s.pieces[i].blocks[env.block].(state := Requested(peer, env.now))])],
               sent := s.sent + [Sent(peer, RequestBlock(i, env.block, length))])
  {
    NextPieceIsThere(s.pieces, Listing(s, peer));
    var next := NextPiece(s.pieces, Listing(s, peer));
    if next.Some? {
      assert !s.pieces[next.value].FullyDownloaded();
      BlockIsInside(c, s.pieces[next.value], next.value, env.block);
      RequestIsRecorded(s.pieces[next.value], env.block, peer, env.now);
    }
  }

  lemma UnchokeSendsRight(c: Config, s: State, peer: PeerIp, env: Env)
    requires Proper(c) && WellFormed(c, s) && PiecesSound(c, s.pieces) && PickIsOpen(s, peer, env.block)
    ensures SendsRight(c, s, Deliver(PeerUnchoked, peer), env, HandleUnchoke(s, peer, env))
  {
    UnchokeLaw(c, s, peer, env);
    var next := NextPiece(s.pieces, Listing(s, peer));
    if next.Some? && NoBitPastU32(s.peers[peer].value) {
      ListedIsClaimed(s.peers[peer].value, next.value);
    }
  }

  // ---------------------------------------------------------- received piece

  lemma WrittenPieceIsEarned(c: Config, s: State, i: u32, begin: u32, block: seq<byte>, peer: PeerIp, env: Env, t: State)
    requires Proper(c) && WellFormed(c, s) && WellFormed(c, t) && i < |c.hashes| && env.io.Works? && s.disk.Some?
    requires i in t.pieces && PieceSound(c, t.pieces[i], i) && t.pieces[i].state.Written?
    requires t.pieces[i].Hashed().Some? && |t.pieces[i].Hashed().value| == c.pieceLength && t.disk.Some?
    requires t.disk == WritePiece(c.disk, s.disk.value, i, t.pieces[i].Hashed().value)
    ensures HaveIsEarned(c, s, Deliver(ReceivedPiece(i, begin, block), peer), env, t, i)
  {
    if Writable(c.disk, i) {
      WritePieceLaw(c.disk, s.disk.value, i, t.pieces[i].Hashed().value);
    }
  }

  /** What storing a complete piece sends: nothing, or an announcement of a piece that was just written. */
  lemma AnnouncedPieceIsEarned(c: Config, s: State, i: u32, begin: u32, block: seq<byte>, peer: PeerIp, env: Env)
    requires Proper(c) && WellFormed(c, s) && PiecesSound(c, s.pieces) && i in s.pieces
    ensures var t := StorePiece(c, s, i, env);
      t.sent == s.sent
      || (t.sent == s.sent + HavesFor(env.order, i)
          && HaveIsEarned(c, s, Deliver(ReceivedPiece(i, begin, block), peer), env, t, i))
  {
    StorePieceLaw(c, s, i, env);
    var t := StorePiece(c, s, i, env);
    if t.sent != s.sent {
      MarkKeepsHashed(s.pieces[i]);
      MarkWrittenKeepsSound(s.pieces[i], c.sha1);
      WrittenPieceIsEarned(c, s, i, begin, block, peer, env, t);
    }
  }

  lemma BlockSendsRight(c: Config, s: State, i: u32, begin: u32, block: seq<byte>, peer: PeerIp, env: Env)
    requires Proper(c) && WellFormed(c, s) && PiecesSound(c, s.pieces) && |block| < U32_RANGE
    ensures SendsRight(c, s, Deliver(ReceivedPiece(i, begin, block), peer), env,
                       HandleReceivedPiece(c, s, i, begin, block, env))
  {
    if i in s.pieces {
      BlockKeepsSound(c, s, i, begin, block);
      var mid := WithBlock(c, s, i, begin, block);
      AnnouncedPieceIsEarned(c, mid, i, begin, block, peer, env);
      HavesAreRight(c, s, mid, i, begin, block, peer, env, StorePiece(c, mid, i, env));
    }
  }

  lemma HavesAreRight(c: Config, s: State, mid: State, i: u32, begin: u32, block: seq<byte>, peer: PeerIp, env: Env, t: State)
    requires WellFormed(c, s) && WellFormed(c, mid) && WellFormed(c, t)
    requires mid.sent == s.sent && mid.disk == s.disk
    requires t.sent == mid.sent
      || (t.sent == mid.sent + HavesFor(env.order, i)
          && HaveIsEarned(c, mid, Deliver(ReceivedPiece(i, begin, block), peer), env, t, i))
    ensures SendsRight(c, s, Deliver(ReceivedPiece(i, begin, block), peer), env, t)
  {
  }

  /** `order` names each registered peer once, so each gets exactly one announcement. */
  ghost predicate ToldToAll(haves: seq<Sent>, i: u32, peers: set<PeerIp>) {
    && (forall k :: 0 <= k < |haves| ==> haves[k].to in peers && haves[k].command == HavePiece(i))
    && (forall p :: p in peers ==> Sent(p, HavePiece(i)) in haves)
    && (forall a, b :: 0 <= a < b < |haves| ==> haves[a] != haves[b])
  }

  lemma HavesReachAll(order: seq<PeerIp>, i: u32, peers: set<PeerIp>)
    requires Enumerates(order, peers)
    ensures ToldToAll(HavesFor(order, i), i, peers)
  {
    forall p | p in peers ensures Sent(p, HavePiece(i)) in HavesFor(order, i) {
      var k :| 0 <= k < |order| && order[k] == p;
      assert HavesFor(order, i)[k] == Sent(p, HavePiece(i));
    }
  }

  lemma StoreAnnounces(c: Config, s: State, j: u32, env: Env, i: u32)
    requires WellFormed(c, s) && PiecesSound(c, s.pieces) && j in s.pieces
    requires i in s.pieces && !s.pieces[i].state.Written?
    ensures var t := StorePiece(c, s, j, env);
      i in t.pieces && t.pieces[i].state.Written? ==> t.sent == s.sent + HavesFor(env.order, i)
  {
    StorePieceLaw(c, s, j, env);
  }

  lemma BlockAnnounces(c: Config, s: State, j: u32, begin: nat, block: seq<byte>, env: Env, i: u32)
    requires WellFormed(c, s) && PiecesSound(c, s.pieces) && |block| < U32_RANGE
    requires i in s.pieces && !s.pieces[i].state.Written?
    ensures var t := HandleReceivedPiece(c, s, j, begin, block, env);
      i in t.pieces && t.pieces[i].state.Written? ==> t.sent == s.sent + HavesFor(env.order, i)
  {
    if j in s.pieces {
      BlockKeepsSound(c, s, j, begin, block);
      WrittenIsLeftOnReceipt(s.pieces[j], c.sha1, begin, block);
      StoreAnnounces(c, WithBlock(c, s, j, begin, block), j, env, i);
    }
  }

  lemma OnlyBlocksWrite(c: Config, s: State, action: Action, env: Env, i: u32)
    requires WellFormed(c, s) && !(action.Deliver? && action.event.ReceivedPiece?) && i in s.pieces
    ensures i in Step(c, s, action, env).pieces && Step(c, s, action, env).pieces[i].state == s.pieces[i].state
  {
  }

  lemma StepAnnounces(c: Config, s: State, action: Action, env: Env, i: u32, t: State)
    requires WellFormed(c, s) && PiecesSound(c, s.pieces) && FromWire(action) && t == Step(c, s, action, env)
    requires i in s.pieces && !s.pieces[i].state.Written? && i in t.pieces && t.pieces[i].state.Written?
    ensures t.sent == s.sent + HavesFor(env.order, i)
  {
    if !(action.Deliver? && action.event.ReceivedPiece?) {
      OnlyBlocksWrite(c, s, action, env, i);
    }
    BlockStepIs(c, s, action, env);
    BlockAnnounces(c, s, action.event.index, action.event.begin, action.event.block, env, i);
  }

  /** A piece that becomes written is announced to every registered peer, once each. */
  lemma WrittenIsAnnounced(c: Config, s: State, action: Action, env: Env, i: u32)
    requires WellFormed(c, s) && PiecesSound(c, s.pieces) && PossibleEnv(s, action, env) && FromWire(action)
    requires i in s.pieces && !s.pieces[i].state.Written?
    requires i in Step(c, s, action, env).pieces && Step(c, s, action, env).pieces[i].state.Written?
    ensures exists haves :: Step(c, s, action, env).sent == s.sent + haves && ToldToAll(haves, i, s.peers.Keys)
  {
    HavesReachAll(env.order, i, s.peers.Keys);
    StepAnnounces(c, s, action, env, i, Step(c, s, action, env));
  }

  // -------------------------------------------------------------------- runs

  lemma StepSendsRight(c: Config, s: State, action: Action, env: Env)
    requires Proper(c) && WellFormed(c, s) && PiecesSound(c, s.pieces)
    requires PossibleEnv(s, action, env) && FromWire(action)
    ensures SendsRight(c, s, action, env, Step(c, s, action, env))
  {
    match action
    case AddPeer(_) =>
    case RemovePeer(_) =>
    case ResetTimeouts(_) =>
    case Deliver(event, peer) =>
      if event.PeerUnchoked? {
        UnchokeSendsRight(c, s, peer, env);
      } else if event.ReceivedBitfield? {
        BitfieldSendsRight(c, s, action, env);
      } else if event.ReceivedPiece? {
        BlockSendsRight(c, s, event.index, event.begin, event.block, peer, env);
      }
  }

  /** Entry k of `sent` is due to the step from s to t. */
  ghost predicate DueTo(c: Config, s: State, step: (Action, Env), t: State, sent: seq<Sent>, k: nat)
    requires WellFormed(c, s) && WellFormed(c, t)
  {
    |s.sent| <= k < |t.sent| && t.sent <= sent && SentRight(c, s, step.0, step.1, t, sent[k])
  }

  /** Entry k of what a run sends is due to step n of the run. */
  ghost predicate SentAtStep(c: Config, s: State, steps: seq<(Action, Env)>, n: nat, k: nat, sent: seq<Sent>)
    requires WellFormed(c, s) && n < |steps|
  {
    DueTo(c, After(c, s, steps[..n]), steps[n], After(c, s, steps[..n + 1]), sent, k)
  }

  lemma DueInPrefix(c: Config, s: State, before: seq<(Action, Env)>, steps: seq<(Action, Env)>, n: nat, k: nat,
                    sent: seq<Sent>, later: seq<Sent>)
    requires WellFormed(c, s) && n < |before| && before <= steps && sent <= later
    requires SentAtStep(c, s, before, n, k, sent)
    ensures SentAtStep(c, s, steps, n, k, later)
  {
    assert before[..n] == steps[..n] && before[..n + 1] == steps[..n + 1];
  }

  lemma NewIsDue(c: Config, s: State, step: (Action, Env), t: State, k: nat)
    requires WellFormed(c, s) && WellFormed(c, t) && SendsRight(c, s, step.0, step.1, t) && |s.sent| <= k < |t.sent|
    ensures DueTo(c, s, step, t, t.sent, k)
  {
  }

  /** Every command ever sent, in any run from sound pieces, is justified by the step that sent it. */
  lemma {:induction false} EverySendIsRight(c: Config, s: State, steps: seq<(Action, Env)>, k: nat)
    requires Proper(c) && WellFormed(c, s) && PiecesSound(c, s.pieces) && AllFromWire(steps) && IsRun(c, s, steps)
    requires |s.sent| <= k < |After(c, s, steps).sent|
    ensures exists n :: 0 <= n < |steps| && SentAtStep(c, s, steps, n, k, After(c, s, steps).sent)
    decreases |steps|
  {
    assert steps != [];
    var before, last := steps[..|steps| - 1], steps[|steps| - 1];
    assert last == steps[|steps| - 1] && steps == before + [last];
    RunKeepsPiecesSound(c, s, before);
    var mid := After(c, s, before);
    StepSendsRight(c, mid, last.0, last.1);
    if k < |mid.sent| {
      EverySendIsRight(c, s, before, k);
      var n :| 0 <= n < |before| && SentAtStep(c, s, before, n, k, mid.sent);
      DueInPrefix(c, s, before, steps, n, k, mid.sent, After(c, s, steps).sent);
    } else {
      NewIsDue(c, mid, last, After(c, s, steps), k);
      assert steps[..|before|] == before && steps[..|before| + 1] == steps;
      assert SentAtStep(c, s, steps, |before|, k, After(c, s, steps).sent);
    }
  }

  /** The answer to an unchoke: one request, for a piece that is claimed and needed, with none below it. */
  ghost predicate AnsweredByLowest(s: State, peer: PeerIp, env: Env, t: State, i: u32, length: nat) {
    && i in Listing(s, peer) && Needed(s.pieces, i) && peer in s.peers && s.peers[peer].Some?
    && t.sent == s.sent + [Sent(peer, RequestBlock(i, Wrap32(env.block), length))]
    && (NoBitPastU32(s.peers[peer].value) ==>
          forall j: u32 :: HasPiece(s.peers[peer], j) && Needed(s.pieces, j) ==> i <= j)
  }

  /** A piece is needed exactly when some block of it has not arrived. */
  lemma NeededExactly(c: Config, pieces: PieceMap, i: u32)
    requires PiecesSound(c, pieces)
    ensures Needed(pieces, i) <==>
      i < |c.hashes| && i in pieces && exists o :: o in pieces[i].blocks && !pieces[i].blocks[o].state.Received?
  {
    if i in pieces {
      assert PieceSound(c, pieces[i], i);
    }
  }

  lemma SelectedIsLowest(pieces: PieceMap, bits: seq<byte>, i: u32)
    requires NextPiece(pieces, AvailablePieces(Some(bits))) == Some(i) && NoBitPastU32(bits)
    ensures forall j: u32 :: HasPiece(Some(bits), j) && Needed(pieces, j) ==> i <= j
  {
    ListingAgreesExactly(bits);
    NextPieceIsLowest(pieces, AvailablePieces(Some(bits)));
  }

  lemma UnchokeIsMinimal(c: Config, s: State, peer: PeerIp, env: Env)
    requires Proper(c) && WellFormed(c, s) && PiecesSound(c, s.pieces) && PickIsOpen(s, peer, env.block)
    ensures var t := HandleUnchoke(s, peer, env);
      if exists i :: i in Listing(s, peer) && Needed(s.pieces, i) then
        exists i, length :: AnsweredByLowest(s, peer, env, t, i, length)
      else t == s
  {
    UnchokeLaw(c, s, peer, env);
    NextPieceMeets(s.pieces, Listing(s, peer));
    var next := NextPiece(s.pieces, Listing(s, peer));
    if next.Some? {
      var i := next.value;
      if NoBitPastU32(s.peers[peer].value) {
        SelectedIsLowest(s.pieces, s.peers[peer].value, i);
      }
      assert AnsweredByLowest(s, peer, env, HandleUnchoke(s, peer, env), i, s.pieces[i].blocks[env.block].length);
    }
  }

  /**
   * Selection never stalls and is minimal: in every reachable state an unchoke from a peer that
   * claims a needed piece is answered by one request, for the lowest-numbered such piece; from any
   * other peer it changes nothing.
   */
  lemma UnchokeRequestsLowest(c: Config, disk: Option<Files>, steps: seq<(Action, Env)>, peer: PeerIp, env: Env)
    requires Proper(c) && (disk.Some? ==> Opened(c.disk, disk.value))
    requires AllFromWire(steps) && WellFormed(c, Initial(c, disk)) && IsRun(c, Initial(c, disk), steps)
    requires PossibleEnv(After(c, Initial(c, disk), steps), Deliver(PeerUnchoked, peer), env)
    ensures var s := After(c, Initial(c, disk), steps);
      var t := Step(c, s, Deliver(PeerUnchoked, peer), env);
      if exists i :: i in Listing(s, peer) && Needed(s.pieces, i) then
        exists i, length :: AnsweredByLowest(s, peer, env, t, i, length)
      else t == s
  {
    PiecesStaySound(c, disk, steps);
    UnchokeIsMinimal(c, After(c, Initial(c, disk), steps), peer, env);
  }

  // --------------------------------------------------------------- bitfields

  /** A bitfield from a registered peer is stored; interest follows exactly when it names a needed piece. */
  lemma BitfieldIsAnswered(c: Config, s: State, peer: PeerIp, bits: seq<byte>, env: Env)
    requires WellFormed(c, s)
    ensures Step(c, s, Deliver(ReceivedBitfield(bits), peer), env) ==
      if peer !in s.peers then s
      else
        var due := exists i :: i in AvailablePieces(Some(bits)) && Needed(s.pieces, i);
        s.(peers := s.peers[peer := Some(bits)], sent := s.sent + if due then [Sent(peer, Interested)] else [])
  {
    var known := if peer in s.peers then s.(peers := s.peers[peer := Some(bits)]) else s;
    NextPieceMeets(known.pieces, Listing(known, peer));
  }

  /** The action neither registers nor drops the peer, nor brings a new bitfield from it. */
  predicate KeepsBitfield(action: Action, p: PeerIp) {
    match action
    case AddPeer(peer) => peer != p
    case RemovePeer(peer) => peer != p
    case ResetTimeouts(_) => true
    case Deliver(event, peer) => peer == p ==> !event.PeerDisconnected? && !event.ReceivedBitfield?
  }

  ghost predicate Knows(s: State, p: PeerIp, n: nat) {
    p in s.peers && s.peers[p].Some? && |s.peers[p].value| == n
  }

  lemma StepAddsHave(c: Config, s: State, action: Action, env: Env, p: PeerIp, n: nat, i: u32)
    requires WellFormed(c, s) && Knows(s, p, n) && n < U32_RANGE && KeepsBitfield(action, p)
    ensures Knows(Step(c, s, action, env), p, n)
    ensures HasPiece(Step(c, s, action, env).peers[p], i) <==>
      HasPiece(s.peers[p], i) || (action == Deliver(ReceivedHave(i), p) && i / 8 < n)
  {
    if action.Deliver? && action.event.ReceivedHave? && action.peer == p {
      SetHaveAddsOne(s.peers[p].value, action.event.index, i);
    } else {
      OthersKeepBitfield(c, s, action, env, p);
    }
  }

  lemma OthersKeepBitfield(c: Config, s: State, action: Action, env: Env, p: PeerIp)
    requires WellFormed(c, s) && p in s.peers && KeepsBitfield(action, p)
    requires !(action.Deliver? && action.event.ReceivedHave? && action.peer == p)
    ensures p in Step(c, s, action, env).peers && Step(c, s, action, env).peers[p] == s.peers[p]
  {
  }

  /** After a bitfield, in any run, a peer is known to have its pieces and those it announced since. */
  lemma {:induction false} KnowledgeIsUnion(c: Config, s: State, steps: seq<(Action, Env)>, p: PeerIp, n: nat, i: u32)
    requires WellFormed(c, s) && Knows(s, p, n) && n < U32_RANGE
    requires forall k :: 0 <= k < |steps| ==> KeepsBitfield(steps[k].0, p)
    ensures Knows(After(c, s, steps), p, n)
    ensures HasPiece(After(c, s, steps).peers[p], i) <==>
      HasPiece(s.peers[p], i) || (i / 8 < n && exists k :: 0 <= k < |steps| && steps[k].0 == Deliver(ReceivedHave(i), p))
    decreases |steps|
  {
    if steps != [] {
      var before, last := steps[..|steps| - 1], steps[|steps| - 1];
      assert last == steps[|steps| - 1];
      KnowledgeIsUnion(c, s, before, p, n, i);
      StepAddsHave(c, After(c, s, before), last.0, last.1, p, n, i);
    }
  }
}
