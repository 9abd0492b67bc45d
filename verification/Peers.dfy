/** Who is registered, what each peer is known to have, and that a download gets under way. */
module Peers {
  import opened Bytes
  import opened Blocks
  import opened Pieces
  import opened PieceManagers
  import opened Bitfields
  import opened Disk
  import opened Downloads
  import opened Safety

  // ------------------------------------------------------------- registration

  /** The steps that touch nothing but the table of peers. */
  ghost predicate OnlyPeersChange(s: State, t: State) {
    t.pieces == s.pieces && t.disk == s.disk && t.sent == s.sent
  }

  /** Registering adds the peer, with no bitfield, whatever was known of it before. */
  lemma AddPeerRegisters(c: Config, s: State, p: PeerIp, env: Env)
    requires WellFormed(c, s)
    ensures var t := Step(c, s, AddPeer(p), env);
      && OnlyPeersChange(s, t) && t.peers.Keys == s.peers.Keys + {p} && t.peers[p] == None
      && forall q :: q in s.peers && q != p ==> t.peers[q] == s.peers[q]
  {
  }

  /** The peer leaves: it is removed, or its connection is lost. */
  predicate Leaves(action: Action, p: PeerIp) {
    action == RemovePeer(p) || action == Deliver(PeerDisconnected, p)
  }

  /** A peer that leaves is gone, and no other. */
  lemma LeavingDrops(c: Config, s: State, action: Action, env: Env, p: PeerIp)
    requires WellFormed(c, s) && Leaves(action, p)
    ensures var t := Step(c, s, action, env);
      && OnlyPeersChange(s, t) && t.peers.Keys == s.peers.Keys - {p}
      && forall q :: q in s.peers && q != p ==> t.peers[q] == s.peers[q]
  {
  }

  /** No other step registers or drops anyone. */
  lemma OthersKeepRegistered(c: Config, s: State, action: Action, env: Env, p: PeerIp)
    requires WellFormed(c, s) && action != AddPeer(p) && !Leaves(action, p)
    ensures p in Step(c, s, action, env).peers <==> p in s.peers
  {
    if action.Deliver? && action.event.ReceivedPiece? {
      BlockStepIs(c, s, action, env);
    } else if action.Deliver? && action.event.PeerUnchoked? {
      UnchokeStepIs(c, s, action, env);
    }
  }

  /** From step k on nothing makes the peer leave. */
  ghost predicate Stays(steps: seq<(Action, Env)>, k: nat, p: PeerIp) {
    forall m :: k <= m < |steps| ==> !Leaves(steps[m].0, p)
  }

  /** The peer is added at step k and does not leave after that. */
  ghost predicate JoinsAt(steps: seq<(Action, Env)>, k: nat, p: PeerIp) {
    k < |steps| && steps[k].0 == AddPeer(p) && Stays(steps, k, p)
  }

  ghost predicate Joins(steps: seq<(Action, Env)>, p: PeerIp) {
    exists k: nat :: JoinsAt(steps, k, p)
  }

  /** What one more step means for the last step that names the peer. */
  lemma OneMoreNames(before: seq<(Action, Env)>, steps: seq<(Action, Env)>, p: PeerIp)
    requires steps != [] && before == steps[..|steps| - 1]
    ensures var last := steps[|steps| - 1].0;
      && (Joins(steps, p) <==> last == AddPeer(p) || (Joins(before, p) && !Leaves(last, p)))
      && (Stays(steps, 0, p) <==> Stays(before, 0, p) && !Leaves(last, p))
  {
    var last := steps[|steps| - 1].0;
    if last == AddPeer(p) {
      assert JoinsAt(steps, |steps| - 1, p);
    } else if Joins(before, p) && !Leaves(last, p) {
      var k: nat :| JoinsAt(before, k, p);
      assert JoinsAt(steps, k, p);
    }
    if Joins(steps, p) && last != AddPeer(p) {
      var k: nat :| JoinsAt(steps, k, p);
      StaysBefore(before, steps, k, p);
      assert JoinsAt(before, k, p);
    }
    if Stays(steps, 0, p) {
      StaysBefore(before, steps, 0, p);
    }
  }

  lemma StaysBefore(before: seq<(Action, Env)>, steps: seq<(Action, Env)>, k: nat, p: PeerIp)
    requires steps != [] && before == steps[..|steps| - 1] && Stays(steps, k, p)
    ensures Stays(before, k, p)
  {
    forall m | k <= m < |before| ensures !Leaves(before[m].0, p) {
      assert before[m] == steps[m];
    }
  }

  /**
   * Over any run a peer is registered at the end exactly when the last step that adds it or makes it leave
   * is one that adds it; or, when there is no such step, when it was registered at the beginning.
   */
  lemma {:induction false} RegisteredExactly(c: Config, s: State, steps: seq<(Action, Env)>, p: PeerIp)
    requires WellFormed(c, s)
    ensures p in After(c, s, steps).peers <==> Joins(steps, p) || (p in s.peers && Stays(steps, 0, p))
    decreases |steps|
  {
    if steps != [] {
      var before, last := steps[..|steps| - 1], steps[|steps| - 1];
      RegisteredExactly(c, s, before, p);
      OneMoreNames(before, steps, p);
      RegisteredAfter(c, After(c, s, before), last.0, last.1, p);
    }
  }

  lemma RegisteredAfter(c: Config, s: State, action: Action, env: Env, p: PeerIp)
    requires WellFormed(c, s)
    ensures p in Step(c, s, action, env).peers <==> action == AddPeer(p) || (p in s.peers && !Leaves(action, p))
  {
    if action == AddPeer(p) {
      AddPeerRegisters(c, s, p, env);
    } else if Leaves(action, p) {
      LeavingDrops(c, s, action, env, p);
    } else {
      OthersKeepRegistered(c, s, action, env, p);
    }
  }

  // ------------------------------------------------------------ other events

  /** A Have message of a peer without a bitfield changes nothing; else it adds one piece to those known. */
  lemma HaveIsRecorded(c: Config, s: State, peer: PeerIp, index: u32, env: Env, t: State)
    requires WellFormed(c, s) && t == Step(c, s, Deliver(ReceivedHave(index), peer), env)
    ensures peer !in s.peers || s.peers[peer].None? ==> t == s
    ensures peer in s.peers && s.peers[peer].Some? && |s.peers[peer].value| < U32_RANGE ==>
      var bits := s.peers[peer].value;
      && peer in t.peers && t.peers[peer].Some? && |t.peers[peer].value| == |bits|
      && t == s.(peers := s.peers[peer := t.peers[peer]])
      && forall i: u32 :: HasPiece(t.peers[peer], i) <==> HasPiece(Some(bits), i) || (i == index && index / 8 < |bits|)
  {
    if peer in s.peers && s.peers[peer].Some? && |s.peers[peer].value| < U32_RANGE {
      var bits := s.peers[peer].value;
      forall i: u32
        ensures HasPiece(Some(SetHave(bits, index)), i) <==> HasPiece(Some(bits), i) || (i == index && index / 8 < |bits|)
      {
        SetHaveAddsOne(bits, index, i);
      }
    }
  }

  /** Events the manager has no use for. */
  predicate IsIgnored(event: PeerEvent) {
    event.PeerChoked? || event.PeerInterested? || event.PeerNotInterested? || event.RequestedBlock? || event.DownloadRate?
  }

  lemma OtherEventsAreIgnored(c: Config, s: State, event: PeerEvent, peer: PeerIp, env: Env)
    requires WellFormed(c, s) && IsIgnored(event)
    ensures Step(c, s, Deliver(event, peer), env) == s
  {
  }

  // ----------------------------------------------------------- a first request

  function Joined(peer: PeerIp, now: int): (Action, Env) {
    (AddPeer(peer), Env(now, 0, Works, []))
  }

  function Claimed(peer: PeerIp, now: int): (Action, Env) {
    (Deliver(ReceivedBitfield([0x80]), peer), Env(now, 0, Works, [peer]))
  }

  function Unchoked(peer: PeerIp, now: int): (Action, Env) {
    (Deliver(PeerUnchoked, peer), Env(now, 0, Works, [peer]))
  }

  function FirstSteps(peer: PeerIp, now: int): seq<(Action, Env)> {
    [] + [Joined(peer, now)] + [Claimed(peer, now)] + [Unchoked(peer, now)]
  }

  lemma FirstPieceIsListed()
    ensures AvailablePieces(Some([0x80])) == [0]
  {
    var bits: seq<byte> := [0x80];
    forall j: nat | j < 8 ensures BitAt(bits, j) <==> j == 0 {
      HighBitIsFirst(bits, j);
    }
    OnlyFirstIsListed(Bits(bits), 8);
  }

  lemma {:induction false} OnlyFirstIsListed(has: nat -> bool, n: nat)
    requires 0 < n && forall j: nat :: j < n ==> (has(j) <==> j == 0)
    ensures ListedBy(has, n) == [0]
  {
    if n > 1 {
      OnlyFirstIsListed(has, n - 1);
    }
  }

  /** The first piece is there and open. */
  lemma FirstPieceIsOpen(c: Config, disk: Option<Files>)
    requires Proper(c) && c.hashes != []
    ensures var pieces := Initial(c, disk).pieces;
      && 0 in pieces && pieces[0].WellCut() && !pieces[0].FullyDownloaded() && NextPiece(pieces, [0]) == Some(0)
      && 0 in pieces[0].blocks && !pieces[0].blocks[0].IsComplete()
      && pieces[0].blocks[0].length == Min(c.blockSize, c.pieceLength)
  {
    var p := Initial(c, disk).pieces[0];
    assert 0 in p.blocks && p.IsNeeded();
  }

  lemma JoinedIs(c: Config, s: State, peer: PeerIp, now: int, t: State)
    requires WellFormed(c, s) && s.peers == map[] && t == s.(peers := map[peer := None])
    ensures PossibleEnv(s, Joined(peer, now).0, Joined(peer, now).1)
    ensures Step(c, s, Joined(peer, now).0, Joined(peer, now).1) == t
  {
  }

  lemma ClaimedIs(c: Config, t: State, peer: PeerIp, now: int, u: State)
    requires WellFormed(c, t) && t.peers == map[peer := None] && NextPiece(t.pieces, [0]) == Some(0)
    requires u == t.(peers := map[peer := Some([0x80])], sent := t.sent + [Sent(peer, Interested)])
    ensures PossibleEnv(t, Claimed(peer, now).0, Claimed(peer, now).1)
    ensures Step(c, t, Claimed(peer, now).0, Claimed(peer, now).1) == u
  {
    FirstPieceIsListed();
    var bits: seq<byte> := [0x80];
    assert t.peers[peer := Some(bits)] == u.peers;
  }

  lemma UnchokedIs(c: Config, u: State, peer: PeerIp, now: int, v: State)
    requires WellFormed(c, u) && u.peers == map[peer := Some([0x80])] && NextPiece(u.pieces, [0]) == Some(0)
    requires 0 in u.pieces && !u.pieces[0].FullyDownloaded()
    requires 0 in u.pieces[0].blocks && !u.pieces[0].blocks[0].IsComplete()
    requires v == Step(c, u, Unchoked(peer, now).0, Unchoked(peer, now).1)
    ensures PossibleEnv(u, Unchoked(peer, now).0, Unchoked(peer, now).1)
    ensures v.sent == u.sent + [Sent(peer, RequestBlock(0, 0, u.pieces[0].blocks[0].length))]
    ensures 0 in v.pieces && 0 in v.pieces[0].blocks && v.pieces[0].blocks[0].state == Requested(peer, now)
  {
    FirstPieceIsListed();
    UnchokeStepIs(c, u, Unchoked(peer, now).0, Unchoked(peer, now).1);
    RequestIsRecorded(u.pieces[0], 0, peer, now);
  }

  lemma ThreeSteps(c: Config, s: State, a: (Action, Env), b: (Action, Env), d: (Action, Env), t: State, u: State)
    requires WellFormed(c, s) && PossibleEnv(s, a.0, a.1) && t == Step(c, s, a.0, a.1)
    requires PossibleEnv(t, b.0, b.1) && u == Step(c, t, b.0, b.1) && PossibleEnv(u, d.0, d.1)
    ensures IsRun(c, s, [] + [a] + [b] + [d]) && After(c, s, [] + [a] + [b] + [d]) == Step(c, u, d.0, d.1)
  {
    OneMoreStep(c, s, [], a.0, a.1);
    OneMoreStep(c, s, [] + [a], b.0, b.1);
    OneMoreStep(c, s, [] + [a] + [b], d.0, d.1);
  }

  /**
   * A peer that joins, claims the first piece and unchokes is sent word of interest and then a request
   * for the first block, which is recorded: from the start such a run is possible with every torrent.
   */
  lemma FirstRequestIsSent(c: Config, disk: Option<Files>, peer: PeerIp, now: int)
    requires Proper(c) && c.hashes != [] && WellFormed(c, Initial(c, disk))
    ensures IsRun(c, Initial(c, disk), FirstSteps(peer, now))
    ensures var t := After(c, Initial(c, disk), FirstSteps(peer, now));
      && t.sent == [Sent(peer, Interested), Sent(peer, RequestBlock(0, 0, Min(c.blockSize, c.pieceLength)))]
      && 0 in t.pieces && 0 in t.pieces[0].blocks && t.pieces[0].blocks[0].state == Requested(peer, now)
  {
    var s := Initial(c, disk);
    var t := s.(peers := map[peer := None]);
    var u := t.(peers := map[peer := Some([0x80])], sent := t.sent + [Sent(peer, Interested)]);
    FirstPieceIsOpen(c, disk);
    JoinedIs(c, s, peer, now, t);
    ClaimedIs(c, t, peer, now, u);
    UnchokedIs(c, u, peer, now, Step(c, u, Unchoked(peer, now).0, Unchoked(peer, now).1));
    ThreeSteps(c, s, Joined(peer, now), Claimed(peer, now), Unchoked(peer, now), t, u);
  }
}
