/**
 * The download manager as an object (src/core/peer/download_manager.rs): each handler changes the
 * state in place, by one of the steps of the state machine.
 */
module DownloadManagers {
  import opened Bytes
  import opened Blocks
  import opened Pieces
  import opened PieceManagers
  import opened Bitfields
  import opened Disk
  import PieceStore
  import opened DiskDriver
  import opened Downloads

  lemma ListedGrows(bits: seq<byte>, byteIndex: nat, bitIndex: nat)
    requires byteIndex < |bits| && bitIndex < 8
    ensures Listed(bits, 8 * byteIndex + bitIndex + 1)
      == Listed(bits, 8 * byteIndex + bitIndex)
       + (if HasBit(bits[byteIndex], 7 - bitIndex) then [Wrap32(8 * byteIndex + bitIndex)] else [])
  {
    var j := 8 * byteIndex + bitIndex;
    assert j / 8 == byteIndex && j % 8 == bitIndex;
  }

  function InterestIn(s: State, peer: PeerIp): State {
    if NextPiece(s.pieces, Listing(s, peer)).Some? then Send(s, peer, Interested) else s
  }

  lemma BitfieldHandled(s: State, known: State, peer: PeerIp, bits: seq<byte>, t: State)
    requires known == if peer in s.peers then s.(peers := s.peers[peer := Some(bits)]) else s
    requires t == InterestIn(known, peer)
    ensures t == Downloads.HandleBitfield(s, peer, bits)
  {
  }

  ghost predicate PickIsIn(p: PieceView, block: nat) {
    !p.FullyDownloaded() ==> block in p.blocks && !p.blocks[block].IsComplete()
  }

  lemma HavesGrow(order: seq<PeerIp>, peer: PeerIp, i: u32)
    ensures HavesFor(order + [peer], i) == HavesFor(order, i) + [Sent(peer, HavePiece(i))]
  {
  }

  lemma EnumeratesOneMore(order: seq<PeerIp>, peers: set<PeerIp>, peer: PeerIp)
    requires Enumerates(order, peers) && peer !in peers
    ensures Enumerates(order + [peer], peers + {peer})
  {
  }

  lemma RequestedIs(s: State, peer: PeerIp, i: u32, env: Env, length: nat, t: State)
    requires i in s.pieces && env.block in s.pieces[i].blocks && !s.pieces[i].blocks[env.block].IsComplete()
    requires length == s.pieces[i].blocks[env.block].length
    requires t == Send(s.(pieces := s.pieces[i := s.pieces[i].Request(env.block, peer, env.now)]), peer,
                       RequestBlock(i, Wrap32(env.block), length))
    ensures t == RequestNextBlock(s, peer, i, env)
  {
  }

  /** The download is not complete after the first m steps. */
  ghost predicate UnfinishedAt(c: Config, s: State, steps: seq<(Action, Env)>, m: nat)
    requires WellFormed(c, s) && m <= |steps|
  {
    !AllComplete(After(c, s, steps[..m]).pieces)
  }

  /** The download is not complete after any of the first n steps. */
  ghost predicate Unfinished(c: Config, s: State, steps: seq<(Action, Env)>, n: nat)
    requires WellFormed(c, s) && n <= |steps|
  {
    forall m :: 0 < m <= n ==> UnfinishedAt(c, s, steps, m)
  }

  lemma UnfinishedInPrefix(c: Config, s: State, steps: seq<(Action, Env)>, more: seq<(Action, Env)>, m: nat)
    requires WellFormed(c, s) && m <= |steps| && steps <= more && UnfinishedAt(c, s, steps, m)
    ensures UnfinishedAt(c, s, more, m)
  {
    assert more[..m] == steps[..m];
  }

  lemma StillUnfinished(c: Config, s: State, steps: seq<(Action, Env)>, more: seq<(Action, Env)>)
    requires WellFormed(c, s) && Unfinished(c, s, steps, |steps|) && steps <= more && |more| == |steps| + 1
    ensures Unfinished(c, s, more, |steps|)
  {
    forall m | 0 < m <= |steps| ensures UnfinishedAt(c, s, more, m) {
      UnfinishedInPrefix(c, s, steps, more, m);
    }
  }

  lemma UnfinishedNow(c: Config, s: State, steps: seq<(Action, Env)>)
    requires WellFormed(c, s) && steps != [] && Unfinished(c, s, steps, |steps| - 1)
    ensures !AllComplete(After(c, s, steps).pieces) ==> Unfinished(c, s, steps, |steps|)
  {
    assert steps[..|steps|] == steps;
  }

  /** The steps deliver the events, in order. */
  ghost predicate Delivers(steps: seq<(Action, Env)>, events: seq<(PeerEvent, PeerIp)>) {
    |steps| <= |events| && forall k :: 0 <= k < |steps| ==> steps[k].0 == Deliver(events[k].0, events[k].1)
  }

  lemma OneMoreDelivered(steps: seq<(Action, Env)>, more: seq<(Action, Env)>, events: seq<(PeerEvent, PeerIp)>)
    requires Delivers(steps, events) && |steps| < |events| && steps <= more && |more| == |steps| + 1
    requires more[|steps|].0 == Deliver(events[|steps|].0, events[|steps|].1)
    ensures Delivers(more, events)
  {
  }

  ghost function SomeOrder(peers: set<PeerIp>): (order: seq<PeerIp>)
    ensures Enumerates(order, peers)
  {
    if peers == {} then []
    else
      var p :| p in peers;
      EnumeratesOneMore(SomeOrder(peers - {p}), peers - {p}, p);
      assert peers - {p} + {p} == peers;
      SomeOrder(peers - {p}) + [p]
  }

  /** A write with its outcome, the mark and the announcements together are the step's storing part. */
  lemma StoredIs(c: Config, s: State, i: u32, data: seq<byte>, env: Env, ok: bool, stored: nat, now: Files, t: State)
    requires WellFormed(c, s) && s.disk.Some? && i in s.pieces && s.pieces[i].IsComplete()
    requires s.pieces[i].Data() == Some(data) && env.io == if ok then Works else Fails(stored)
    requires stored <= |data| && (ok ==> stored == |data|)
    requires if c.disk.Offset(i) < c.disk.Total() then Some(now) == PieceStore.WritePiece(c.disk, s.disk.value, i, data[..stored])
      else !ok && now == s.disk.value
    requires t == if ok then
        s.(disk := Some(now), pieces := s.pieces[i := s.pieces[i].MarkWritten()], sent := s.sent + HavesFor(env.order, i))
      else s.(disk := Some(now))
    ensures t == StorePiece(c, s, i, env)
  {
    assert data[..|data|] == data;
  }

  lemma BlockKeepsWellFormed(c: Config, s: State, i: u32, begin: nat, block: seq<byte>)
    requires WellFormed(c, s) && i in s.pieces
    ensures WellFormed(c, WithBlock(c, s, i, begin, block))
  {
    ReceiveKeepsWellCut(s.pieces[i], c.sha1, begin, block);
  }

  /** Both halves of the handler together. */
  lemma ReceivedIs(c: Config, was: State, mid: State, t: State, i: u32, begin: nat, block: seq<byte>, env: Env)
    requires WellFormed(c, was) && WellFormed(c, mid)
    requires if i in was.pieces then mid == WithBlock(c, was, i, begin, block) else mid == was
    requires if i in mid.pieces then t == StorePiece(c, mid, i, env) else t == mid
    ensures t == HandleReceivedPiece(c, was, i, begin, block, env)
  {
  }

  /** Without a disk, data or a complete piece nothing is stored. */
  lemma NothingStored(c: Config, s: State, i: u32, env: Env)
    requires WellFormed(c, s) && i in s.pieces
    requires !s.pieces[i].IsComplete() || s.disk.None? || s.pieces[i].Data().None?
    ensures StorePiece(c, s, i, env) == s
  {
  }

  lemma EnvIsPossible(s: State, action: Action, env: Env)
    requires Enumerates(env.order, s.peers.Keys) && !(action.Deliver? && action.event.PeerUnchoked?)
    ensures PossibleEnv(s, action, env)
  {
  }

  lemma PickIsPossible(s: State, peer: PeerIp, env: Env)
    requires Enumerates(env.order, s.peers.Keys) && PickIsOpen(s, peer, env.block)
    ensures PossibleEnv(s, Deliver(PeerUnchoked, peer), env)
  {
  }

  class DownloadManager {
    ghost const config: Config
    const pieceManager: PieceManager
    var peers: map<PeerIp, Option<seq<byte>>>
    var diskIo: DiskIO?
    /** The commands handed to the connections, oldest first. */
    var sent: seq<Sent>

    ghost function Files(): seq<DiskFile>
      reads this`diskIo
    {
      if diskIo == null then [] else diskIo.files
    }

    ghost predicate Valid()
      reads this, Files()
    {
      && pieceManager.Valid() && pieceManager.sha1 == config.sha1
      && (diskIo != null ==> diskIo.Valid() && diskIo.g == config.disk)
    }

    ghost function View(): State
      reads this, pieceManager.Owned(), Files()
    {
      State(pieceManager.View(), peers, if diskIo == null then None else Some(diskIo.Contents()), sent)
    }

    lemma ViewIsWellFormed()
      requires Valid()
      ensures WellFormed(config, View())
    {
      forall i | i in View().pieces ensures View().pieces[i].WellCut() {
        assert PieceIsMade(pieceManager.pieces[i], i);
      }
    }

    constructor (ghost config: Config, sha1: Hasher, pieceLength: nat, hashes: seq<Digest>, blockSize: nat)
      requires CanBeCut(pieceLength, blockSize) && |hashes| <= U32_RANGE
      requires config.sha1 == sha1 && config.pieceLength == pieceLength && config.hashes == hashes
      requires config.blockSize == blockSize
      ensures Valid() && this.config == config && fresh(pieceManager.Owned()) && diskIo == null
      ensures View() == Initial(config, None)
    {
      var manager := new PieceManager(sha1, pieceLength, hashes, blockSize);
      this.config, pieceManager := config, manager;
      peers, diskIo, sent := map[], null, [];
    }

    /** Sets the disk the pieces are written to. */
    method SetDiskIo(disk: DiskIO)
      requires Valid() && disk.Valid() && disk.g == config.disk
      modifies `diskIo
      ensures Valid() && diskIo == disk
      ensures View() == old(View()).(disk := Some(disk.Contents()))
    {
      diskIo := disk;
    }

    /** Registers a peer, as one step. */
    method AddPeer(peer: PeerIp) returns (ghost env: Env)
      requires Valid()
      modifies `peers
      ensures Valid() && peers == old(peers)[peer := None] && WellFormed(config, old(View()))
      ensures View() == Step(config, old(View()), Action.AddPeer(peer), env)
      ensures PossibleEnv(old(View()), Action.AddPeer(peer), env)
    {
      ViewIsWellFormed();
      env := Env(0, 0, Works, SomeOrder(peers.Keys));
      EnvIsPossible(View(), Action.AddPeer(peer), env);
      peers := peers[peer := None];
    }

    /** Drops a peer, as one step. */
    method RemovePeer(peer: PeerIp) returns (ghost env: Env)
      requires Valid()
      modifies `peers
      ensures Valid() && View() == old(View()).(peers := old(peers) - {peer}) && WellFormed(config, old(View()))
      ensures View() == Step(config, old(View()), Action.RemovePeer(peer), env)
      ensures PossibleEnv(old(View()), Action.RemovePeer(peer), env)
    {
      ViewIsWellFormed();
      env := Env(0, 0, Works, SomeOrder(peers.Keys));
      EnvIsPossible(View(), Action.RemovePeer(peer), env);
      peers := peers - {peer};
    }

    /** The pieces of one byte of a bitfield, from the high bit down. */
    static method ListByte(bits: seq<byte>, byteIndex: nat, before: seq<u32>) returns (available: seq<u32>)
      requires byteIndex < |bits| && before == Listed(bits, 8 * byteIndex)
      ensures available == Listed(bits, 8 * byteIndex + 8)
    {
      available := before;
      var bitIndex := 0;
      while bitIndex < 8
        invariant 0 <= bitIndex <= 8 && available == Listed(bits, 8 * byteIndex + bitIndex)
      {
        ListedGrows(bits, byteIndex, bitIndex);
        if HasBit(bits[byteIndex], 7 - bitIndex) {
          available := available + [Wrap32(8 * byteIndex + bitIndex)];
        }
        bitIndex := bitIndex + 1;
      }
    }

    /** The pieces a peer claims, byte by byte; none when no bitfield is known. */
    method GetPeerAvailablePieces(peer: PeerIp) returns (available: seq<u32>)
      ensures available == Listing(View(), peer)
    {
      available := [];
      if peer in peers && peers[peer].Some? {
        var bits := peers[peer].value;
        var byteIndex := 0;
        while byteIndex < |bits|
          invariant 0 <= byteIndex <= |bits| && available == Listed(bits, 8 * byteIndex)
        {
          available := ListByte(bits, byteIndex, available);
          byteIndex := byteIndex + 1;
        }
      }
    }

    method PeerHasNeededPieces(peer: PeerIp) returns (r: bool)
      requires Valid()
      ensures r == NextPiece(View().pieces, Listing(View(), peer)).Some?
    {
      var available := GetPeerAvailablePieces(peer);
      var next := pieceManager.GetNextPieceToDownload(available);
      r := next.Some?;
    }

    /** Hands a command to the connection of a peer, if the peer is still registered. */
    method SendTo(peer: PeerIp, command: Command)
      requires Valid()
      modifies `sent
      ensures Valid() && View() == Send(old(View()), peer, command)
    {
      if peer in peers {
        sent := sent + [Sent(peer, command)];
      }
    }

    method HandleBitfield(peer: PeerIp, bits: seq<byte>)
      requires Valid()
      modifies `peers, `sent
      ensures Valid() && View() == Downloads.HandleBitfield(old(View()), peer, bits)
    {
      if peer in peers {
        peers := peers[peer := Some(bits)];
      }
      ghost var known := View();
      DeclareInterest(peer);
      BitfieldHandled(old(View()), known, peer, bits, View());
    }

    method DeclareInterest(peer: PeerIp)
      requires Valid()
      modifies `sent
      ensures Valid() && View() == InterestIn(old(View()), peer)
    {
      var needed := PeerHasNeededPieces(peer);
      assert View() == old(View());
      if needed {
        SendTo(peer, Interested);
      }
    }

    method HandleHave(peer: PeerIp, index: u32)
      requires Valid()
      modifies `peers
      ensures Valid() && View() == Downloads.HandleHave(old(View()), peer, index)
    {
      if peer in peers {
        if peers[peer].Some? {
          var bits: seq<byte> := peers[peer].value;
          var byteIndex, bitIndex := index / 8, 7 - index % 8;
          if byteIndex < Wrap32(|bits|) {
            bits := bits[byteIndex := WithBit(bits[byteIndex], bitIndex)];
          }
          peers := peers[peer := Some(bits)];
        }
      }
    }

    /** Asks the peer for some block of the piece that is not complete; `env` tells which one it was. */
    method RequestNextBlockForPiece(peer: PeerIp, i: u32, now: int) returns (ghost env: Env)
      requires Valid() && i in View().pieces
      modifies pieceManager.Owned(), `sent
      ensures Valid() && View() == RequestNextBlock(old(View()), peer, i, env)
      ensures PickIsIn(old(View()).pieces[i], env.block) && Enumerates(env.order, peers.Keys)
    {
      ghost var was := View();
      env := Env(now, 0, Works, SomeOrder(peers.Keys));
      var next := pieceManager.GetNextBlockForPiece(i);
      if next.Some? {
        var (offset, length) := next.value;
        env := Env(now, offset, Works, SomeOrder(peers.Keys));
        RequestAndSend(i, offset, length, peer, now);
        RequestedIs(was, peer, i, env, length, View());
      }
    }

    method RequestAndSend(i: u32, offset: nat, length: nat, peer: PeerIp, now: int)
      requires Valid() && i in View().pieces
      modifies pieceManager.Owned(), `sent
      ensures Valid()
      ensures View() == Send(old(View()).(
        pieces := old(View()).pieces[i := old(View()).pieces[i].Request(offset, peer, now)]), peer,
        RequestBlock(i, Wrap32(offset), length))
    {
      ghost var was := View();
      pieceManager.RequestBlock(i, offset, peer, now);
      assert View() == was.(pieces := was.pieces[i := was.pieces[i].Request(offset, peer, now)]);
      SendTo(peer, RequestBlock(i, Wrap32(offset), length));
    }

    method RequestPiecesFromPeer(peer: PeerIp, now: int) returns (ghost env: Env)
      requires Valid()
      modifies pieceManager.Owned(), `sent
      ensures Valid() && View() == Downloads.HandleUnchoke(old(View()), peer, env)
      ensures PickIsOpen(old(View()), peer, env.block) && Enumerates(env.order, peers.Keys)
    {
      ghost var was := View();
      env := Env(now, 0, Works, SomeOrder(peers.Keys));
      var available := GetPeerAvailablePieces(peer);
      var next := pieceManager.GetNextPieceToDownload(available);
      assert View() == was;
      NextPieceIsThere(was.pieces, available);
      if next.Some? {
        env := RequestNextBlockForPiece(peer, next.value, now);
      }
    }

    method HandleUnchoke(peer: PeerIp, now: int) returns (ghost env: Env)
      requires Valid()
      modifies pieceManager.Owned(), `sent
      ensures Valid() && View() == Downloads.HandleUnchoke(old(View()), peer, env)
      ensures PickIsOpen(old(View()), peer, env.block) && Enumerates(env.order, peers.Keys)
    {
      env := RequestPiecesFromPeer(peer, now);
    }

    /** Announces a piece to every peer, in whatever order the map gives them. */
    method BroadcastHave(i: u32) returns (ghost order: seq<PeerIp>)
      requires Valid()
      modifies `sent
      ensures Valid() && Enumerates(order, peers.Keys)
      ensures View() == old(View()).(sent := old(sent) + HavesFor(order, i))
    {
      order := [];
      var rest := peers.Keys;
      while rest != {}
        invariant rest <= peers.Keys && Valid()
        invariant Enumerates(order, peers.Keys - rest)
        invariant sent == old(sent) + HavesFor(order, i)
        decreases rest
      {
        var peer :| peer in rest;
        HavesGrow(order, peer, i);
        sent := sent + [Sent(peer, HavePiece(i))];
        EnumeratesOneMore(order, peers.Keys - rest, peer);
        order := order + [peer];
        rest := rest - {peer};
      }
      assert peers.Keys - rest == peers.Keys;
    }

    /** The first half of the handler: hands the block to the piece manager. */
    method StoreBlock(i: u32, begin: nat, block: seq<byte>) returns (complete: bool)
      requires Valid()
      modifies pieceManager.Owned()
      ensures Valid() && WellFormed(config, old(View())) && WellFormed(config, View())
      ensures i in old(View()).pieces ==> View() == WithBlock(config, old(View()), i, begin, block)
      ensures i !in old(View()).pieces ==> View() == old(View())
      ensures complete == (i in View().pieces && View().pieces[i].IsComplete())
    {
      ViewIsWellFormed();
      ghost var was := View();
      complete := pieceManager.ReceiveBlock(i, begin, block);
      assert View().disk == was.disk;
      if i in was.pieces {
        BlockKeepsWellFormed(config, was, i, begin, block);
      }
    }

    /** Stores a block; a piece that is complete is written, marked and announced. */
    method HandleReceivePiece(peer: PeerIp, i: u32, begin: nat, block: seq<byte>, now: int) returns (ghost env: Env)
      requires Valid()
      modifies pieceManager.Owned(), Files(), `sent
      ensures Valid() && diskIo == old(diskIo) && WellFormed(config, old(View()))
      ensures View() == HandleReceivedPiece(config, old(View()), i, begin, block, env)
      ensures Enumerates(env.order, peers.Keys)
    {
      ghost var was := View();
      var complete := StoreBlock(i, begin, block);
      ghost var mid := View();
      env := StoreIfComplete(i, complete, mid, now);
      ReceivedIs(config, was, mid, View(), i, begin, block, env);
    }

    /** The second half of the handler: nothing unless the piece is complete and there is a disk. */
    method StoreIfComplete(i: u32, complete: bool, ghost was: State, now: int) returns (ghost env: Env)
      requires Valid() && was == View() && WellFormed(config, was)
      requires complete == (i in was.pieces && was.pieces[i].IsComplete())
      modifies pieceManager.Owned(), Files(), `sent
      ensures Valid() && diskIo == old(diskIo)
      ensures if i in was.pieces then View() == StorePiece(config, was, i, env) else View() == was
      ensures Enumerates(env.order, peers.Keys)
    {
      env := Env(now, 0, Works, SomeOrder(peers.Keys));
      if complete && diskIo != null {
        var data := pieceManager.GetPieceData(i);
        if data.Some? {
          env := StoreAndAnnounce(i, data.value, was, now);
          return;
        }
      }
      if i in pieceManager.pieces {
        NothingStored(config, was, i, env);
      }
    }

    /** The writing, marking and announcing of a complete piece with its data. */
    method StoreAndAnnounce(i: u32, data: seq<byte>, ghost was: State, now: int) returns (ghost env: Env)
      requires Valid() && diskIo != null && was == View() && WellFormed(config, was)
      requires i in was.pieces && was.pieces[i].IsComplete() && was.pieces[i].Data() == Some(data)
      modifies pieceManager.Owned(), Files(), `sent
      ensures Valid() && diskIo == old(diskIo)
      ensures View() == StorePiece(config, was, i, env)
      ensures Enumerates(env.order, peers.Keys)
    {
      ghost var order := SomeOrder(peers.Keys);
      var ok, stored := WriteToDisk(i, data);
      ghost var disk := View().disk.value;
      if ok {
        order := MarkAndAnnounce(i);
      }
      env := Env(now, 0, if ok then Works else Fails(stored), order);
      StoredIs(config, was, i, data, env, ok, stored, disk, View());
    }

    method WriteToDisk(i: u32, data: seq<byte>) returns (ok: bool, ghost stored: nat)
      requires Valid() && diskIo != null
      modifies Files()
      ensures Valid() && diskIo == old(diskIo)
      ensures stored <= |data| && (ok ==> stored == |data|)
      ensures View() == old(View()).(disk := Some(diskIo.Contents()))
      ensures config.disk.Offset(i) < config.disk.Total() ==>
        View().disk == PieceStore.WritePiece(config.disk, old(diskIo.Contents()), i, data[..stored])
      ensures config.disk.Offset(i) >= config.disk.Total() ==> !ok && View() == old(View())
    {
      ghost var was := View();
      ok, stored := diskIo.WritePiece(i, data);
      assert pieceManager.View() == was.pieces;
    }

    method MarkAndAnnounce(i: u32) returns (ghost order: seq<PeerIp>)
      requires Valid() && i in View().pieces
      modifies pieceManager.Owned(), `sent
      ensures Valid() && Enumerates(order, peers.Keys)
      ensures View() == old(View()).(
        pieces := old(View()).pieces[i := old(View()).pieces[i].MarkWritten()], sent := old(sent) + HavesFor(order, i))
    {
      pieceManager.MarkPieceWritten(i);
      assert View() == old(View()).(pieces := old(View()).pieces[i := old(View()).pieces[i].MarkWritten()]);
      order := BroadcastHave(i);
    }

    /** The events that leave the pieces and the disk alone. */
    method ProcessPeerEvent(event: PeerEvent, peer: PeerIp) returns (ghost env: Env)
      requires Valid() && !event.PeerUnchoked? && !event.ReceivedPiece?
      modifies `peers, `sent
      ensures Valid() && diskIo == old(diskIo) && WellFormed(config, old(View()))
      ensures View() == Step(config, old(View()), Deliver(event, peer), env)
      ensures PossibleEnv(old(View()), Deliver(event, peer), env)
    {
      ViewIsWellFormed();
      env := Env(0, 0, Works, SomeOrder(peers.Keys));
      EnvIsPossible(View(), Deliver(event, peer), env);
      match event {
        case ReceivedBitfield(bits) => HandleBitfield(peer, bits);
        case ReceivedHave(index) => HandleHave(peer, index);
        case PeerDisconnected =>
          ghost var _ := RemovePeer(peer);
        case _ =>
      }
    }

    /** Handles one event, as one step. */
    method Process(event: PeerEvent, peer: PeerIp) returns (ghost env: Env)
      requires Valid()
      modifies this`peers, this`sent, pieceManager.Owned(), Files()
      ensures Valid() && diskIo == old(diskIo) && WellFormed(config, old(View()))
      ensures View() == Step(config, old(View()), Deliver(event, peer), env)
      ensures PossibleEnv(old(View()), Deliver(event, peer), env)
    {
      ViewIsWellFormed();
      ghost var was := View();
      var now: int := *;
      match event {
        case PeerUnchoked =>
          env := HandleUnchoke(peer, now);
          PickIsPossible(was, peer, env);
          UnchokeStepIs(config, was, Deliver(event, peer), env);
        case ReceivedPiece(index, begin, block) =>
          env := HandleReceivePiece(peer, index, begin, block, now);
          EnvIsPossible(was, Deliver(event, peer), env);
          BlockStepIs(config, was, Deliver(event, peer), env);
        case _ =>
          env := ProcessPeerEvent(event, peer);
      }
    }

    /** Handles one more event of a run that began in the state `was`. */
    method ProcessNext(event: PeerEvent, peer: PeerIp, ghost was: State, ghost steps: seq<(Action, Env)>)
      returns (ghost more: seq<(Action, Env)>)
      requires Valid() && WellFormed(config, was) && IsRun(config, was, steps) && View() == After(config, was, steps)
      modifies this`peers, this`sent, pieceManager.Owned(), Files()
      ensures Valid() && diskIo == old(diskIo)
      ensures steps <= more && |more| == |steps| + 1 && more[|steps|].0 == Deliver(event, peer)
      ensures IsRun(config, was, more) && View() == After(config, was, more)
    {
      ghost var env := Process(event, peer);
      OneMoreStep(config, was, steps, Deliver(event, peer), env);
      more := steps + [(Deliver(event, peer), env)];
    }

    /**
     * The event loop, over the events that arrive: it stops after the first one that leaves the
     * download complete, or has handled them all.
     */
    method Run(events: seq<(PeerEvent, PeerIp)>) returns (ghost steps: seq<(Action, Env)>)
      requires Valid()
      modifies this`peers, this`sent, pieceManager.Owned(), Files()
      ensures Valid() && WellFormed(config, old(View()))
      ensures Delivers(steps, events) && IsRun(config, old(View()), steps)
      ensures View() == After(config, old(View()), steps)
      ensures |steps| < |events| ==> AllComplete(View().pieces)
      ensures steps != [] ==> Unfinished(config, old(View()), steps, |steps| - 1)
    {
      ViewIsWellFormed();
      ghost var was := View();
      steps := [];
      var n := 0;
      while n < |events|
        invariant Valid() && diskIo == old(diskIo)
        invariant n == |steps| <= |events| && Delivers(steps, events)
        invariant IsRun(config, was, steps) && View() == After(config, was, steps)
        invariant Unfinished(config, was, steps, n)
      {
        ghost var before := steps;
        steps := ProcessNext(events[n].0, events[n].1, was, before);
        OneMoreDelivered(before, steps, events);
        StillUnfinished(config, was, before, steps);
        UnfinishedNow(config, was, steps);
        n := n + 1;
        if pieceManager.IsDownloadComplete() {
          return;
        }
      }
    }
  }
}
