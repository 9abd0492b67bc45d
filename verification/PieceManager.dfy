/** The pieces of a torrent (src/core/peer/piece/piece_manager.rs). */
module PieceManagers {
  import opened Bytes
  import opened Blocks
  import opened Pieces

  type PieceMap = map<u32, PieceView>

  function NewPieces(length: nat, hashes: seq<Digest>, blockSize: nat): PieceMap
    requires CanBeCut(length, blockSize) && |hashes| <= U32_RANGE
  {
    map i: u32 | 0 <= i < |hashes| :: NewPiece(i, length, hashes[i], blockSize)
  }

  /** The first listed piece that is still needed. */
  function NextPiece(pieces: PieceMap, available: seq<u32>): Option<u32> {
    if available == [] then None
    else if available[0] in pieces && pieces[available[0]].IsNeeded() then Some(available[0])
    else NextPiece(pieces, available[1..])
  }

  /** `IsNeeded` for a piece index; false for an index without a piece. */
  predicate Needed(pieces: PieceMap, i: u32) {
    i in pieces && pieces[i].IsNeeded()
  }

  lemma {:induction false} NextPieceIsThere(pieces: PieceMap, available: seq<u32>)
    ensures var r := NextPiece(pieces, available);
      r.Some? ==> r.value in available && Needed(pieces, r.value)
  {
    if available != [] && !Needed(pieces, available[0]) {
      NextPieceIsThere(pieces, available[1..]);
    }
  }

  lemma {:induction false} NextPieceMeets(pieces: PieceMap, available: seq<u32>)
    ensures NextPiece(pieces, available).Some? <==> exists i :: i in available && Needed(pieces, i)
  {
    NextPieceIsThere(pieces, available);
    if available != [] {
      NextPieceMeets(pieces, available[1..]);
      assert forall i :: i in available ==> i == available[0] || i in available[1..];
    }
  }

  /** On an ordered list the piece selected is the lowest that is listed and needed; None if there is none. */
  lemma {:induction false} NextPieceIsLowest(pieces: PieceMap, available: seq<u32>)
    requires forall a, b :: 0 <= a < b < |available| ==> available[a] < available[b]
    ensures var r := NextPiece(pieces, available);
      match r
      case Some(i) => i in available && Needed(pieces, i) && forall j :: j in available && Needed(pieces, j) ==> i <= j
      case None => forall j :: j in available ==> !Needed(pieces, j)
  {
    if available != [] && !Needed(pieces, available[0]) {
      NextPieceIsLowest(pieces, available[1..]);
      assert forall j :: j in available ==> j == available[0] || j in available[1..];
    }
  }

  ghost predicate AllComplete(pieces: PieceMap) {
    forall i :: i in pieces ==> pieces[i].IsComplete()
  }

  /** The index a piece and its blocks carry is its key; so no two pieces share an object. */
  ghost predicate PieceIsMade(p: Piece, i: u32) {
    p.Valid() && p.index == i && forall o :: o in p.blocks ==> p.blocks[o].index == i
  }

  ghost function OwnedBy(pieces: map<u32, Piece>): set<object> {
    (set i | i in pieces :: pieces[i] as object) +
    (set i, o | i in pieces && o in pieces[i].blocks :: pieces[i].blocks[o] as object)
  }

  ghost function ViewOf(pieces: map<u32, Piece>): PieceMap
    reads OwnedBy(pieces)
  {
    map i | i in pieces :: pieces[i].View()
  }

  /** Owns its pieces, as each piece owns its blocks. */
  class PieceManager {
    const sha1: Hasher
    const pieces: map<u32, Piece>

    ghost predicate Valid() {
      forall i :: i in pieces ==> PieceIsMade(pieces[i], i)
    }

    ghost function Owned(): set<object> {
      OwnedBy(pieces)
    }

    ghost function View(): PieceMap
      reads Owned()
    {
      ViewOf(pieces)
    }

    /** One piece for each hash, all of the same length. */
    static method MakePieces(pieceLength: nat, hashes: seq<Digest>, blockSize: nat) returns (made: map<u32, Piece>)
      requires CanBeCut(pieceLength, blockSize) && |hashes| <= U32_RANGE
      ensures forall j :: j in made ==> PieceIsMade(made[j], j)
      ensures fresh(OwnedBy(made))
      ensures ViewOf(made) == NewPieces(pieceLength, hashes, blockSize)
    {
      made := map[];
      var i := 0;
      while i < |hashes|
        invariant 0 <= i <= |hashes|
        invariant forall j {:trigger j in made} :: j in made <==> 0 <= j < i
        invariant forall j :: j in made ==> PieceIsMade(made[j], j) && fresh(made[j])
        invariant forall j, o :: j in made && o in made[j].blocks ==> fresh(made[j].blocks[o])
        invariant forall j :: j in made ==> made[j].View() == NewPiece(j, pieceLength, hashes[j], blockSize)
      {
        var piece := new Piece(i, pieceLength, hashes[i], blockSize);
        assert forall o :: o in piece.blocks ==> piece.blocks[o] in piece.blocks.Values;
        made := made[i := piece];
        i := i + 1;
      }
    }

    constructor (sha1: Hasher, pieceLength: nat, hashes: seq<Digest>, blockSize: nat)
      requires CanBeCut(pieceLength, blockSize) && |hashes| <= U32_RANGE
      ensures Valid() && fresh(Owned())
      ensures this.sha1 == sha1 && View() == NewPieces(pieceLength, hashes, blockSize)
    {
      var made := MakePieces(pieceLength, hashes, blockSize);
      this.sha1, pieces := sha1, made;
    }

    method GetNextPieceToDownload(available: seq<u32>) returns (r: Option<u32>)
      requires Valid()
      ensures r == NextPiece(View(), available)
    {
      var k := 0;
      while k < |available|
        invariant 0 <= k <= |available|
        invariant NextPiece(View(), available) == NextPiece(View(), available[k..])
      {
        var i := available[k];
        if i in pieces && (pieces[i].state.Missing? || pieces[i].state.Incomplete?) {
          return Some(i);
        }
        k := k + 1;
      }
      return None;
    }

    /** Offset and length of some block of the piece that is not complete; None if there is none. */
    method GetNextBlockForPiece(i: u32) returns (r: Option<(nat, nat)>)
      requires Valid()
      ensures r.Some? ==> var (offset, length) := r.value;
        i in View() && offset in View()[i].blocks && !View()[i].blocks[offset].IsComplete()
        && length == View()[i].blocks[offset].length
      ensures r.None? ==> i !in View() || View()[i].FullyDownloaded()
    {
      if i in pieces {
        var offset := pieces[i].GetNextMissingBlock();
        if offset.Some? {
          return Some((offset.value, pieces[i].blocks[offset.value].length));
        }
      }
      return None;
    }

    /** Two pieces share nothing, and both are owned. */
    lemma PiecesApart(i: u32, j: u32)
      requires Valid() && i in pieces && j in pieces && j != i
      ensures pieces[j] in Owned() && pieces[j] != pieces[i] && pieces[j].Valid()
      ensures forall o :: o in pieces[j].blocks ==>
        pieces[j].blocks[o] in Owned() && pieces[j].blocks[o] !in pieces[i].blocks.Values
    {
      assert PieceIsMade(pieces[i], i) && PieceIsMade(pieces[j], j);
    }

    /** What happens to piece i leaves every other piece as it is. */
    twostate lemma OthersUnchanged(i: u32)
      requires Valid() && i in pieces
      requires unchanged(Owned() - {pieces[i]} - pieces[i].blocks.Values)
      ensures View() == old(View())[i := pieces[i].View()]
    {
      forall j | j in pieces && j != i ensures pieces[j].View() == old(pieces[j].View()) {
        PiecesApart(i, j);
      }
    }

    method RequestBlock(i: u32, offset: nat, peer: PeerIp, now: int)
      requires Valid()
      modifies Owned()
      ensures View() == if i in old(View()) then old(View())[i := old(View())[i].Request(offset, peer, now)] else old(View())
    {
      if i in pieces {
        pieces[i].RequestFromPeer(offset, peer, now);
        OthersUnchanged(i);
      }
    }

    /** Stores a block; tells whether the piece is complete afterwards. */
    method ReceiveBlock(i: u32, offset: nat, data: seq<byte>) returns (complete: bool)
      requires Valid()
      modifies Owned()
      ensures i in old(View()) ==> old(View())[i].WellCut()
      ensures i in old(View()) ==> View() == old(View())[i := old(View())[i].ReceiveBlock(sha1, offset, data)]
      ensures i in old(View()) ==> complete == View()[i].IsComplete()
      ensures i !in old(View()) ==> View() == old(View()) && !complete
    {
      if i in pieces {
        var _ := pieces[i].ReceiveBlock(sha1, offset, data);
        OthersUnchanged(i);
        complete := pieces[i].IsComplete();
      } else {
        complete := false;
      }
    }

    method MarkPieceWritten(i: u32)
      requires Valid()
      modifies Owned()
      ensures View() == if i in old(View()) then old(View())[i := old(View())[i].MarkWritten()] else old(View())
    {
      if i in pieces {
        pieces[i].MarkWritten();
        OthersUnchanged(i);
      }
    }

    method GetPieceData(i: u32) returns (r: Option<seq<byte>>)
      requires Valid()
      ensures i in View() ==> View()[i].WellCut() && r == View()[i].Data()
      ensures i !in View() ==> r.None?
    {
      if i in pieces {
        r := pieces[i].GetPieceData();
      } else {
        r := None;
      }
    }

    /** The complete pieces, each once, in any order. */
    method GetCompletedPieces() returns (r: seq<u32>)
      requires Valid()
      ensures forall i :: i in r <==> i in View() && View()[i].IsComplete()
      ensures forall a, b :: 0 <= a < b < |r| ==> r[a] != r[b]
    {
      r := [];
      var rest := pieces.Keys;
      while rest != {}
        invariant rest <= pieces.Keys
        invariant forall i :: i in r <==> i in pieces && i !in rest && pieces[i].IsComplete()
        invariant forall a, b :: 0 <= a < b < |r| ==> r[a] != r[b]
        decreases rest
      {
        var i :| i in rest;
        if pieces[i].IsComplete() {
          r := r + [i];
        }
        rest := rest - {i};
      }
    }

    predicate IsDownloadComplete()
      requires Valid()
      reads Owned()
      ensures IsDownloadComplete() == AllComplete(View())
    {
      assert forall i :: i in pieces ==> View()[i] == pieces[i].View();
      forall i | i in pieces :: pieces[i].IsComplete()
    }
  }
}
