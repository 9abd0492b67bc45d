/** Blocks (src/core/peer/piece/block.rs): the unit of transfer inside a piece. */
module Blocks {
  import opened Bytes

  type PeerIp = ip: seq<byte> | |ip| == 6 witness [0, 0, 0, 0, 0, 0]

  /** Two minutes; clock readings are integers in nanoseconds. */
  const TIMEOUT: int := 120_000_000_000

  datatype BlockState =
    | Missing
    | Requested(peer: PeerIp, instant: int)
    | Received(data: seq<byte>)
    | Written

  /** The value of a block, with each operation as a function on it. */
  datatype BlockView = BlockView(index: nat, offset: nat, length: nat, state: BlockState) {
    predicate IsComplete() {
      state.Received? || state.Written?
    }

    predicate TimedOut(now: int) {
      state.Requested? && now - state.instant > TIMEOUT
    }

    function Request(peer: PeerIp, now: int): BlockView {
      this.(state := Requested(peer, now))
    }

    function Cancel(): BlockView {
      this.(state := Missing)
    }

    function Reset(now: int): BlockView {
      if TimedOut(now) then Cancel() else this
    }

    function Receive(data: seq<byte>): BlockView {
      if Wrap32(|data|) == length then this.(state := Received(data)) else this
    }
  }

  class Block {
    const index: nat
    const offset: nat
    const length: nat
    var state: BlockState

    ghost function View(): BlockView
      reads this
    {
      BlockView(index, offset, length, state)
    }

    constructor (index: nat, offset: nat, length: nat)
      ensures View() == BlockView(index, offset, length, Missing)
    {
      this.index, this.offset, this.length := index, offset, length;
      state := Missing;
    }

    method RequestFromPeer(peer: PeerIp, now: int)
      modifies this
      ensures View() == old(View()).Request(peer, now)
      ensures state == Requested(peer, now)
    {
      state := Requested(peer, now);
    }

    method Cancel()
      modifies this
      ensures View() == old(View()).Cancel()
      ensures state == Missing
    {
      state := Missing;
    }

    /** Gives up a request older than the timeout and reports the peer it was sent to. */
    method Reset(now: int) returns (peer: Option<PeerIp>)
      modifies this
      ensures View() == old(View()).Reset(now)
      ensures if old(state).Requested? && old(state).instant + 120_000_000_000 < now
        then state == Missing && peer == Some(old(state).peer)
        else state == old(state) && peer == None
    {
      if state.Requested? && now - state.instant > TIMEOUT {
        peer := Some(state.peer);
        Cancel();
      } else {
        peer := None;
      }
    }

    method ReceiveData(data: seq<byte>)
      modifies this
      ensures View() == old(View()).Receive(data)
      ensures state == if Wrap32(|data|) == length then Received(data) else old(state)
    {
      if Wrap32(|data|) == length {
        state := Received(data);
      }
    }

    predicate IsComplete()
      reads this
      ensures IsComplete() == View().IsComplete()
    {
      state.Received? || state.Written?
    }
  }
}
