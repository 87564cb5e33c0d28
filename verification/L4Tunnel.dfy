/** Reading a tunnel's reply stream: one status byte, then the payload, with no
    byte lost between the two (crates/nexapipe-client/src/l4.rs, `TunnelReader`). */
module L4Tunnel {
  import opened Wrappers
  import opened Bytes

  const STATUS_READ: nat := 4096

  /** A stream that delivers its bytes in the pieces they arrive in. */
  class RecvStream {
    var pieces: seq<seq<byte>>

    ghost predicate Valid()
      reads this
    {
      forall i :: 0 <= i < |pieces| ==> pieces[i] != []
    }

    function Rest(): seq<byte>
      reads this
    {
      Concat(pieces)
    }

    constructor (pieces: seq<seq<byte>>)
      requires forall i :: 0 <= i < |pieces| ==> pieces[i] != []
      ensures this.pieces == pieces && Valid() && Rest() == Concat(pieces)
    {
      this.pieces := pieces;
    }

    /** At most `limit` bytes of what has arrived; nothing at the end of the stream. */
    method Read(limit: nat) returns (r: Option<seq<byte>>)
      requires Valid()
      modifies this
      ensures Valid()
      ensures r.None? <==> old(Rest()) == []
      ensures r.None? ==> Rest() == []
      ensures r.Some? ==> |r.value| <= limit && r.value + Rest() == old(Rest())
      ensures r.Some? && limit > 0 ==> r.value != []
    {
      if pieces == [] {
        return None;
      }
      var piece := pieces[0];
      var n := if limit < |piece| then limit else |piece|;
      r := Some(piece[..n]);
      assert piece + Concat(pieces[1..]) == piece[..n] + (piece[n..] + Concat(pieces[1..]));
      if n < |piece| {
        pieces := [piece[n..]] + pieces[1..];
      } else {
        assert piece[n..] + Concat(pieces[1..]) == Concat(pieces[1..]);
        pieces := pieces[1..];
      }
    }
  }

  class TunnelReader {
    const recv: RecvStream
    var leftover: seq<byte>
    var offset: nat

    ghost predicate Valid()
      reads this, recv
    {
      offset <= |leftover| && recv.Valid()
    }

    /** The bytes still to be handed to the caller. */
    function Unread(): seq<byte>
      requires Valid()
      reads this, recv
    {
      leftover[offset..] + recv.Rest()
    }

    constructor (recv: RecvStream)
      requires recv.Valid()
      ensures Valid() && this.recv == recv && offset == 0 && leftover == []
      ensures Unread() == recv.Rest()
    {
      this.recv, leftover, offset := recv, [], 0;
    }

    /** Takes the status byte off the front of the stream and keeps every byte
        that came with it. There is no status when the stream is already over. */
    method ReadStatus() returns (status: Option<byte>)
      requires Valid() && offset == 0 && leftover == []
      modifies this, recv
      ensures Valid()
      ensures old(Unread()) == [] <==> status.None?
      ensures status.Some? ==> [status.value] + Unread() == old(Unread())
      ensures status.None? ==> Unread() == []
    {
      var buf := recv.Read(STATUS_READ);
      if buf.None? {
        return None;
      }
      var got := buf.value;
      status := Some(got[0]);
      assert [got[0]] + (got[1..] + recv.Rest()) == got + recv.Rest();
      leftover := leftover + got[1..];
    }

    /** Fills the front of the caller's buffer with the next bytes. */
    method Read(buf: array<byte>) returns (n: Option<nat>)
      requires Valid()
      modifies this, recv, buf
      ensures Valid()
      ensures n.None? <==> old(Unread()) == []
      ensures n.None? ==> Unread() == []
      ensures n.Some? ==> n.value <= buf.Length && buf[..n.value] + Unread() == old(Unread())
      ensures n.Some? && buf.Length > 0 ==> n.value > 0
    {
      if offset < |leftover| {
        var k := if buf.Length < |leftover| - offset then buf.Length else |leftover| - offset;
        forall i | 0 <= i < k {
          buf[i] := leftover[offset + i];
        }
        assert buf[..k] == leftover[offset..offset + k];
        assert leftover[offset..] == leftover[offset..offset + k] + leftover[offset + k..];
        offset := offset + k;
        return Some(k);
      }
      assert leftover[offset..] == [];
      var got := recv.Read(buf.Length);
      if got.None? {
        return None;
      }
      forall i | 0 <= i < |got.value| {
        buf[i] := got.value[i];
      }
      assert buf[..|got.value|] == got.value;
      n := Some(|got.value|);
    }
  }

  lemma AppendMoves(p: seq<byte>, a: seq<byte>, b: seq<byte>, ab: seq<byte>)
    requires a + b == ab
    ensures (p + a) + b == p + ab
  {
  }

  predicate AllPositive(sizes: seq<nat>) {
    forall i :: 0 <= i < |sizes| ==> sizes[i] > 0
  }

  /** However the stream arrives and whatever buffers it is read with, the reads
      after the status yield the stream after its first byte: a prefix of it
      while reads go on, and all of it once the end is reported. With room in
      every buffer the end is reported after as many reads as there are bytes. */
  method ReadAll(pieces: seq<seq<byte>>, sizes: seq<nat>)
    returns (status: Option<byte>, payload: seq<byte>, ended: bool)
    requires forall i :: 0 <= i < |pieces| ==> pieces[i] != []
    ensures status.Some? <==> Concat(pieces) != []
    ensures status.Some? ==> status.value == Concat(pieces)[0] && payload <= Concat(pieces)[1..]
    ensures status.Some? && ended ==> payload == Concat(pieces)[1..]
    ensures status.Some? && |sizes| >= |Concat(pieces)| && AllPositive(sizes) ==> ended
  {
    hide Concat, RecvStream.Rest;
    var recv := new RecvStream(pieces);
    var reader := new TunnelReader(recv);
    payload, ended := [], false;
    status := reader.ReadStatus();
    if status.None? {
      return;
    }
    ghost var all := Concat(pieces)[1..];
    for i := 0 to |sizes|
      invariant fresh(reader) && fresh(reader.recv) && reader.Valid()
      invariant payload + reader.Unread() == all
      invariant AllPositive(sizes) ==> |payload| >= i
    {
      ghost var unread := reader.Unread();
      var buf := new byte[sizes[i]](_ => 0);
      var n := reader.Read(buf);
      if n.None? {
        ended := true;
        break;
      }
      AppendMoves(payload, buf[..n.value], reader.Unread(), unread);
      payload := payload + buf[..n.value];
    }
  }
}
