/** Datagrams over a byte stream: a 16-bit length in front of every payload
    (crates/nexapipe-proto/src/udp.rs), and the server's loop that takes them
    off the stream again (crates/nexapipe/src/l4/mod.rs). */
module L4Udp {
  import opened Bytes

  const MAX_UDP_PAYLOAD: nat := 65_507
  const FRAME_HEADER_LEN: nat := 2
  const UDP_SEND_BUFFER_BYTES: nat := 4 * 1024
  const UDP_PENDING_BUFFER_BYTES: nat := FRAME_HEADER_LEN + 0xFFFF + UDP_SEND_BUFFER_BYTES

  predicate FitsDatagram(payload: seq<byte>) {
    |payload| <= MAX_UDP_PAYLOAD
  }

  function FrameBytes(payload: seq<byte>): seq<byte>
    requires FitsDatagram(payload)
  {
    U16Bytes(|payload|) + payload
  }

  /** Appends one datagram to `out`, or refuses it and leaves `out` alone. */
  method EncodeFrame(payload: seq<byte>, out: Buffer) returns (ok: bool)
    modifies out
    ensures ok <==> FitsDatagram(payload)
    ensures out.bytes == old(out.bytes) + if ok then FrameBytes(payload) else []
  {
    if |payload| > MAX_UDP_PAYLOAD {
      return false;
    }
    out.bytes := out.bytes + U16Bytes(|payload|);
    out.bytes := out.bytes + payload;
    ok := true;
  }

  datatype Frame = Incomplete | Ready(payload: seq<byte>, consumed: nat)

  function DecodeFrame(buf: seq<byte>): (f: Frame)
    ensures f.Ready? ==> FRAME_HEADER_LEN <= f.consumed <= |buf|
  {
    if |buf| < FRAME_HEADER_LEN then Incomplete
    else
      var total := FRAME_HEADER_LEN + U16(buf);
      if |buf| < total then Incomplete else Ready(buf[FRAME_HEADER_LEN..total], total)
  }

  /** The format on the wire: the length, most significant byte first, then the
      payload, of at most 65507 bytes. */
  lemma FrameLayout(payload: seq<byte>)
    ensures FitsDatagram(payload) <==> |payload| <= 65507
    ensures FitsDatagram(payload) ==>
      var s := FrameBytes(payload);
      |s| == 2 + |payload| && s[0] as int * 256 + s[1] as int == |payload| && s[2..] == payload
  {
    if FitsDatagram(payload) {
      var s, u := FrameBytes(payload), U16Bytes(|payload|);
      assert s[0] == u[0] && s[1] == u[1];
    }
  }

  lemma FrameReads(payload: seq<byte>, rest: seq<byte>)
    requires FitsDatagram(payload)
    ensures var buf := FrameBytes(payload) + rest;
      DecodeFrame(buf) == Ready(payload, |FrameBytes(payload)|) && buf[|FrameBytes(payload)|..] == rest
  {
    var buf := FrameBytes(payload) + rest;
    assert buf == U16Bytes(|payload|) + (payload + rest);
    U16Inverse(|payload|, payload + rest);
  }

  /** What taking every complete frame off `buf` yields: the datagrams, what is
      left, and whether a frame too large for a datagram stopped it. */
  datatype Drained = Drained(sent: seq<seq<byte>>, rest: seq<byte>, over: bool)

  function Drain(buf: seq<byte>): Drained {
    match DecodeFrame(buf)
    case Incomplete => Drained([], buf, false)
    case Ready(payload, consumed) =>
      if !FitsDatagram(payload) then Drained([], buf, true)
      else
        var d := Drain(buf[consumed..]);
        d.(sent := [payload] + d.sent)
  }

  lemma DecodeIsStable(buf: seq<byte>, more: seq<byte>)
    requires DecodeFrame(buf).Ready?
    ensures DecodeFrame(buf + more) == DecodeFrame(buf)
    ensures (buf + more)[DecodeFrame(buf).consumed..] == buf[DecodeFrame(buf).consumed..] + more
  {
    var total := DecodeFrame(buf).consumed;
    assert (buf + more)[..2] == buf[..2];
    assert (buf + more)[2..total] == buf[2..total];
  }

  /** Draining in two goes is draining at once. */
  lemma {:induction false} DrainConcat(a: seq<byte>, b: seq<byte>)
    ensures var d := Drain(a);
      if d.over then Drain(a + b).sent == d.sent && Drain(a + b).over
      else var e := Drain(d.rest + b);
        Drain(a + b) == Drained(d.sent + e.sent, e.rest, e.over)
  {
    hide DecodeFrame;
    if DecodeFrame(a).Ready? {
      DecodeIsStable(a, b);
      if FitsDatagram(DecodeFrame(a).payload) {
        DrainConcat(a[DecodeFrame(a).consumed..], b);
      }
    }
  }

  predicate AllFit(datagrams: seq<seq<byte>>) {
    forall i :: 0 <= i < |datagrams| ==> FitsDatagram(datagrams[i])
  }

  function EncodeAll(datagrams: seq<seq<byte>>): seq<byte>
    requires AllFit(datagrams)
  {
    if datagrams == [] then [] else FrameBytes(datagrams[0]) + EncodeAll(datagrams[1..])
  }

  function Prepend(sent: seq<seq<byte>>, d: Drained): Drained {
    d.(sent := sent + d.sent)
  }

  lemma DrainOne(payload: seq<byte>, rest: seq<byte>)
    requires FitsDatagram(payload)
    ensures Drain(FrameBytes(payload) + rest) == Prepend([payload], Drain(rest))
  {
    hide DecodeFrame, FrameBytes;
    FrameReads(payload, rest);
  }

  lemma {:induction false} DrainReads(datagrams: seq<seq<byte>>, rest: seq<byte>)
    requires AllFit(datagrams)
    ensures Drain(EncodeAll(datagrams) + rest) == Prepend(datagrams, Drain(rest))
  {
    hide Drain, FrameBytes;
    if datagrams == [] {
      assert EncodeAll(datagrams) + rest == rest;
      assert datagrams + Drain(rest).sent == Drain(rest).sent;
    } else {
      var tail := EncodeAll(datagrams[1..]) + rest;
      assert EncodeAll(datagrams) + rest == FrameBytes(datagrams[0]) + tail;
      DrainOne(datagrams[0], tail);
      DrainReads(datagrams[1..], rest);
      assert [datagrams[0]] + (datagrams[1..] + Drain(rest).sent) == datagrams + Drain(rest).sent;
    }
  }

  /** `s` announces a frame of more bytes than it has. */
  predicate IsPartial(s: seq<byte>) {
    |s| < 2 || |s| < 2 + s[0] as int * 256 + s[1] as int
  }

  /** `s` starts with a whole frame too large for a datagram. */
  predicate StartsOversized(s: seq<byte>) {
    |s| >= 2 && 65507 < s[0] as int * 256 + s[1] as int <= |s| - 2
  }

  lemma DrainStops(s: seq<byte>)
    ensures IsPartial(s) ==> Drain(s) == Drained([], s, false)
    ensures StartsOversized(s) ==> Drain(s) == Drained([], s, true)
  {
  }

  lemma FrameSplits(buf: seq<byte>)
    ensures DecodeFrame(buf).Incomplete? ==> IsPartial(buf)
    ensures DecodeFrame(buf).Ready? && !FitsDatagram(DecodeFrame(buf).payload) ==> StartsOversized(buf)
    ensures DecodeFrame(buf).Ready? && FitsDatagram(DecodeFrame(buf).payload) ==>
      buf == FrameBytes(DecodeFrame(buf).payload) + buf[DecodeFrame(buf).consumed..]
  {
    if DecodeFrame(buf).Ready? {
      U16BytesInverse(buf);
      var n := DecodeFrame(buf).consumed;
      assert buf == buf[..2] + buf[2..n] + buf[n..];
    }
  }

  lemma {:induction false} DrainSplits(buf: seq<byte>)
    ensures var d := Drain(buf);
      && AllFit(d.sent) && buf == EncodeAll(d.sent) + d.rest
      && (if d.over then StartsOversized(d.rest) else IsPartial(d.rest))
  {
    hide DecodeFrame, FrameBytes, IsPartial, StartsOversized;
    FrameSplits(buf);
    var f := DecodeFrame(buf);
    if f.Ready? && FitsDatagram(f.payload) {
      DrainSplits(buf[f.consumed..]);
      var d, e := Drain(buf), Drain(buf[f.consumed..]);
      assert d.sent[1..] == e.sent;
      assert FrameBytes(f.payload) + (EncodeAll(e.sent) + e.rest) == FrameBytes(f.payload) + EncodeAll(e.sent) + e.rest;
    } else {
      assert [] + buf == buf;
    }
  }

  /** What a stream holds: whole frames that fit a datagram, one after another,
      up to a frame that is not all there or to one that is too large. There is
      one way to read it so, and draining finds it. */
  lemma DrainIff(buf: seq<byte>, sent: seq<seq<byte>>, rest: seq<byte>, over: bool)
    ensures Drain(buf) == Drained(sent, rest, over) <==>
      && AllFit(sent) && buf == EncodeAll(sent) + rest
      && (if over then StartsOversized(rest) else IsPartial(rest))
  {
    hide Drain, IsPartial, StartsOversized;
    DrainSplits(buf);
    if AllFit(sent) && buf == EncodeAll(sent) + rest
       && (if over then StartsOversized(rest) else IsPartial(rest)) {
      DrainReads(sent, rest);
      DrainStops(rest);
      assert sent + [] == sent;
    }
  }

  /** What is left over is less than one frame of the largest announced size. */
  lemma {:induction false} RestIsShort(buf: seq<byte>)
    requires !Drain(buf).over
    ensures |Drain(buf).rest| < FRAME_HEADER_LEN + 0xFFFF && DecodeFrame(Drain(buf).rest).Incomplete?
  {
    if DecodeFrame(buf).Ready? {
      RestIsShort(buf[DecodeFrame(buf).consumed..]);
    }
  }

  datatype End = StreamEnded | Oversized | Overfull

  /** The server's loop: drain every complete frame, then read again. However
      the stream is cut, exactly its datagrams are sent on, in order; the flow
      ends early only for a frame no datagram can carry, and the held bytes
      never outgrow their buffer. */
  method Forward(leftover: seq<byte>, pieces: seq<seq<byte>>)
    returns (sent: seq<seq<byte>>, end: End)
    requires forall i :: 0 <= i < |pieces| ==> 0 < |pieces[i]| <= UDP_SEND_BUFFER_BYTES
    ensures sent == Drain(leftover + Concat(pieces)).sent
    ensures end == if Drain(leftover + Concat(pieces)).over then Oversized else StreamEnded
  {
    hide DecodeFrame, Drain, Concat;
    var pending := leftover;
    sent := [];
    var i := 0;
    ghost var all := leftover + Concat(pieces);
    assert pieces[0..] == pieces;
    assert [] + Drain(all).sent == Drain(all).sent;
    while true
      invariant i <= |pieces|
      invariant Prepend(sent, Drain(pending + Concat(pieces[i..]))) == Drain(all)
      decreases |pieces| - i
    {
      var more, over, offset := DrainPending(pending);
      DrainPiece(sent, pending, Concat(pieces[i..]));
      sent := sent + more;
      if over {
        return sent, Oversized;
      }
      RestIsShort(pending);
      pending := pending[offset..];
      if i == |pieces| {
        NothingLeft(pending, pieces[i..]);
        assert sent + [] == sent;
        return sent, StreamEnded;
      }
      if |pending| + |pieces[i]| > UDP_PENDING_BUFFER_BYTES {
        return sent, Overfull;
      }
      NextPiece(pending, pieces, i);
      pending := pending + pieces[i];
      i := i + 1;
    }
  }

  lemma NextPiece(pending: seq<byte>, pieces: seq<seq<byte>>, i: nat)
    requires i < |pieces|
    ensures pending + Concat(pieces[i..]) == pending + pieces[i] + Concat(pieces[i + 1..])
  {
    assert pieces[i..][1..] == pieces[i + 1..];
  }

  /** Draining what is held, ahead of what is still to come. */
  lemma DrainPiece(sent: seq<seq<byte>>, pending: seq<byte>, tail: seq<byte>)
    ensures var d, all := Drain(pending), Prepend(sent, Drain(pending + tail));
      if d.over then all.sent == sent + d.sent && all.over
      else all == Prepend(sent + d.sent, Drain(d.rest + tail))
  {
    hide Drain;
    DrainConcat(pending, tail);
    var d := Drain(pending);
    assert sent + (d.sent + Drain(d.rest + tail).sent) == sent + d.sent + Drain(d.rest + tail).sent;
  }

  lemma NothingLeft(rest: seq<byte>, pieces: seq<seq<byte>>)
    requires DecodeFrame(rest).Incomplete? && pieces == []
    ensures Drain(rest + Concat(pieces)) == Drained([], rest, false)
  {
    assert rest + Concat(pieces) == rest;
  }

  /** One frame taken off the front, after `sent` have been. */
  lemma DrainStep(buf: seq<byte>, sent: seq<seq<byte>>)
    ensures var f := DecodeFrame(buf);
      Prepend(sent, Drain(buf)) ==
        if f.Incomplete? then Drained(sent, buf, false)
        else if !FitsDatagram(f.payload) then Drained(sent, buf, true)
        else Prepend(sent + [f.payload], Drain(buf[f.consumed..]))
  {
    hide DecodeFrame;
    if DecodeFrame(buf).Ready? {
      var f := DecodeFrame(buf);
      var d := Drain(buf[f.consumed..]);
      assert sent + ([f.payload] + d.sent) == sent + [f.payload] + d.sent;
    }
  }

  /** Every complete frame of `pending`, with a cursor moved past them. */
  method DrainPending(pending: seq<byte>) returns (sent: seq<seq<byte>>, over: bool, offset: nat)
    ensures offset <= |pending|
    ensures Drained(sent, pending[offset..], over) == Drain(pending)
  {
    hide DecodeFrame, Drain;
    sent, over, offset := [], false, 0;
    assert pending[0..] == pending;
    while true
      invariant offset <= |pending|
      invariant Prepend(sent, Drain(pending[offset..])) == Drain(pending)
      decreases |pending| - offset
    {
      DrainStep(pending[offset..], sent);
      match DecodeFrame(pending[offset..]) {
        case Incomplete =>
          return;
        case Ready(payload, consumed) =>
          if |payload| > MAX_UDP_PAYLOAD {
            over := true;
            return;
          }
          assert pending[offset..][consumed..] == pending[offset + consumed..];
          sent := sent + [payload];
          offset := offset + consumed;
      }
    }
  }

  /** Any list of datagrams, encoded and cut up in any way, with any part of it
      arriving ahead of the loop, comes out as the same list. */
  method RoundTrip(datagrams: seq<seq<byte>>, leftover: seq<byte>, pieces: seq<seq<byte>>)
    returns (sent: seq<seq<byte>>)
    requires AllFit(datagrams) && leftover + Concat(pieces) == EncodeAll(datagrams)
    requires forall i :: 0 <= i < |pieces| ==> 0 < |pieces[i]| <= UDP_SEND_BUFFER_BYTES
    ensures sent == datagrams
  {
    DrainReads(datagrams, []);
    assert EncodeAll(datagrams) + [] == EncodeAll(datagrams);
    assert datagrams + [] == datagrams;
    var end;
    sent, end := Forward(leftover, pieces);
  }
}
