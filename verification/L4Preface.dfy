/** The header that opens a tunnel stream: its encoding, its decoding and the
    loop that reads it (crates/nexapipe-proto/src/preface.rs). */
module L4Preface {
  import opened Wrappers
  import opened Bytes

  const PREFACE_MAGIC: byte := 0x05
  const PREFACE_VERSION: byte := 0x01
  const MAX_HOST_LEN: nat := 255
  const MAX_PREFACE_LEN: nat := 4 + MAX_HOST_LEN + 2

  datatype Proto = Tcp | Udp

  function ProtoByte(p: Proto): byte {
    match p case Tcp => 0x01 case Udp => 0x02
  }

  function ProtoOf(b: byte): Option<Proto> {
    if b == 0x01 then Some(Tcp) else if b == 0x02 then Some(Udp) else None
  }

  datatype Preface = Preface(proto: Proto, host: seq<byte>, port: nat)
  {
    predicate Ok() {
      port < 0x1_0000
    }
  }

  datatype ProtoError =
    | NotAPreface
    | UnsupportedVersion(version: byte)
    | UnknownProto(proto: byte)
    | InvalidHost
    | InvalidPort

  predicate IsValidHost(host: seq<byte>) {
    0 < |host| <= MAX_HOST_LEN && forall i :: 0 <= i < |host| ==> 0x21 <= host[i] <= 0x7e
  }

  function LowerByte(b: byte): byte {
    if 65 <= b <= 90 then b + 32 else b
  }

  function Lower(s: seq<byte>): (r: seq<byte>)
    ensures |r| == |s|
  {
    seq(|s|, i requires 0 <= i < |s| => LowerByte(s[i]))
  }

  /** The bytes of a preface the encoder accepts. */
  function Encoded(p: Preface): (s: seq<byte>)
    requires IsValidHost(p.host) && p.Ok()
    ensures |s| == 4 + |p.host| + 2
  {
    [PREFACE_MAGIC, PREFACE_VERSION, ProtoByte(p.proto), |p.host|] + p.host + U16Bytes(p.port)
  }

  predicate Encodable(p: Preface) {
    IsValidHost(p.host) && p.Ok() && p.port != 0
  }

  /** Appends the preface to `out`, or refuses it and leaves `out` alone. */
  method Encode(p: Preface, out: Buffer) returns (r: Result<(), ProtoError>)
    requires p.Ok()
    modifies out
    ensures r.Ok? <==> Encodable(p)
    ensures r.Ok? ==> out.bytes == old(out.bytes) + Encoded(p)
    ensures r.Err? ==> out.bytes == old(out.bytes)
                       && r.error == if IsValidHost(p.host) then InvalidPort else InvalidHost
  {
    if !IsValidHost(p.host) {
      return Err(InvalidHost);
    }
    if p.port == 0 {
      return Err(InvalidPort);
    }
    out.bytes := out.bytes + [PREFACE_MAGIC];
    out.bytes := out.bytes + [PREFACE_VERSION];
    out.bytes := out.bytes + [ProtoByte(p.proto)];
    out.bytes := out.bytes + [|p.host|];
    out.bytes := out.bytes + p.host;
    out.bytes := out.bytes + U16Bytes(p.port);
    r := Ok(());
  }

  datatype Decoded = Incomplete | Ready(preface: Preface, len: nat) | Refused(error: ProtoError)

  function Decode(buf: seq<byte>): Decoded {
    if buf == [] then Incomplete
    else if buf[0] != PREFACE_MAGIC then Refused(NotAPreface)
    else if |buf| < 4 then Incomplete
    else if buf[1] != PREFACE_VERSION then Refused(UnsupportedVersion(buf[1]))
    else if ProtoOf(buf[2]).None? then Refused(UnknownProto(buf[2]))
    else if buf[3] == 0 then Refused(InvalidHost)
    else
      var total := 4 + buf[3] as int + 2;
      if |buf| < total then Incomplete
      else
        var host, port := buf[4..total - 2], U16(buf[total - 2..]);
        if !IsValidHost(host) then Refused(InvalidHost)
        else if port == 0 then Refused(InvalidPort)
        else Ready(Preface(ProtoOf(buf[2]).value, Lower(host), port), total)
  }

  /** The format on the wire, byte by byte; the port most significant byte first. */
  lemma EncodedLayout(p: Preface)
    requires IsValidHost(p.host) && p.Ok()
    ensures var s, n := Encoded(p), |p.host|;
      && |s| == n + 6 && s[0] == 0x05 && s[1] == 0x01 && s[2] == (if p.proto.Tcp? then 0x01 else 0x02)
      && s[3] == n && s[4..4 + n] == p.host && s[4 + n] as int * 256 + s[5 + n] as int == p.port
  {
    var s, n := Encoded(p), |p.host|;
    assert s[4 + n..] == U16Bytes(p.port);
    assert s[4 + n] == U16Bytes(p.port)[0] && s[5 + n] == U16Bytes(p.port)[1];
  }

  /** What can be encoded: a host of 1 to 255 printable bytes and a port. */
  lemma EncodableIff(p: Preface)
    requires p.Ok()
    ensures Encodable(p) <==>
      && 1 <= |p.host| <= 255 && 1 <= p.port <= 65535
      && forall i :: 0 <= i < |p.host| ==> 32 < p.host[i] < 127
  {
  }

  /** The same bytes, but for upper-case ASCII letters in lower case. */
  predicate Lowered(s: seq<byte>, r: seq<byte>) {
    |r| == |s| && forall i :: 0 <= i < |s| ==>
      if 65 <= s[i] <= 90 then r[i] as int == s[i] as int + 32 else r[i] == s[i]
  }

  lemma LowerLowers(s: seq<byte>)
    ensures Lowered(s, Lower(s))
    ensures forall i :: 0 <= i < |s| ==> !(65 <= Lower(s)[i] <= 90)
  {
  }

  /** Decoding undoes encoding, with the host in lower case, and leaves the rest. */
  lemma DecodeInvertsEncode(p: Preface, rest: seq<byte>)
    requires Encodable(p)
    ensures Decode(Encoded(p) + rest) == Ready(p.(host := Lower(p.host)), |Encoded(p)|)
    ensures Lowered(p.host, Lower(p.host))
  {
    LowerLowers(p.host);
    hide Lower;
    var buf, total := Encoded(p) + rest, |Encoded(p)|;
    assert buf[4..total - 2] == p.host;
    assert buf[total - 2..] == U16Bytes(p.port) + rest;
    U16Inverse(p.port, rest);
  }

  /** And only encodings decode: what was consumed is the encoding of the
      decoded preface under some spelling of its host. */
  lemma DecodeReadsAnEncoding(buf: seq<byte>) returns (p: Preface)
    requires Decode(buf).Ready?
    ensures Encodable(p) && Encoded(p) == buf[..Decode(buf).len]
    ensures Decode(buf).preface == p.(host := Decode(buf).preface.host)
    ensures Lowered(p.host, Decode(buf).preface.host)
  {
    LowerLowers(buf[4..4 + buf[3] as int]);
    hide Lower;
    var total := 4 + buf[3] as int + 2;
    var host, port := buf[4..total - 2], U16(buf[total - 2..]);
    p := Preface(ProtoOf(buf[2]).value, host, port);
    U16BytesInverse(buf[total - 2..]);
    assert buf[total - 2..][..2] == buf[total - 2..total];
    assert buf[..total] == buf[..4] + host + buf[total - 2..total];
    assert buf[..4] == [buf[0], buf[1], buf[2], buf[3]];
  }

  /** Every strict prefix of an encoding asks for more bytes. */
  lemma StrictPrefixIsIncomplete(p: Preface, k: nat)
    requires Encodable(p) && k < |Encoded(p)|
    ensures Decode(Encoded(p)[..k]) == Incomplete
  {
  }

  /** A decision, once reached, survives any bytes that follow. */
  lemma DecisionIsStable(buf: seq<byte>, more: seq<byte>)
    requires !Decode(buf).Incomplete?
    ensures Decode(buf + more) == Decode(buf)
  {
    if |buf| >= 4 && buf[0] == PREFACE_MAGIC {
      var total := 4 + buf[3] as int + 2;
      if |buf| >= total {
        assert (buf + more)[4..total - 2] == buf[4..total - 2];
        assert (buf + more)[total - 2..][..2] == buf[total - 2..][..2];
      }
    }
  }

  /** A decision is reached within the longest preface's length. */
  lemma DecidedInTime(buf: seq<byte>)
    requires |buf| >= MAX_PREFACE_LEN
    ensures !Decode(buf).Incomplete?
  {
  }

  /** Reads until a preface is decided, and hands back the bytes after it; or
      reports that the stream ended first. However the stream is cut, the
      outcome is that of the whole stream; nothing is read once it is decided,
      and before each read fewer bytes are held than the longest preface has. */
  method ReadPreface(initial: seq<byte>, chunks: seq<seq<byte>>)
    returns (r: Option<Result<Preface, ProtoError>>, leftover: seq<byte>, used: nat)
    ensures used <= |chunks| && (r.None? ==> used == |chunks|)
    ensures forall j :: 0 <= j < used ==>
      Decode(initial + Concat(chunks[..j])).Incomplete? && |initial + Concat(chunks[..j])| < MAX_PREFACE_LEN
    ensures r.None? <==> Decode(initial + Concat(chunks)).Incomplete?
    ensures Decode(initial + Concat(chunks)).Refused? ==> r == Some(Err(Decode(initial + Concat(chunks)).error))
    ensures Decode(initial + Concat(chunks)).Ready? ==>
      && r == Some(Ok(Decode(initial + Concat(chunks)).preface))
      && Decode(initial + Concat(chunks)).len <= |initial + Concat(chunks)|
      && leftover + Concat(chunks[used..]) == (initial + Concat(chunks))[Decode(initial + Concat(chunks)).len..]
  {
    hide Decode;
    var buf := initial;
    used := 0;
    leftover := [];
    assert chunks[0..] == chunks;
    while true
      invariant used <= |chunks| && buf + Concat(chunks[used..]) == initial + Concat(chunks)
      invariant buf == initial + Concat(chunks[..used])
      invariant forall j :: 0 <= j < used ==>
        Decode(initial + Concat(chunks[..j])).Incomplete? && |initial + Concat(chunks[..j])| < MAX_PREFACE_LEN
      decreases |chunks| - used
    {
      ghost var rest := Concat(chunks[used..]);
      match Decode(buf) {
        case Ready(p, len) =>
          DecisionIsStable(buf, rest);
          LenFits(buf);
          leftover := buf[len..];
          assert (buf + rest)[len..] == buf[len..] + rest;
          return Some(Ok(p)), leftover, used;
        case Refused(e) =>
          DecisionIsStable(buf, rest);
          return Some(Err(e)), [], used;
        case Incomplete =>
      }
      assert |buf| < MAX_PREFACE_LEN by {
        if |buf| >= MAX_PREFACE_LEN { DecidedInTime(buf); }
      }
      if used == |chunks| {
        assert buf + rest == buf;
        return None, [], used;
      }
      assert chunks[used..][1..] == chunks[used + 1..];
      assert buf + (chunks[used] + Concat(chunks[used + 1..])) == buf + chunks[used] + Concat(chunks[used + 1..]);
      ConcatSnoc(chunks, used);
      buf := buf + chunks[used];
      used := used + 1;
    }
  }

  lemma LenFits(buf: seq<byte>)
    requires Decode(buf).Ready?
    ensures Decode(buf).len <= |buf|
  {
  }
}
