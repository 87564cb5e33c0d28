/** Exactly what the chunked framing takes for a body. It is wider than section
    7.1 of RFC 9112: any line whose number can be read is a size line, whatever
    follows a chunk's data up to the next line feed is dropped, and framing that
    cannot be followed ends the body too. */
module HttpFraming {
  import opened Wrappers
  import opened Bytes
  import opened HttpBody

  predicate IsLine(text: seq<byte>, limit: nat) {
    NoLf(text) && |text| <= limit
  }

  /** A size line, the data, and whatever comes before the next line feed. */
  datatype LooseChunk = LooseChunk(size: seq<byte>, data: seq<byte>, junk: seq<byte>)
  {
    predicate Ok() {
      && IsLine(size, MAX_CHUNK_SIZE_LINE) && ChunkSize(size + [LF]) == Some(|data|) && data != []
      && NoLf(junk)
    }

    function Encode(): seq<byte> {
      size + [LF] + data + (junk + [LF])
    }
  }

  /** How a body ends after its last chunk: with an empty line after the lines
      that follow a size of zero, or with framing that cannot be followed. */
  datatype Ending =
    | Finished(zero: seq<byte>, trailers: seq<seq<byte>>, eol: Eol)
    | UnreadableSize(text: seq<byte>)
    | OverlongSize(text: seq<byte>, b: byte)
    | OverlongTrailer(zero: seq<byte>, trailers: seq<seq<byte>>, text: seq<byte>, b: byte)
  {
    predicate Ok() {
      match this
      case Finished(zero, trailers, _) => IsZero(zero) && AreTrailers(trailers)
      case UnreadableSize(text) => IsLine(text, MAX_CHUNK_SIZE_LINE) && ChunkSize(text + [LF]).None?
      case OverlongSize(text, b) => NoLf(text + [b]) && |text| == MAX_CHUNK_SIZE_LINE
      case OverlongTrailer(zero, trailers, text, b) =>
        IsZero(zero) && AreTrailers(trailers) && NoLf(text + [b]) && |text| == MAX_TRAILER_LINE
    }

    function Encode(): seq<byte> {
      match this
      case Finished(zero, trailers, _) => zero + [LF] + (EncodeLines(trailers) + Last())
      case UnreadableSize(text) => text + [LF]
      case OverlongSize(text, b) => text + [b]
      case OverlongTrailer(zero, trailers, _, _) => zero + [LF] + (EncodeLines(trailers) + Last())
    }

    /** What comes after the trailers. */
    function Last(): seq<byte> {
      match this
      case Finished(_, _, eol) => EolBytes(eol)
      case OverlongTrailer(_, _, text, b) => text + [b]
      case _ => []
    }
  }

  predicate IsZero(text: seq<byte>) {
    IsLine(text, MAX_CHUNK_SIZE_LINE) && ChunkSize(text + [LF]) == Some(0)
  }

  predicate IsTrailer(text: seq<byte>) {
    IsLine(text, MAX_TRAILER_LINE) && text != [] && text != [CR]
  }

  predicate AreTrailers(trailers: seq<seq<byte>>) {
    forall i :: 0 <= i < |trailers| ==> IsTrailer(trailers[i])
  }

  function EncodeLines(lines: seq<seq<byte>>): seq<byte> {
    if lines == [] then [] else lines[0] + [LF] + EncodeLines(lines[1..])
  }

  datatype LooseBody = LooseBody(chunks: seq<LooseChunk>, ending: Ending)
  {
    predicate Ok() {
      (forall i :: 0 <= i < |chunks| ==> chunks[i].Ok()) && ending.Ok()
    }

    function Encode(): seq<byte> {
      EncodeLoose(chunks) + ending.Encode()
    }
  }

  function EncodeLoose(chunks: seq<LooseChunk>): seq<byte> {
    if chunks == [] then [] else chunks[0].Encode() + EncodeLoose(chunks[1..])
  }

  // ------------------------------------------------------- all of it is taken

  const AfterZero: Chunked := Chunked(Trailer, [])

  lemma LineRead(text: seq<byte>)
    requires IsLine(text, MAX_CHUNK_SIZE_LINE)
    ensures var size := ChunkSize(text + [LF]);
      Reads(Start, text + [LF],
            if size.None? then Chunked(Done, text + [LF])
            else if size.value == 0 then AfterZero else Chunked(Data(size.value), []))
  {
    hide ChunkSize;
    HoldsSizeText([], text);
    assert [] + text == text;
    ReadsOne(Chunked(Size, text), LF);
    ReadsThen(Start, text, Chunked(Size, text), [LF], Feed(Chunked(Size, text), LF));
  }

  lemma {:induction false} JunkRead(junk: seq<byte>)
    requires NoLf(junk)
    ensures Reads(Chunked(ChunkEnd, []), junk, Chunked(ChunkEnd, []))
  {
    if junk != [] {
      assert junk[0] != LF;
      JunkRead(junk[1..]);
    }
  }

  lemma JunkLineRead(junk: seq<byte>)
    requires NoLf(junk)
    ensures Reads(Chunked(ChunkEnd, []), junk + [LF], Start)
  {
    JunkRead(junk);
    ReadsOne(Chunked(ChunkEnd, []), LF);
    ReadsThen(Chunked(ChunkEnd, []), junk, Chunked(ChunkEnd, []), [LF], Start);
  }

  lemma LooseChunkRead(c: LooseChunk)
    requires c.Ok()
    ensures Reads(Start, c.Encode(), Start)
  {
    hide ChunkSize, Reads;
    var data, end := Chunked(Data(|c.data|), []), Chunked(ChunkEnd, []);
    LineRead(c.size);
    SizesFit(c.size + [LF]);
    DataRead(|c.data|, c.data);
    JunkLineRead(c.junk);
    ReadsThen(Start, c.size + [LF], data, c.data, end);
    ReadsThen(Start, c.size + [LF] + c.data, end, c.junk + [LF], Start);
  }

  lemma SizesFit(line: seq<byte>)
    ensures ChunkSize(line).Some? ==> ChunkSize(line).value < U64
  {
  }

  lemma {:induction false} LooseChunksRead(chunks: seq<LooseChunk>)
    requires forall i :: 0 <= i < |chunks| ==> chunks[i].Ok()
    ensures Reads(Start, EncodeLoose(chunks), Start)
  {
    if chunks != [] {
      LooseChunkRead(chunks[0]);
      LooseChunksRead(chunks[1..]);
      ReadsThen(Start, chunks[0].Encode(), Start, EncodeLoose(chunks[1..]), Start);
    }
  }

  lemma TrailerLineRead(text: seq<byte>)
    requires IsTrailer(text)
    ensures Reads(AfterZero, text + [LF], AfterZero)
  {
    EmptyLineIff(text);
    hide IsEmptyLine;
    HoldsTrailerText([], text);
    assert [] + text == text;
    ReadsOne(Chunked(Trailer, text), LF);
    ReadsThen(AfterZero, text, Chunked(Trailer, text), [LF], AfterZero);
  }

  lemma {:induction false} TrailerLinesRead(lines: seq<seq<byte>>)
    requires AreTrailers(lines)
    ensures Reads(AfterZero, EncodeLines(lines), AfterZero)
  {
    if lines != [] {
      TrailerLineRead(lines[0]);
      TrailerLinesRead(lines[1..]);
      ReadsThen(AfterZero, lines[0] + [LF], AfterZero, EncodeLines(lines[1..]), AfterZero);
    }
  }

  lemma OverlongTrailerRead(text: seq<byte>, b: byte)
    requires NoLf(text + [b]) && |text| == MAX_TRAILER_LINE
    ensures Reads(AfterZero, text + [b], Chunked(Done, text + [b]))
  {
    OverlongTrailerEndsBody(text, b, []);
    assert text + [b] + [] == text + [b];
  }

  lemma OverlongSizeRead(text: seq<byte>, b: byte)
    requires NoLf(text + [b]) && |text| == MAX_CHUNK_SIZE_LINE
    ensures Reads(Start, text + [b], Chunked(Done, text + [b]))
  {
    OverlongSizeEndsBody(text, b, []);
    assert text + [b] + [] == text + [b];
  }

  /** Some state the framing is over in. */
  ghost predicate EndsIn(c: Chunked, bytes: seq<byte>)
    requires Valid(c)
  {
    exists d: Chunked :: d.state.Done? && Reads(c, bytes, d)
  }

  lemma EndingRead(e: Ending)
    requires e.Ok()
    ensures EndsIn(Start, e.Encode())
  {
    hide ChunkSize, Reads;
    match e
    case UnreadableSize(text) => LineRead(text);
    case OverlongSize(text, b) => OverlongSizeRead(text, b);
    case Finished(zero, trailers, eol) =>
      LineRead(zero);
      TrailerLinesRead(trailers);
      EndRead(eol);
      ReadsThen(AfterZero, EncodeLines(trailers), AfterZero, EolBytes(eol), Chunked(Done, EolBytes(eol)));
      ReadsThen(Start, zero + [LF], AfterZero, EncodeLines(trailers) + EolBytes(eol), Chunked(Done, EolBytes(eol)));
    case OverlongTrailer(zero, trailers, text, b) =>
      LineRead(zero);
      TrailerLinesRead(trailers);
      OverlongTrailerRead(text, b);
      ReadsThen(AfterZero, EncodeLines(trailers), AfterZero, text + [b], Chunked(Done, text + [b]));
      ReadsThen(Start, zero + [LF], AfterZero, EncodeLines(trailers) + (text + [b]), Chunked(Done, text + [b]));
  }

  /** Of such a body followed by anything at all, precisely the body is taken. */
  lemma LooseBodyIsExact(b: LooseBody, rest: seq<byte>)
    requires b.Ok()
    ensures var (c, n) := Take(Start, b.Encode() + rest);
      c.state.Done? && n == |b.Encode()|
  {
    LooseChunksRead(b.chunks);
    EndingRead(b.ending);
    var d: Chunked :| d.state.Done? && Reads(Start, b.ending.Encode(), d);
    ReadsThen(Start, EncodeLoose(b.chunks), Start, b.ending.Encode(), d);
    TakeConcat(Start, b.Encode(), rest);
  }

  // -------------------------------------------------- and nothing else ends it

  /** Where the first line feed is, or the length. */
  function FirstLf(s: seq<byte>): (i: nat)
    ensures i <= |s| && NoLf(s[..i]) && (i < |s| ==> s[i] == LF)
  {
    if s == [] || s[0] == LF then 0
    else
      var i := 1 + FirstLf(s[1..]);
      assert s[..i] == [s[0]] + s[1..][..i - 1];
      i
  }

  lemma SplitAt(s: seq<byte>, i: nat)
    requires i < |s| && s[i] == LF
    ensures s == s[..i] + [LF] + s[i + 1..]
  {
  }

  /** If the framing is over after `a + b`, and `a` leads to `d`, it is over after `b` from there. */
  lemma OverAfter(c: Chunked, a: seq<byte>, d: Chunked, b: seq<byte>)
    requires Valid(c) && Reads(c, a, d) && Take(c, a + b).0.state.Done?
    ensures Valid(d) && Take(d, b).0.state.Done?
  {
    TakeConcat(c, a, b);
  }

  /** After a size of zero: lines, and then what ended the body. */
  lemma {:induction false} TrailersParse(s: seq<byte>, zero: seq<byte>) returns (e: Ending)
    requires IsZero(zero) && Take(AfterZero, s).0.state.Done?
    ensures e.Ok() && e.Encode() <= zero + [LF] + s
    ensures (e.Finished? || e.OverlongTrailer?) && e.zero == zero
    decreases |s|
  {
    hide ChunkSize, Take, Reads, IsZero, Ending.Ok, Ending.Encode;
    var i := FirstLf(s);
    if i > MAX_TRAILER_LINE {
      e := LongTrailerParses(s, zero);
    } else if i == |s| {
      assert s[..i] == s;
      TrailerTextIsOpen(s);
    } else {
      SplitAt(s, i);
      if s[..i] == [] || s[..i] == [CR] {
        e := EmptyLineParses(s, i, zero);
      } else {
        TrailerLineRead(s[..i]);
        OverAfter(AfterZero, s[..i] + [LF], AfterZero, s[i + 1..]);
        var f := TrailersParse(s[i + 1..], zero);
        e := f.(trailers := [s[..i]] + f.trailers);
        OneMoreTrailer(f, s[..i], s[i + 1..]);
      }
    }
  }

  lemma LongTrailerParses(s: seq<byte>, zero: seq<byte>) returns (e: Ending)
    requires IsZero(zero) && FirstLf(s) > MAX_TRAILER_LINE
    ensures e.Ok() && e.Encode() <= zero + [LF] + s && e.OverlongTrailer? && e.zero == zero
  {
    hide IsZero;
    var text, b := s[..MAX_TRAILER_LINE], s[MAX_TRAILER_LINE];
    e := OverlongTrailer(zero, [], text, b);
    assert s == text + [b] + s[MAX_TRAILER_LINE + 1..];
    assert forall k :: 0 <= k < |text + [b]| ==> (text + [b])[k] == s[..FirstLf(s)][k];
    assert e.Encode() == zero + [LF] + (text + [b]);
    assert e.Encode() + s[MAX_TRAILER_LINE + 1..] == zero + [LF] + s;
  }

  lemma EmptyLineParses(s: seq<byte>, i: nat, zero: seq<byte>) returns (e: Ending)
    requires IsZero(zero) && i < |s| && s[i] == LF && (s[..i] == [] || s[..i] == [CR])
    ensures e.Ok() && e.Encode() <= zero + [LF] + s && e.Finished? && e.zero == zero
  {
    hide IsZero;
    var eol := if s[..i] == [] then Lf else Crlf;
    e := Finished(zero, [], eol);
    SplitAt(s, i);
    assert EolBytes(eol) == s[..i] + [LF];
    NoTrailers(zero, eol);
    hide Ending.Encode;
    PrefixAfter(zero + [LF], EolBytes(eol), s[i + 1..]);
  }

  lemma NoTrailers(zero: seq<byte>, eol: Eol)
    ensures Finished(zero, [], eol).Encode() == zero + [LF] + EolBytes(eol)
  {
    assert [] + EolBytes(eol) == EolBytes(eol);
  }

  lemma PrefixAfter(head: seq<byte>, tail: seq<byte>, rest: seq<byte>)
    ensures head + tail <= head + (tail + rest)
  {
    assert head + (tail + rest) == head + tail + rest;
  }

  lemma TrailerTextIsOpen(s: seq<byte>)
    requires NoLf(s) && |s| <= MAX_TRAILER_LINE
    ensures !Take(AfterZero, s).0.state.Done?
  {
    HoldsTrailerText([], s);
  }

  lemma OneMoreTrailer(f: Ending, text: seq<byte>, rest: seq<byte>)
    requires (f.Finished? || f.OverlongTrailer?) && f.Ok() && f.Encode() <= f.zero + [LF] + rest
    requires IsTrailer(text)
    ensures var e := f.(trailers := [text] + f.trailers);
      e.Ok() && e.Encode() <= f.zero + [LF] + (text + [LF] + rest)
  {
    hide IsTrailer, IsZero, NoLf, EncodeLines, Ending.Last;
    var e := f.(trailers := [text] + f.trailers);
    EncodeMore(text, f.trailers);
    PrefixBehind(f.zero + [LF], text + [LF], EncodeLines(f.trailers) + f.Last(), rest);
    assert e.Last() == f.Last() by { SameLast(f, e.trailers); }
    assert text + [LF] + EncodeLines(f.trailers) + f.Last() == text + [LF] + (EncodeLines(f.trailers) + f.Last());
  }

  lemma SameLast(f: Ending, trailers: seq<seq<byte>>)
    requires f.Finished? || f.OverlongTrailer?
    ensures f.(trailers := trailers).Last() == f.Last()
  {
  }

  lemma EncodeMore(text: seq<byte>, lines: seq<seq<byte>>)
    ensures EncodeLines([text] + lines) == text + [LF] + EncodeLines(lines)
  {
    assert ([text] + lines)[1..] == lines;
  }

  lemma PrefixBehind(head: seq<byte>, line: seq<byte>, tail: seq<byte>, rest: seq<byte>)
    requires head + tail <= head + rest
    ensures head + (line + tail) <= head + (line + rest)
  {
    assert tail == (head + tail)[|head|..] && rest == (head + rest)[|head|..];
    assert tail <= rest;
    assert rest == tail + rest[|tail|..];
    assert head + (line + rest) == head + (line + tail) + rest[|tail|..];
  }

  lemma SizeTextIsOpen(s: seq<byte>)
    requires NoLf(s) && |s| <= MAX_CHUNK_SIZE_LINE
    ensures !Take(Start, s).0.state.Done?
  {
    HoldsSizeText([], s);
  }

  /** With a chunk's data not yet all there, or no line feed after it, the body goes on. */
  lemma ChunkIsOpen(left: nat, s: seq<byte>)
    requires 0 < left < U64 && (|s| < left || NoLf(s[left..]))
    ensures !Take(Chunked(Data(left), []), s).0.state.Done?
  {
    if |s| < left {
      DataRead(left, s);
    } else {
      DataRead(left, s[..left]);
      JunkRead(s[left..]);
      ReadsThen(Chunked(Data(left), []), s[..left], Chunked(ChunkEnd, []), s[left..], Chunked(ChunkEnd, []));
      assert s[..left] + s[left..] == s;
    }
  }

  /** After a size line: the data, and whatever comes before the next line feed. */
  lemma ChunkParses(size: seq<byte>, s: seq<byte>) returns (c: LooseChunk, rest: seq<byte>)
    requires IsLine(size, MAX_CHUNK_SIZE_LINE)
    requires var n := ChunkSize(size + [LF]); n.Some? && 0 < n.value < U64
    requires Take(Chunked(Data(ChunkSize(size + [LF]).value), []), s).0.state.Done?
    ensures c.Ok() && c.Encode() + rest == size + [LF] + s && |rest| < |s|
  {
    hide ChunkSize, Take, IsLine;
    var left := ChunkSize(size + [LF]).value;
    if |s| < left {
      ChunkIsOpen(left, s);
    } else {
      var i := FirstLf(s[left..]);
      assert i == |s[left..]| ==> s[left..][..i] == s[left..];
      if i == |s[left..]| {
        ChunkIsOpen(left, s);
      } else {
        c := LooseChunk(size, s[..left], s[left..][..i]);
        rest := s[left..][i + 1..];
        SplitAt(s[left..], i);
        assert s == s[..left] + s[left..];
        assert c.Encode() + rest == size + [LF] + s;
      }
    }
  }

  lemma ShortLineParses(s: seq<byte>, i: nat) returns (e: Ending)
    requires i < |s| && i <= MAX_CHUNK_SIZE_LINE && s[i] == LF && NoLf(s[..i])
    requires var n := ChunkSize(s[..i] + [LF]); n.None? || n.value == 0
    requires Take(Start, s).0.state.Done?
    ensures e.Ok() && e.Encode() <= s
  {
    hide ChunkSize, Take, Reads;
    SplitAt(s, i);
    var text, rest := s[..i], s[i + 1..];
    if ChunkSize(text + [LF]).None? {
      e := UnreadableSize(text);
    } else {
      LineRead(text);
      OverAfter(Start, text + [LF], AfterZero, rest);
      e := TrailersParse(rest, text);
    }
  }

  lemma LongLineParses(s: seq<byte>) returns (e: Ending)
    requires FirstLf(s) > MAX_CHUNK_SIZE_LINE
    ensures e.Ok() && e.Encode() <= s
  {
    var text, b := s[..MAX_CHUNK_SIZE_LINE], s[MAX_CHUNK_SIZE_LINE];
    e := OverlongSize(text, b);
    assert s == text + [b] + s[MAX_CHUNK_SIZE_LINE + 1..];
    assert forall k :: 0 <= k < |text + [b]| ==> (text + [b])[k] == s[..FirstLf(s)][k];
  }

  /** Whatever the framing is over after starts with such a body. */
  lemma {:induction false} LooseBodyParses(s: seq<byte>) returns (b: LooseBody)
    requires Take(Start, s).0.state.Done?
    ensures b.Ok() && b.Encode() <= s
    decreases |s|
  {
    hide ChunkSize, Take, Reads, Ending.Ok, Ending.Encode, LooseChunk.Ok, LooseChunk.Encode;
    var i := FirstLf(s);
    if i > MAX_CHUNK_SIZE_LINE {
      var e := LongLineParses(s);
      b := LooseBody([], e);
    } else if i == |s| {
      assert s[..i] == s;
      SizeTextIsOpen(s);
    } else {
      SplitAt(s, i);
      var n := ChunkSize(s[..i] + [LF]);
      if n.None? || n.value == 0 {
        var e := ShortLineParses(s, i);
        b := LooseBody([], e);
      } else {
        LineRead(s[..i]);
        SizesFit(s[..i] + [LF]);
        OverAfter(Start, s[..i] + [LF], Chunked(Data(n.value), []), s[i + 1..]);
        var c, rest := ChunkParses(s[..i], s[i + 1..]);
        LooseChunkRead(c);
        OverAfter(Start, c.Encode(), Start, rest);
        var d := LooseBodyParses(rest);
        b := OneMoreChunk(c, d, rest);
      }
    }
  }

  lemma OneMoreChunk(c: LooseChunk, d: LooseBody, rest: seq<byte>) returns (b: LooseBody)
    requires c.Ok() && d.Ok() && d.Encode() <= rest
    ensures b.Ok() && b.Encode() <= c.Encode() + rest
  {
    hide Ending.Ok, Ending.Encode, LooseChunk.Ok, LooseChunk.Encode;
    b := LooseBody([c] + d.chunks, d.ending);
    assert b.chunks[1..] == d.chunks;
    assert b.Encode() == c.Encode() + d.Encode();
  }

  /** The chunked framing, exactly: it is over after `s` if and only if `s`
      starts with such a body, and what it has taken then is that body. */
  lemma FramingIsOverIff(s: seq<byte>)
    ensures Take(Start, s).0.state.Done? <==> exists b: LooseBody :: b.Ok() && b.Encode() <= s
    ensures forall b: LooseBody :: b.Ok() && b.Encode() <= s ==> Take(Start, s).1 == |b.Encode()|
  {
    hide LooseBody.Ok, LooseBody.Encode, Take;
    forall b: LooseBody | b.Ok() && b.Encode() <= s
      ensures Take(Start, s).0.state.Done? && Take(Start, s).1 == |b.Encode()|
    {
      LooseBodyIsExact(b, s[|b.Encode()|..]);
      assert b.Encode() + s[|b.Encode()|..] == s;
    }
    if Take(Start, s).0.state.Done? {
      var b := LooseBodyParses(s);
    }
  }
}
