/** Where a request's body ends (crates/nexapipe-client/src/http.rs, `Body` and
    `Chunked`; sections 6.3 and 7.1 of RFC 9112). */
module HttpBody {
  import opened Wrappers
  import opened Bytes

  const MAX_CHUNK_SIZE_LINE: nat := 1024
  const MAX_TRAILER_LINE: nat := 64 * 1024
  const SEMICOLON: byte := 59

  datatype ChunkState = Size | Data(left: nat) | ChunkEnd | Trailer | Done

  datatype Chunked = Chunked(state: ChunkState, line: seq<byte>)

  const Start: Chunked := Chunked(Size, [])

  /** Everything up to the first semicolon. */
  function BeforeSemicolon(s: seq<byte>): seq<byte> {
    if s == [] || s[0] == SEMICOLON then [] else [s[0]] + BeforeSemicolon(s[1..])
  }

  /** The line without its line feed, and without the carriage return before it. */
  function StripEol(line: seq<byte>): Option<seq<byte>> {
    if line == [] || line[|line| - 1] != LF then None
    else
      var s := line[..|line| - 1];
      Some(if s != [] && s[|s| - 1] == CR then s[..|s| - 1] else s)
  }

  /** The hexadecimal number before the extension of a complete line. */
  function ChunkSize(line: seq<byte>): Option<nat> {
    match StripEol(line)
    case None => None
    case Some(s) => ParseU64(Trim(BeforeSemicolon(s)), 16)
  }

  predicate IsEmptyLine(line: seq<byte>) {
    line == [CR, LF] || line == [LF]
  }

  /** What every reachable framing state satisfies. */
  predicate Valid(c: Chunked) {
    match c.state
    case Size => |c.line| <= MAX_CHUNK_SIZE_LINE
    case Data(left) => 0 < left < U64 && c.line == []
    case ChunkEnd => c.line == []
    case Trailer => |c.line| <= MAX_TRAILER_LINE
    case Done => |c.line| <= MAX_TRAILER_LINE + 1
  }

  /** One byte of a body that is not over. */
  function Feed(c: Chunked, b: byte): (d: Chunked)
    requires Valid(c)
    ensures Valid(d)
  {
    var line := c.line + [b];
    match c.state
    case Size =>
      if b == LF then
        match ChunkSize(line)
        case None => Chunked(Done, line)
        case Some(size) => if size == 0 then Chunked(Trailer, []) else Chunked(Data(size), [])
      else if |line| > MAX_CHUNK_SIZE_LINE then Chunked(Done, line)
      else Chunked(Size, line)
    case Data(left) => if left == 1 then Chunked(ChunkEnd, []) else Chunked(Data(left - 1), [])
    case ChunkEnd => if b == LF then Chunked(Size, []) else c
    case Trailer =>
      if b == LF then
        if IsEmptyLine(line) then Chunked(Done, line) else Chunked(Trailer, [])
      else if |line| > MAX_TRAILER_LINE then Chunked(Done, line)
      else Chunked(Trailer, line)
    case Done => c
  }

  /** Feeds `bytes` until they run out or the framing is over: the framing
      reached, and how many bytes that took. */
  function Take(c: Chunked, bytes: seq<byte>): (r: (Chunked, nat))
    requires Valid(c)
    ensures Valid(r.0) && r.1 <= |bytes|
    decreases bytes
  {
    if bytes == [] || c.state.Done? then (c, 0)
    else
      var (d, n) := Take(Feed(c, bytes[0]), bytes[1..]);
      (d, n + 1)
  }

  /** One byte, if the body is not over. */
  lemma TakeStep(c: Chunked, bytes: seq<byte>, i: nat)
    requires Valid(c) && i < |bytes|
    ensures if c.state.Done? then Take(c, bytes[i..]) == (c, 0)
            else var (d, n) := Take(Feed(c, bytes[i]), bytes[i + 1..]); Take(c, bytes[i..]) == (d, n + 1)
  {
    hide Feed, Valid;
    assert bytes[i..][1..] == bytes[i + 1..];
  }

  lemma TakeNothing(c: Chunked)
    requires Valid(c)
    ensures Take(c, []) == (c, 0)
  {
  }

  /** A segment boundary does not show. */
  lemma {:induction false} TakeConcat(c: Chunked, a: seq<byte>, b: seq<byte>)
    requires Valid(c)
    ensures var (d, n) := Take(c, a);
      var (e, m) := Take(d, b);
      Take(c, a + b) == (e, n + m)
    decreases a
  {
    hide Feed, Valid;
    if a == [] {
      assert a + b == b;
    } else if !c.state.Done? {
      TakeConcat(Feed(c, a[0]), a[1..], b);
      assert (a + b)[1..] == a[1..] + b;
    }
  }

  /** A short take means the body is over. */
  lemma {:induction false} ShortTakeIsDone(c: Chunked, bytes: seq<byte>)
    requires Valid(c) && Take(c, bytes).1 < |bytes|
    ensures Take(c, bytes).0.state.Done?
    decreases bytes
  {
    if !c.state.Done? {
      ShortTakeIsDone(Feed(c, bytes[0]), bytes[1..]);
    }
  }

  // ------------------------------------------------- bodies as RFC 9112 writes them

  datatype Eol = Crlf | Lf

  function EolBytes(e: Eol): seq<byte> {
    match e case Crlf => [CR, LF] case Lf => [LF]
  }

  predicate NoLf(s: seq<byte>) {
    forall i :: 0 <= i < |s| ==> s[i] != LF
  }

  /** `1*HEXDIG`, blanks, and maybe an extension. */
  datatype SizeLine = SizeLine(size: nat, digits: seq<byte>, blanks: seq<byte>, ext: seq<byte>, eol: Eol)
  {
    predicate Ok() {
      && size < U64 && Writes(digits, size, 16)
      && (forall i :: 0 <= i < |blanks| ==> IsBlank(blanks[i]))
      && (ext != [] ==> ext[0] == SEMICOLON)
      && NoLf(ext)
      && |Encode()| <= MAX_CHUNK_SIZE_LINE + 1
    }

    function Encode(): seq<byte> {
      digits + blanks + ext + EolBytes(eol)
    }
  }

  datatype Chunk = Chunk(size: SizeLine, data: seq<byte>, eol: Eol)
  {
    predicate Ok() {
      size.Ok() && size.size == |data| && data != []
    }

    function Encode(): seq<byte> {
      size.Encode() + data + EolBytes(eol)
    }
  }

  datatype TrailerLine = TrailerLine(text: seq<byte>, eol: Eol)
  {
    predicate Ok() {
      NoLf(text) && text != [] && !(text == [CR] && eol.Lf?) && |Encode()| <= MAX_TRAILER_LINE + 1
    }

    function Encode(): seq<byte> {
      text + EolBytes(eol)
    }
  }

  datatype ChunkedBody = ChunkedBody(
    chunks: seq<Chunk>, zero: SizeLine, trailers: seq<TrailerLine>, eol: Eol)
  {
    predicate Ok() {
      && (forall i :: 0 <= i < |chunks| ==> chunks[i].Ok())
      && zero.Ok() && zero.size == 0
      && (forall i :: 0 <= i < |trailers| ==> trailers[i].Ok())
    }

    function Encode(): seq<byte> {
      EncodeChunks(chunks) + zero.Encode() + EncodeTrailers(trailers) + EolBytes(eol)
    }
  }

  function EncodeChunks(chunks: seq<Chunk>): seq<byte> {
    if chunks == [] then [] else chunks[0].Encode() + EncodeChunks(chunks[1..])
  }

  function EncodeTrailers(trailers: seq<TrailerLine>): seq<byte> {
    if trailers == [] then [] else trailers[0].Encode() + EncodeTrailers(trailers[1..])
  }

  lemma {:induction false} BeforeSemicolonOf(s: seq<byte>, t: seq<byte>)
    requires forall i :: 0 <= i < |s| ==> s[i] != SEMICOLON
    requires t != [] ==> t[0] == SEMICOLON
    ensures BeforeSemicolon(s + t) == s
  {
    if s == [] {
      assert s + t == t;
    } else {
      BeforeSemicolonOf(s[1..], t);
      assert (s + t)[1..] == s[1..] + t;
    }
  }

  lemma StripCrlf(s: seq<byte>)
    ensures StripEol(s + [CR, LF]) == Some(s)
  {
    assert (s + [CR, LF])[..|s| + 1] == s + [CR];
    assert (s + [CR])[..|s|] == s;
  }

  lemma StripLf(s: seq<byte>)
    ensures StripEol(s + [LF]) == Some(if s != [] && s[|s| - 1] == CR then s[..|s| - 1] else s)
  {
    assert (s + [LF])[..|s|] == s;
  }

  /** A line that says `n`: a hexadecimal numeral between white space, maybe an
      extension, and the line's end. */
  ghost predicate SaysSize(line: seq<byte>, n: nat) {
    exists a, numeral, b, ext, eol ::
      && line == a + numeral + b + ext + EolBytes(eol) && IsSpaces(a) && IsSpaces(b)
      && IsNumeral(numeral, n, 16) && (ext != [] ==> ext[0] == SEMICOLON)
  }

  lemma {:induction false} SpacesHaveNoSemicolon(s: seq<byte>)
    requires IsSpaces(s)
    ensures forall i :: 0 <= i < |s| ==> s[i] != SEMICOLON
    decreases |s|
  {
    hide IsSpaces;
    if s != [] {
      var e, rest := SpacesFirst(s);
      SpacesHaveNoSemicolon(rest);
      assert forall i :: 0 <= i < |e| ==> s[i] == e[i];
      assert forall i :: 0 <= i < |rest| ==> s[|e| + i] == rest[i];
    }
  }

  /** Before any extension such a line has its numeral and white space. */
  lemma NumberReads(a: seq<byte>, numeral: seq<byte>, b: seq<byte>, ext: seq<byte>, n: nat)
    requires n < U64 && IsSpaces(a) && IsSpaces(b) && IsNumeral(numeral, n, 16)
    requires ext != [] ==> ext[0] == SEMICOLON
    ensures ParseU64(Trim(BeforeSemicolon(a + numeral + b + ext)), 16) == Some(n)
  {
    hide IsSpaces, Trim, ParseU64, IsNumeral, BeforeSemicolon;
    NumeralIsPlain(numeral, n, 16);
    SpacesHaveNoSemicolon(a);
    SpacesHaveNoSemicolon(b);
    BeforeSemicolonOf(a + numeral + b, ext);
    TrimBetween(a, numeral, b);
    ParseIff(numeral, n, 16);
  }

  lemma {:induction false} BeforeSemicolonSplits(s: seq<byte>) returns (ext: seq<byte>)
    ensures s == BeforeSemicolon(s) + ext && (ext != [] ==> ext[0] == SEMICOLON)
  {
    if s == [] || s[0] == SEMICOLON {
      ext := s;
    } else {
      ext := BeforeSemicolonSplits(s[1..]);
    }
  }

  lemma StripSplits(line: seq<byte>) returns (eol: Eol)
    requires StripEol(line).Some?
    ensures line == StripEol(line).value + EolBytes(eol)
  {
    var s := line[..|line| - 1];
    eol := if s != [] && s[|s| - 1] == CR then Crlf else Lf;
  }

  /** Stripping an end of line that is there, and a carriage return in front. */
  lemma StripOf(s: seq<byte>, eol: Eol)
    ensures StripEol(s + EolBytes(eol)) ==
      Some(if eol.Lf? && s != [] && s[|s| - 1] == CR then s[..|s| - 1] else s)
  {
    match eol
    case Crlf => StripCrlf(s);
    case Lf => StripLf(s);
  }

  /** Exactly those lines are size lines, each of the size it says. */
  lemma ChunkSizeIff(line: seq<byte>, n: nat)
    ensures ChunkSize(line) == Some(n) <==> n < U64 && SaysSize(line, n)
  {
    if n < U64 && SaysSize(line, n) {
      SaidSizeReads(line, n);
    }
    if ChunkSize(line) == Some(n) {
      hide IsSpaces, Trim, ParseU64, IsNumeral, BeforeSemicolon, StripEol;
      var eol := StripSplits(line);
      var s := StripEol(line).value;
      var ext := BeforeSemicolonSplits(s);
      var a, b := TrimSplits(BeforeSemicolon(s));
      ParseIff(Trim(BeforeSemicolon(s)), n, 16);
      assert line == a + Trim(BeforeSemicolon(s)) + b + ext + EolBytes(eol);
    }
  }

  lemma SaidSizeReads(line: seq<byte>, n: nat)
    requires n < U64 && SaysSize(line, n)
    ensures ChunkSize(line) == Some(n)
  {
    hide IsSpaces, IsNumeral, ChunkSize, EolBytes;
    var a, numeral, b, ext, eol :|
      && line == a + numeral + b + ext + EolBytes(eol) && IsSpaces(a) && IsSpaces(b)
      && IsNumeral(numeral, n, 16) && (ext != [] ==> ext[0] == SEMICOLON);
    PartsRead(a, numeral, b, ext, eol, n);
  }

  lemma PartsRead(a: seq<byte>, numeral: seq<byte>, b: seq<byte>, ext: seq<byte>, eol: Eol, n: nat)
    requires n < U64 && IsSpaces(a) && IsSpaces(b) && IsNumeral(numeral, n, 16)
    requires ext != [] ==> ext[0] == SEMICOLON
    ensures ChunkSize(a + numeral + b + ext + EolBytes(eol)) == Some(n)
  {
    hide IsSpaces, Trim, ParseU64, IsNumeral, BeforeSemicolon, StripEol, EolBytes;
    var s := a + numeral + b + ext;
    StripOf(s, eol);
    if eol.Lf? && s != [] && s[|s| - 1] == CR {
      StrayReturn(a, numeral, b, ext, n);
    } else {
      NumberReads(a, numeral, b, ext, n);
    }
  }

  /** A carriage return in front of a lone line feed is stripped with it, from
      the extension or from the white space before it. */
  lemma StrayReturn(a: seq<byte>, numeral: seq<byte>, b: seq<byte>, ext: seq<byte>, n: nat)
    requires n < U64 && IsSpaces(a) && IsSpaces(b) && IsNumeral(numeral, n, 16)
    requires ext != [] ==> ext[0] == SEMICOLON
    requires var s := a + numeral + b + ext; s != [] && s[|s| - 1] == CR
    ensures var s := a + numeral + b + ext; ParseU64(Trim(BeforeSemicolon(s[..|s| - 1])), 16) == Some(n)
  {
    hide Trim, ParseU64, IsNumeral, BeforeSemicolon, IsSpaces;
    var s := a + numeral + b + ext;
    NumeralIsPlain(numeral, n, 16);
    if ext != [] {
      assert s[..|s| - 1] == a + numeral + b + ext[..|ext| - 1];
      NumberReads(a, numeral, b, ext[..|ext| - 1], n);
    } else {
      LastOf(a, numeral, b);
      assert s == a + numeral + b;
      var rest, e := SpacesLast(b);
      assert e[|e| - 1] == CR;
      assert |e| == 1;
      assert s[..|s| - 1] == a + numeral + rest + [];
      NumberReads(a, numeral, rest, [], n);
    }
  }

  lemma LastOf(a: seq<byte>, m: seq<byte>, b: seq<byte>)
    requires m != []
    ensures var s := a + m + b; s[|s| - 1] == if b == [] then m[|m| - 1] else b[|b| - 1]
  {
  }

  lemma SaysSizeOf(a: seq<byte>, numeral: seq<byte>, b: seq<byte>, ext: seq<byte>, eol: Eol, n: nat)
    requires IsSpaces(a) && IsSpaces(b) && IsNumeral(numeral, n, 16) && (ext != [] ==> ext[0] == SEMICOLON)
    ensures SaysSize(a + numeral + b + ext + EolBytes(eol), n)
  {
  }

  /** In particular those of section 7.1 of RFC 9112. */
  lemma ChunkSizeReads(l: SizeLine)
    requires l.Ok()
    ensures ChunkSize(l.Encode()) == Some(l.size)
  {
    hide IsSpaces, ChunkSize, Writes;
    assert AllBlank(l.blanks);
    BlanksAreSpaces(l.blanks);
    NoSpaces();
    assert l.Encode() == [] + l.digits + l.blanks + l.ext + EolBytes(l.eol);
    SaysSizeOf([], l.digits, l.blanks, l.ext, l.eol, l.size);
    ChunkSizeIff(l.Encode(), l.size);
  }

  lemma LineHasDigits(l: SizeLine)
    requires l.Ok()
    ensures l.digits != [] && AllDigits(l.digits, 16)
  {
    hide Writes, Value;
    WritesIff(l.digits, l.size, 16);
  }

  // ------------------------------------------------- the framing reads them

  /** All of `a` is the body's, and takes the framing from `c` to `d`. */
  predicate Reads(c: Chunked, a: seq<byte>, d: Chunked)
    requires Valid(c)
  {
    Take(c, a) == (d, |a|)
  }

  lemma ReadsThen(c: Chunked, a: seq<byte>, d: Chunked, b: seq<byte>, e: Chunked)
    requires Valid(c) && Reads(c, a, d) && Reads(d, b, e)
    ensures Reads(c, a + b, e)
  {
    TakeConcat(c, a, b);
  }

  lemma {:induction false} HoldsSizeText(held: seq<byte>, text: seq<byte>)
    requires NoLf(text) && |held| + |text| <= MAX_CHUNK_SIZE_LINE
    ensures Reads(Chunked(Size, held), text, Chunked(Size, held + text))
    decreases text
  {
    if text == [] {
      assert held + text == held;
    } else {
      var c := Chunked(Size, held);
      assert text[0] != LF;
      assert Feed(c, text[0]) == Chunked(Size, held + [text[0]]);
      HoldsSizeText(held + [text[0]], text[1..]);
      assert held + [text[0]] + text[1..] == held + text;
    }
  }

  lemma {:induction false} HoldsTrailerText(held: seq<byte>, text: seq<byte>)
    requires NoLf(text) && |held| + |text| <= MAX_TRAILER_LINE
    ensures Reads(Chunked(Trailer, held), text, Chunked(Trailer, held + text))
    decreases text
  {
    if text == [] {
      assert held + text == held;
    } else {
      var c := Chunked(Trailer, held);
      assert text[0] != LF;
      assert Feed(c, text[0]) == Chunked(Trailer, held + [text[0]]);
      HoldsTrailerText(held + [text[0]], text[1..]);
      assert held + [text[0]] + text[1..] == held + text;
    }
  }

  lemma ReadsOne(c: Chunked, b: byte)
    requires Valid(c) && !c.state.Done?
    ensures Reads(c, [b], Feed(c, b))
  {
    assert [b][1..] == [];
  }

  /** A line is its text, without a line feed, and then the line feed. */
  function EolText(e: Eol): seq<byte> {
    match e case Crlf => [CR] case Lf => []
  }

  lemma EolSplits(s: seq<byte>, e: Eol)
    requires NoLf(s)
    ensures s + EolBytes(e) == s + EolText(e) + [LF] && NoLf(s + EolText(e))
  {
  }

  lemma SizeLineRead(l: SizeLine)
    requires l.Ok()
    ensures Reads(Start, l.Encode(), Chunked(if l.size == 0 then Trailer else Data(l.size), []))
  {
    LineHasDigits(l);
    hide Writes;
    var s := l.digits + l.blanks + l.ext;
    forall i | 0 <= i < |s| ensures s[i] != LF {
      assert i < |l.digits| ==> DigitValue(l.digits[i]) < 16;
      assert |l.digits| <= i < |l.digits| + |l.blanks| ==> IsBlank(l.blanks[i - |l.digits|]);
    }
    EolSplits(s, l.eol);
    var text := s + EolText(l.eol);
    HoldsSizeText([], text);
    assert [] + text == text;
    ChunkSizeReads(l);
    ReadsOne(Chunked(Size, text), LF);
    ReadsThen(Start, text, Chunked(Size, text), [LF], Feed(Chunked(Size, text), LF));
  }

  lemma DataFeeds(left: nat, b: byte)
    requires 0 < left < U64
    ensures Feed(Chunked(Data(left), []), b) == Chunked(if left == 1 then ChunkEnd else Data(left - 1), [])
  {
  }

  lemma {:induction false} DataRead(left: nat, data: seq<byte>)
    requires 0 < left < U64 && |data| <= left
    ensures Reads(Chunked(Data(left), []), data,
                  Chunked(if |data| == left then ChunkEnd else Data(left - |data|), []))
    decreases data
  {
    var c := Chunked(Data(left), []);
    if |data| > 0 {
      DataFeeds(left, data[0]);
      ReadsOne(c, data[0]);
      hide Feed, Reads;
      assert data == [data[0]] + data[1..];
      if |data| > 1 {
        DataRead(left - 1, data[1..]);
        ReadsThen(c, [data[0]], Chunked(Data(left - 1), []), data[1..],
                  Chunked(if |data| == left then ChunkEnd else Data(left - |data|), []));
      } else {
        assert data == [data[0]];
      }
    }
  }

  lemma ChunkEolRead(e: Eol)
    ensures Reads(Chunked(ChunkEnd, []), EolBytes(e), Start)
  {
    var c := Chunked(ChunkEnd, []);
    ReadsOne(c, LF);
    if e.Crlf? {
      ReadsOne(c, CR);
      ReadsThen(c, [CR], c, [LF], Start);
      assert [CR] + [LF] == EolBytes(e);
    }
  }

  lemma ChunkRead(c: Chunk)
    requires c.Ok()
    ensures Reads(Start, c.Encode(), Start)
  {
    var data, end := Chunked(Data(|c.data|), []), Chunked(ChunkEnd, []);
    SizeLineRead(c.size);
    DataRead(|c.data|, c.data);
    ChunkEolRead(c.eol);
    ReadsThen(Start, c.size.Encode(), data, c.data, end);
    ReadsThen(Start, c.size.Encode() + c.data, end, EolBytes(c.eol), Start);
  }

  lemma {:induction false} ChunksRead(chunks: seq<Chunk>)
    requires forall i :: 0 <= i < |chunks| ==> chunks[i].Ok()
    ensures Reads(Start, EncodeChunks(chunks), Start)
  {
    if chunks != [] {
      ChunkRead(chunks[0]);
      ChunksRead(chunks[1..]);
      ReadsThen(Start, chunks[0].Encode(), Start, EncodeChunks(chunks[1..]), Start);
    }
  }

  lemma EmptyLineIff(text: seq<byte>)
    ensures IsEmptyLine(text + [LF]) <==> text == [] || text == [CR]
  {
    assert (text + [LF])[..|text|] == text;
    assert [CR] + [LF] == [CR, LF];
  }

  lemma TrailerRead(t: TrailerLine)
    requires t.Ok()
    ensures Reads(Chunked(Trailer, []), t.Encode(), Chunked(Trailer, []))
  {
    EolSplits(t.text, t.eol);
    var c, text := Chunked(Trailer, []), t.text + EolText(t.eol);
    EmptyLineIff(text);
    hide IsEmptyLine;
    HoldsTrailerText([], text);
    assert [] + text == text;
    ReadsOne(Chunked(Trailer, text), LF);
    ReadsThen(c, text, Chunked(Trailer, text), [LF], c);
  }

  lemma {:induction false} TrailersRead(trailers: seq<TrailerLine>)
    requires forall i :: 0 <= i < |trailers| ==> trailers[i].Ok()
    ensures Reads(Chunked(Trailer, []), EncodeTrailers(trailers), Chunked(Trailer, []))
  {
    if trailers != [] {
      var c := Chunked(Trailer, []);
      TrailerRead(trailers[0]);
      TrailersRead(trailers[1..]);
      ReadsThen(c, trailers[0].Encode(), c, EncodeTrailers(trailers[1..]), c);
    }
  }

  lemma EndRead(e: Eol)
    ensures Reads(Chunked(Trailer, []), EolBytes(e), Chunked(Done, EolBytes(e)))
  {
    var c := Chunked(Trailer, []);
    assert c.line + [CR] == [CR] && c.line + [LF] == [LF] && [CR] + [LF] == [CR, LF];
    if e.Crlf? {
      ReadsOne(c, CR);
      ReadsOne(Chunked(Trailer, [CR]), LF);
      ReadsThen(c, [CR], Chunked(Trailer, [CR]), [LF], Chunked(Done, [CR, LF]));
    } else {
      ReadsOne(c, LF);
    }
  }

  lemma BodyRead(b: ChunkedBody)
    requires b.Ok()
    ensures Reads(Start, b.Encode(), Chunked(Done, EolBytes(b.eol)))
  {
    var t := Chunked(Trailer, []);
    var head := EncodeChunks(b.chunks) + b.zero.Encode();
    ChunksRead(b.chunks);
    SizeLineRead(b.zero);
    TrailersRead(b.trailers);
    EndRead(b.eol);
    ReadsThen(Start, EncodeChunks(b.chunks), Start, b.zero.Encode(), t);
    ReadsThen(Start, head, t, EncodeTrailers(b.trailers), t);
    ReadsThen(Start, head + EncodeTrailers(b.trailers), t, EolBytes(b.eol), Chunked(Done, EolBytes(b.eol)));
  }

  /** Chunked framing is exact: of a chunked body followed by anything at all,
      precisely the body is taken, and the framing is then complete. */
  lemma ChunkedBodyIsExact(b: ChunkedBody, rest: seq<byte>)
    requires b.Ok()
    ensures var (c, n) := Take(Start, b.Encode() + rest);
      c.state.Done? && n == |b.Encode()|
  {
    BodyRead(b);
    TakeConcat(Start, b.Encode(), rest);
  }

  /** And not a byte earlier: no strict prefix of the body completes it. */
  lemma StrictPrefixIsIncomplete(b: ChunkedBody, k: nat)
    requires b.Ok() && k < |b.Encode()|
    ensures var (c, n) := Take(Start, b.Encode()[..k]);
      !c.state.Done? && n == k
  {
    BodyRead(b);
    var a, z := b.Encode()[..k], b.Encode()[k..];
    assert a + z == b.Encode();
    TakeConcat(Start, a, z);
    if Take(Start, a).1 < k {
      ShortTakeIsDone(Start, a);
    }
  }

  // --------------------------------------------- framing that cannot be followed

  /** A size line that cannot be read ends the body with that line. */
  lemma UnreadableSizeEndsBody(text: seq<byte>, rest: seq<byte>)
    requires NoLf(text) && |text| <= MAX_CHUNK_SIZE_LINE && ChunkSize(text + [LF]).None?
    ensures Take(Start, text + [LF] + rest) == (Chunked(Done, text + [LF]), |text| + 1)
  {
    hide ChunkSize;
    HoldsSizeText([], text);
    assert [] + text == text;
    ReadsOne(Chunked(Size, text), LF);
    ReadsThen(Start, text, Chunked(Size, text), [LF], Chunked(Done, text + [LF]));
    TakeConcat(Start, text + [LF], rest);
  }

  /** A line that outgrows its limit ends the body at the byte that does not fit. */
  lemma OverlongSizeEndsBody(text: seq<byte>, b: byte, rest: seq<byte>)
    requires NoLf(text + [b]) && |text| == MAX_CHUNK_SIZE_LINE
    ensures Take(Start, text + [b] + rest) == (Chunked(Done, text + [b]), MAX_CHUNK_SIZE_LINE + 1)
  {
    hide ChunkSize;
    assert (text + [b])[|text|] == b;
    assert NoLf(text) by {
      forall i | 0 <= i < |text| ensures text[i] != LF { assert (text + [b])[i] == text[i]; }
    }
    HoldsSizeText([], text);
    assert [] + text == text;
    ReadsOne(Chunked(Size, text), b);
    ReadsThen(Start, text, Chunked(Size, text), [b], Chunked(Done, text + [b]));
    TakeConcat(Start, text + [b], rest);
  }

  lemma OverlongTrailerEndsBody(text: seq<byte>, b: byte, rest: seq<byte>)
    requires NoLf(text + [b]) && |text| == MAX_TRAILER_LINE
    ensures Take(Chunked(Trailer, []), text + [b] + rest)
            == (Chunked(Done, text + [b]), MAX_TRAILER_LINE + 1)
  {
    var c := Chunked(Trailer, []);
    assert (text + [b])[|text|] == b;
    assert NoLf(text) by {
      forall i | 0 <= i < |text| ensures text[i] != LF { assert (text + [b])[i] == text[i]; }
    }
    HoldsTrailerText([], text);
    assert [] + text == text;
    ReadsOne(Chunked(Trailer, text), b);
    ReadsThen(c, text, Chunked(Trailer, text), [b], Chunked(Done, text + [b]));
    TakeConcat(c, text + [b], rest);
  }

  // ------------------------------------------------------ any body, any segments

  datatype Body = NoBody | Length(left: nat) | Framed(chunked: Chunked)

  predicate ValidBody(b: Body) {
    b.Framed? ==> Valid(b.chunked)
  }

  predicate IsComplete(b: Body) {
    match b
    case NoBody => true
    case Length(left) => left == 0
    case Framed(c) => c.state.Done?
  }

  function BodyTake(b: Body, bytes: seq<byte>): (r: (Body, nat))
    requires ValidBody(b)
    ensures ValidBody(r.0) && r.1 <= |bytes|
  {
    match b
    case NoBody => (b, 0)
    case Length(left) =>
      var n := if left < |bytes| then left else |bytes|;
      (Length(left - n), n)
    case Framed(c) =>
      var (d, n) := Take(c, bytes);
      (Framed(d), n)
  }

  /** The body fed one segment after another: where it ends up, and how much it took. */
  function TakeSegments(b: Body, segments: seq<seq<byte>>): (r: (Body, nat))
    requires ValidBody(b)
    decreases segments
  {
    if segments == [] then (b, 0)
    else
      var (c, n) := BodyTake(b, segments[0]);
      var (d, m) := TakeSegments(c, segments[1..]);
      (d, n + m)
  }

  lemma BodyTakeConcat(b: Body, x: seq<byte>, y: seq<byte>)
    requires ValidBody(b)
    ensures var (c, n) := BodyTake(b, x);
      var (d, m) := BodyTake(c, y);
      BodyTake(b, x + y) == (d, n + m)
  {
    hide Take, Valid;
    if b.Framed? {
      TakeConcat(b.chunked, x, y);
    }
  }

  /** However the input is cut into segments, the body ends in the same place. */
  lemma {:induction false} SegmentsDoNotMatter(b: Body, segments: seq<seq<byte>>)
    requires ValidBody(b)
    ensures TakeSegments(b, segments) == BodyTake(b, Concat(segments))
    decreases segments
  {
    if segments != [] {
      BodyTakeConcat(b, segments[0], Concat(segments[1..]));
      SegmentsDoNotMatter(BodyTake(b, segments[0]).0, segments[1..]);
    }
  }

  /** A short take implies the body is over, and a body that is over takes nothing more. */
  lemma ShortTakeCompletes(b: Body, bytes: seq<byte>)
    requires ValidBody(b)
    ensures BodyTake(b, bytes).1 < |bytes| ==> IsComplete(BodyTake(b, bytes).0)
    ensures IsComplete(b) ==> BodyTake(b, bytes) == (b, 0)
  {
    if b.Framed? && BodyTake(b, bytes).1 < |bytes| {
      ShortTakeIsDone(b.chunked, bytes);
    }
  }

  // ------------------------------------------------------------ what is declared

  /** What one Content-Length value says, if it can be read. */
  function DeclaredLength(value: seq<byte>): Option<nat> {
    if AllVisible(value) then ParseU64(Trim(value), 10) else None
  }

  /** `value` is a decimal numeral for `n` between blanks. */
  ghost predicate Says(value: seq<byte>, n: nat) {
    exists a, numeral, b ::
      value == a + numeral + b && AllBlank(a) && AllBlank(b) && IsNumeral(numeral, n, 10)
  }

  /** Exactly the decimal numerals below 2^64, blanks around them or not, are
      lengths, each the number it writes. */
  lemma DeclaredLengthIff(value: seq<byte>, n: nat)
    ensures DeclaredLength(value) == Some(n) <==> n < U64 && Says(value, n)
  {
    if n < U64 && Says(value, n) {
      SaidLengthReads(value, n);
    }
    if DeclaredLength(value) == Some(n) {
      hide IsNumeral, Trim, ParseU64;
      var a, b := TrimSplits(value);
      assert AllVisible(a) by { assert a == value[..|a|]; }
      assert AllVisible(b) by { assert b == value[|value| - |b|..]; }
      VisibleSpacesAreBlank(a);
      VisibleSpacesAreBlank(b);
      ParseIff(Trim(value), n, 10);
    }
  }

  lemma SaidLengthReads(value: seq<byte>, n: nat)
    requires n < U64 && Says(value, n)
    ensures DeclaredLength(value) == Some(n)
  {
    hide IsNumeral, Trim, ParseU64;
    var a, numeral, b :| value == a + numeral + b && AllBlank(a) && AllBlank(b) && IsNumeral(numeral, n, 10);
    NumeralIsPlain(numeral, n, 10);
    BlanksAreSpaces(a);
    BlanksAreSpaces(b);
    TrimBetween(a, numeral, b);
    ParseIff(numeral, n, 10);
  }

  /** So a plain number says itself. */
  lemma PlainLengthIsSaid(n: nat)
    ensures Says(Digits(n, 10), n)
  {
    DigitsWrite(n, 10);
    assert Digits(n, 10) == [] + Digits(n, 10) + [];
  }

  /** And a plain size line reads as its size. */
  lemma PlainSizeReads(n: nat)
    requires n < U64
    ensures ChunkSize(Digits(n, 16) + [CR, LF]) == Some(n)
  {
    hide ChunkSize, Writes, Digits, IsSpaces;
    DigitsWrite(n, 16);
    NoSpaces();
    assert Digits(n, 16) + [CR, LF] == [] + Digits(n, 16) + [] + [] + EolBytes(Crlf);
    SaysSizeOf([], Digits(n, 16), [], [], Crlf, n);
    ChunkSizeIff(Digits(n, 16) + [CR, LF], n);
  }

  ghost predicate AllSay(lengths: seq<seq<byte>>, n: nat) {
    lengths != [] && n < U64 && forall i :: 0 <= i < |lengths| ==> Says(lengths[i], n)
  }

  lemma AllSayIff(lengths: seq<seq<byte>>, n: nat)
    ensures AllSay(lengths, n) <==>
      lengths != [] && forall i :: 0 <= i < |lengths| ==> DeclaredLength(lengths[i]) == Some(n)
  {
    hide Says, DeclaredLength;
    forall i | 0 <= i < |lengths|
      ensures DeclaredLength(lengths[i]) == Some(n) <==> n < U64 && Says(lengths[i], n)
    {
      DeclaredLengthIff(lengths[i], n);
    }
    if lengths != [] && forall i :: 0 <= i < |lengths| ==> DeclaredLength(lengths[i]) == Some(n) {
      assert DeclaredLength(lengths[0]) == Some(n);
    }
  }

  /** A body of declared length is the first that many bytes, however they
      arrive, and complete exactly with the last of them. */
  lemma LengthIsExact(n: nat, segments: seq<seq<byte>>)
    ensures var (b, taken) := TakeSegments(Length(n), segments);
      && taken == (if |Concat(segments)| < n then |Concat(segments)| else n)
      && (IsComplete(b) <==> n <= |Concat(segments)|)
  {
    SegmentsDoNotMatter(Length(n), segments);
  }

  /** A request has a body of a known length exactly when no transfer encoding
      is named, at least one length is, and all of them can be read and agree. */
  method Declared(hasTransferEncoding: bool, lengths: seq<seq<byte>>) returns (b: Body)
    ensures hasTransferEncoding ==> b == Framed(Start)
    ensures !hasTransferEncoding ==> !b.Framed?
    ensures forall n: nat :: AllSay(lengths, n) && !hasTransferEncoding ==> b == Length(n)
    ensures b.Length? ==> AllSay(lengths, b.left)
  {
    hide DeclaredLength, AllSay;
    forall n: nat {
      AllSayIff(lengths, n);
    }
    if hasTransferEncoding {
      return Framed(Start);
    }
    var length: Option<nat> := None;
    for i := 0 to |lengths|
      invariant i == 0 <==> length.None?
      invariant forall j :: 0 <= j < i ==> DeclaredLength(lengths[j]) == length
    {
      var number := DeclaredLength(lengths[i]);
      if number.None? || (length.Some? && length != number) {
        assert i > 0 ==> DeclaredLength(lengths[0]) == length;
        return NoBody;
      }
      length := number;
    }
    b := if length.Some? then Length(length.value) else NoBody;
    assert lengths != [] ==> DeclaredLength(lengths[0]) == length;
  }

  // -------------------------------------------------------------------- in place

  /** The chunked framing as the program runs it: a state and a held line. */
  class ChunkedReader {
    var state: ChunkState
    var line: seq<byte>

    function View(): Chunked
      reads this
    {
      Chunked(state, line)
    }

    constructor (c: Chunked)
      ensures View() == c
    {
      state, line := c.state, c.line;
    }

    method TakeBytes(bytes: seq<byte>) returns (taken: nat)
      requires Valid(View())
      modifies this
      ensures (View(), taken) == Take(old(View()), bytes)
    {
      hide Feed, Valid, Take;
      taken := 0;
      assert bytes[0..] == bytes;
      for i := 0 to |bytes|
        invariant Valid(View()) && taken == i
        invariant var (d, n) := Take(View(), bytes[i..]);
          Take(old(View()), bytes) == (d, taken + n)
      {
        TakeStep(View(), bytes, i);
        if state.Done? {
          return;
        }
        taken := taken + 1;
        FeedByte(bytes[i]);
      }
      TakeNothing(View());
      assert bytes[|bytes|..] == [];
    }

    method FeedByte(b: byte)
      requires Valid(View()) && !state.Done?
      modifies this
      ensures View() == Feed(old(View()), b)
    {
      match state
      case Size =>
        line := line + [b];
        if b == LF {
          var size := ChunkSize(line);
          if size.None? {
            state := Done;
          } else if size.value == 0 {
            line, state := [], Trailer;
          } else {
            line, state := [], Data(size.value);
          }
        } else if |line| > MAX_CHUNK_SIZE_LINE {
          state := Done;
        }
      case Data(left) =>
        state := if left - 1 == 0 then ChunkEnd else Data(left - 1);
      case ChunkEnd =>
        if b == LF {
          state := Size;
        }
      case Trailer =>
        line := line + [b];
        if b == LF {
          if IsEmptyLine(line) {
            state := Done;
          } else {
            line := [];
          }
        } else if |line| > MAX_TRAILER_LINE {
          state := Done;
        }
    }
  }

  /** A `Body` updated in place, segment by segment. */
  class RequestBody {
    var body: Body

    constructor (body: Body)
      ensures this.body == body
    {
      this.body := body;
    }

    method TakeBytes(bytes: seq<byte>) returns (taken: nat)
      requires ValidBody(body)
      modifies this
      ensures (body, taken) == BodyTake(old(body), bytes)
    {
      match body
      case NoBody => taken := 0;
      case Length(left) =>
        taken := if left < |bytes| then left else |bytes|;
        body := Length(left - taken);
      case Framed(c) =>
        var reader := new ChunkedReader(c);
        taken := reader.TakeBytes(bytes);
        body := Framed(reader.View());
    }
  }
}
