/** The host name in a TLS ClientHello (crates/nexapipe-proto/src/tls.rs;
    sections 4.1.2 and 5.1 of RFC 8446, section 3 of RFC 6066). */
module TlsSni {
  import opened Wrappers
  import opened Bytes

  const TLS_HANDSHAKE: byte := 0x16
  const HANDSHAKE_CLIENT_HELLO: byte := 0x01
  const EXT_SERVER_NAME: nat := 0
  const NAME_TYPE_HOST: byte := 0
  const MAX_HOST_NAME_LEN: nat := 253

  predicate IsPresentable(name: seq<byte>) {
    0 < |name| <= MAX_HOST_NAME_LEN && forall i :: 0 <= i < |name| ==> 0x21 <= name[i] <= 0x7e
  }

  // ------------------------------------------------------------- what is read

  function Skip(s: seq<byte>, n: nat): Option<seq<byte>> {
    if n <= |s| then Some(s[n..]) else None
  }

  /** Past a field with a one-byte length. */
  function SkipVec8(s: seq<byte>): Option<seq<byte>> {
    if |s| < 1 then None else Skip(s[1..], s[0])
  }

  /** Past a field with a two-byte length. */
  function SkipVec16(s: seq<byte>): Option<seq<byte>> {
    if |s| < 2 then None else Skip(s[2..], U16(s))
  }

  /** A walk over a list either settles the answer or goes on. */
  datatype Walk = Answer(sni: Option<seq<byte>>) | GoOn

  function Names(l: seq<byte>): Walk {
    if |l| < 3 then GoOn
    else
      var n := U16(l[1..]);
      if 3 + n > |l| then Answer(None)
      else if l[0] != NAME_TYPE_HOST then Names(l[3 + n..])
      else Answer(if IsPresentable(l[3..3 + n]) then Some(l[3..3 + n]) else None)
  }

  function NameList(d: seq<byte>): Walk {
    if |d| < 2 then Answer(None) else Names(d[2..])
  }

  function Extensions(e: seq<byte>): Option<seq<byte>> {
    if |e| < 4 then None
    else
      var n := U16(e[2..]);
      if 4 + n > |e| then None
      else
        var walk := if U16(e) == EXT_SERVER_NAME then NameList(e[4..4 + n]) else GoOn;
        match walk
        case Answer(sni) => sni
        case GoOn => Extensions(e[4 + n..])
  }

  function ExtensionBlock(s: seq<byte>): Option<seq<byte>> {
    if |s| < 2 || 2 + U16(s) > |s| then None else Extensions(s[2..2 + U16(s)])
  }

  /** The fields between the random and the extensions. */
  function AfterRandom(s: seq<byte>): Option<seq<byte>> {
    match SkipVec8(s)
    case None => None
    case Some(suites) =>
      match SkipVec16(suites)
      case None => None
      case Some(compression) =>
        match SkipVec8(compression)
        case None => None
        case Some(extensions) => ExtensionBlock(extensions)
  }

  function Handshake(r: seq<byte>): Option<seq<byte>> {
    if |r| < 38 || r[0] != HANDSHAKE_CLIENT_HELLO then None else AfterRandom(r[38..])
  }

  /** The length of the record `data` starts with, its header included. */
  function RecordEnd(data: seq<byte>): nat
    requires |data| >= 5
  {
    5 + U16(data[3..])
  }

  function Sni(data: seq<byte>): Option<seq<byte>> {
    if |data| < 5 || data[0] != TLS_HANDSHAKE || |data| < RecordEnd(data) then None
    else Handshake(data[5..RecordEnd(data)])
  }

  // ------------------------------------------------------------ what is written

  datatype Entry = Entry(kind: byte, name: seq<byte>)
  {
    predicate Ok() { |name| < 0x1_0000 }

    function Encode(): seq<byte>
      requires Ok()
    {
      [kind] + U16Bytes(|name|) + name
    }
  }

  predicate OtherEntries(es: seq<Entry>) {
    forall i :: 0 <= i < |es| ==> es[i].Ok() && es[i].kind != NAME_TYPE_HOST
  }

  function EncodeEntries(es: seq<Entry>): seq<byte>
    requires OtherEntries(es)
  {
    if es == [] then [] else es[0].Encode() + EncodeEntries(es[1..])
  }

  /** An extension that carries no host name. */
  datatype Ext =
    | Other(kind: nat, body: seq<byte>)
    | Nameless(listLength: seq<byte>, entries: seq<Entry>, stray: seq<byte>)
  {
    predicate Ok() {
      match this
      case Other(kind, body) => 0 < kind < 0x1_0000 && |body| < 0x1_0000
      case Nameless(listLength, entries, stray) =>
        |listLength| == 2 && OtherEntries(entries) && |stray| < 3 && |Body()| < 0x1_0000
    }

    function Kind(): nat {
      match this case Other(kind, _) => kind case Nameless(_, _, _) => EXT_SERVER_NAME
    }

    function Body(): seq<byte>
      requires Nameless? ==> OtherEntries(entries)
    {
      match this
      case Other(_, body) => body
      case Nameless(listLength, entries, stray) => listLength + (EncodeEntries(entries) + stray)
    }
  }

  function EncodeExt(kind: nat, body: seq<byte>): seq<byte>
    requires kind < 0x1_0000 && |body| < 0x1_0000
  {
    U16Bytes(kind) + U16Bytes(|body|) + body
  }

  predicate SkippedExts(xs: seq<Ext>) {
    forall i :: 0 <= i < |xs| ==> xs[i].Ok()
  }

  function EncodeExts(xs: seq<Ext>): seq<byte>
    requires SkippedExts(xs)
  {
    if xs == [] then [] else EncodeExt(xs[0].Kind(), xs[0].Body()) + EncodeExts(xs[1..])
  }

  /** A ClientHello with a host name in it, and everything that may surround it. */
  datatype Hello = Hello(
    recordVersion: seq<byte>,
    handshakeLength: seq<byte>,
    versionAndRandom: seq<byte>,
    sessionId: seq<byte>,
    suites: seq<byte>,
    compression: seq<byte>,
    before: seq<Ext>,
    listLength: seq<byte>,
    entries: seq<Entry>,
    name: seq<byte>,
    restOfList: seq<byte>,
    restOfExtensions: seq<byte>,
    restOfRecord: seq<byte>)
  {
    predicate Ok() {
      && |recordVersion| == 2 && |handshakeLength| == 3 && |versionAndRandom| == 34
      && |sessionId| < 0x100 && |suites| < 0x1_0000 && |compression| < 0x100
      && SkippedExts(before) && |listLength| == 2 && OtherEntries(entries)
      && |name| < 0x1_0000
      && |ServerName()| < 0x1_0000
      && |EncodeExtensions()| < 0x1_0000
      && |Payload()| < 0x1_0000
    }

    function List(): seq<byte>
      requires OtherEntries(entries) && |name| < 0x1_0000
    {
      EncodeEntries(entries) + (Entry(NAME_TYPE_HOST, name).Encode() + restOfList)
    }

    function ServerName(): seq<byte>
      requires OtherEntries(entries) && |name| < 0x1_0000
    {
      listLength + List()
    }

    function EncodeExtensions(): seq<byte>
      requires SkippedExts(before) && OtherEntries(entries) && |name| < 0x1_0000
      requires |ServerName()| < 0x1_0000
    {
      EncodeExts(before) + (EncodeExt(EXT_SERVER_NAME, ServerName()) + restOfExtensions)
    }

    function Fields(): seq<byte>
      requires |sessionId| < 0x100 && |suites| < 0x1_0000 && |compression| < 0x100
      requires SkippedExts(before) && OtherEntries(entries) && |name| < 0x1_0000
      requires |ServerName()| < 0x1_0000 && |EncodeExtensions()| < 0x1_0000
    {
      ([|sessionId|] + sessionId) + ((U16Bytes(|suites|) + suites)
      + (([|compression|] + compression) + (U16Bytes(|EncodeExtensions()|) + EncodeExtensions() + restOfRecord)))
    }

    function Payload(): seq<byte>
      requires |sessionId| < 0x100 && |suites| < 0x1_0000 && |compression| < 0x100
      requires SkippedExts(before) && OtherEntries(entries) && |name| < 0x1_0000
      requires |ServerName()| < 0x1_0000 && |EncodeExtensions()| < 0x1_0000
    {
      [HANDSHAKE_CLIENT_HELLO] + handshakeLength + versionAndRandom + Fields()
    }

    function Encode(): seq<byte>
      requires Ok()
    {
      [TLS_HANDSHAKE] + recordVersion + U16Bytes(|Payload()|) + Payload()
    }
  }

  // --------------------------------------------------- reading what was written

  lemma SkipVec8Reads(x: seq<byte>, rest: seq<byte>)
    requires |x| < 0x100
    ensures SkipVec8(([|x|] + x) + rest) == Some(rest)
  {
    var s := ([|x|] + x) + rest;
    assert s[1..] == x + rest;
    assert (x + rest)[|x|..] == rest;
  }

  lemma SkipVec16Reads(x: seq<byte>, rest: seq<byte>)
    requires |x| < 0x1_0000
    ensures SkipVec16((U16Bytes(|x|) + x) + rest) == Some(rest)
  {
    var s := (U16Bytes(|x|) + x) + rest;
    U16Inverse(|x|, x + rest);
    assert s == U16Bytes(|x|) + (x + rest);
    assert s[2..] == x + rest;
    assert (x + rest)[|x|..] == rest;
  }

  /** One entry in front of a list. */
  lemma EntryReads(e: Entry, rest: seq<byte>)
    requires e.Ok()
    ensures var l := e.Encode() + rest;
      && |l| >= 3 && l[0] == e.kind && U16(l[1..]) == |e.name| && 3 + |e.name| <= |l|
      && l[3..3 + |e.name|] == e.name && l[3 + |e.name|..] == rest
  {
    var l := e.Encode() + rest;
    assert l[1..] == U16Bytes(|e.name|) + (e.name + rest);
    U16Inverse(|e.name|, e.name + rest);
  }

  lemma {:induction false} NamesSkip(es: seq<Entry>, rest: seq<byte>)
    requires OtherEntries(es)
    ensures Names(EncodeEntries(es) + rest) == Names(rest)
  {
    if es == [] {
      assert EncodeEntries(es) + rest == rest;
    } else {
      var tail := EncodeEntries(es[1..]) + rest;
      assert EncodeEntries(es) + rest == es[0].Encode() + tail;
      EntryReads(es[0], tail);
      NamesSkip(es[1..], rest);
    }
  }

  function Presented(name: seq<byte>): Option<seq<byte>> {
    if IsPresentable(name) then Some(name) else None
  }

  lemma ListReads(h: Hello)
    requires h.Ok()
    ensures NameList(h.ServerName()) == Answer(Presented(h.name))
  {
    var e := Entry(NAME_TYPE_HOST, h.name);
    assert h.ServerName()[2..] == h.List();
    NamesSkip(h.entries, e.Encode() + h.restOfList);
    EntryReads(e, h.restOfList);
  }

  lemma NamelessReads(x: Ext)
    requires x.Ok() && x.Nameless?
    ensures NameList(x.Body()) == GoOn
  {
    assert x.Body()[2..] == EncodeEntries(x.entries) + x.stray;
    NamesSkip(x.entries, x.stray);
  }

  /** One extension in front of others. */
  lemma ExtReads(kind: nat, body: seq<byte>, rest: seq<byte>)
    requires kind < 0x1_0000 && |body| < 0x1_0000
    ensures var e := EncodeExt(kind, body) + rest;
      && |e| >= 4 && U16(e) == kind && U16(e[2..]) == |body| && 4 + |body| <= |e|
      && e[4..4 + |body|] == body && e[4 + |body|..] == rest
  {
    var e := EncodeExt(kind, body) + rest;
    assert e == U16Bytes(kind) + (U16Bytes(|body|) + (body + rest));
    assert e[2..] == U16Bytes(|body|) + (body + rest);
    U16Inverse(kind, U16Bytes(|body|) + (body + rest));
    U16Inverse(|body|, body + rest);
  }

  lemma {:induction false} ExtsSkip(xs: seq<Ext>, rest: seq<byte>)
    requires SkippedExts(xs)
    ensures Extensions(EncodeExts(xs) + rest) == Extensions(rest)
  {
    if xs == [] {
      assert EncodeExts(xs) + rest == rest;
    } else {
      var tail := EncodeExts(xs[1..]) + rest;
      assert EncodeExts(xs) + rest == EncodeExt(xs[0].Kind(), xs[0].Body()) + tail;
      ExtReads(xs[0].Kind(), xs[0].Body(), tail);
      if xs[0].Nameless? {
        NamelessReads(xs[0]);
      }
      ExtsSkip(xs[1..], rest);
    }
  }

  lemma ExtensionsRead(h: Hello)
    requires h.Ok()
    ensures Extensions(h.EncodeExtensions()) == Presented(h.name)
  {
    ExtsSkip(h.before, EncodeExt(EXT_SERVER_NAME, h.ServerName()) + h.restOfExtensions);
    ExtReads(EXT_SERVER_NAME, h.ServerName(), h.restOfExtensions);
    ListReads(h);
  }

  lemma BlockReads(exts: seq<byte>, rest: seq<byte>)
    requires |exts| < 0x1_0000
    ensures ExtensionBlock(U16Bytes(|exts|) + exts + rest) == Extensions(exts)
  {
    var block := U16Bytes(|exts|) + exts + rest;
    assert block == U16Bytes(|exts|) + (exts + rest);
    U16Inverse(|exts|, exts + rest);
    assert block[2..2 + |exts|] == exts;
  }

  lemma FieldsRead(h: Hello)
    requires h.Ok()
    ensures AfterRandom(h.Fields()) == Presented(h.name)
  {
    hide SkipVec8, SkipVec16, ExtensionBlock, Extensions;
    var exts := h.EncodeExtensions();
    ExtensionsRead(h);
    BlockReads(exts, h.restOfRecord);
    FieldsSkip(h.sessionId, h.suites, h.compression, U16Bytes(|exts|) + exts + h.restOfRecord);
  }

  lemma FieldsSkip(id: seq<byte>, suites: seq<byte>, compression: seq<byte>, block: seq<byte>)
    requires |id| < 0x100 && |suites| < 0x1_0000 && |compression| < 0x100
    ensures AfterRandom(([|id|] + id) + ((U16Bytes(|suites|) + suites)
                        + (([|compression|] + compression) + block)))
            == ExtensionBlock(block)
  {
    hide SkipVec8, SkipVec16, ExtensionBlock;
    var tail := ([|compression|] + compression) + block;
    SkipVec8Reads(id, (U16Bytes(|suites|) + suites) + tail);
    SkipVec16Reads(suites, tail);
    SkipVec8Reads(compression, block);
  }

  lemma FramedReads(version: seq<byte>, p: seq<byte>, rest: seq<byte>)
    requires |version| == 2 && |p| < 0x1_0000
    ensures var data := [TLS_HANDSHAKE] + version + U16Bytes(|p|) + p + rest;
      && |data| >= 5 && data[0] == TLS_HANDSHAKE && RecordEnd(data) == 5 + |p|
      && data[5..RecordEnd(data)] == p
  {
    var length := U16Bytes(|p|);
    U16Inverse(|p|, p + rest);
    hide U16, U16Bytes;
    var data := [TLS_HANDSHAKE] + version + length + p + rest;
    assert data[3..] == length + (p + rest);
    assert data[5..5 + |p|] == p;
  }

  lemma RecordReads(h: Hello, rest: seq<byte>)
    requires h.Ok()
    ensures var data := h.Encode() + rest;
      && |data| >= 5 && data[0] == TLS_HANDSHAKE && RecordEnd(data) == |h.Encode()|
      && data[5..RecordEnd(data)] == h.Payload()
  {
    hide Hello.Payload, U16Bytes, RecordEnd;
    FramedReads(h.recordVersion, h.Payload(), rest);
  }

  /** For every ClientHello with a host name, whatever surrounds the name and
      whatever follows the record, the name is what is read, if it is one to act on. */
  lemma HelloReads(h: Hello, rest: seq<byte>)
    requires h.Ok()
    ensures Sni(h.Encode() + rest) == Presented(h.name)
  {
    RecordReads(h, rest);
    var p := h.Payload();
    assert |p| >= 38 && p[0] == HANDSHAKE_CLIENT_HELLO && p[38..] == h.Fields();
    FieldsRead(h);
  }

  // ------------------------------------------------- nothing else is read as one

  lemma EntriesCons(e: Entry, more: seq<Entry>, rest: seq<byte>)
    requires e.Ok() && e.kind != NAME_TYPE_HOST && OtherEntries(more)
    ensures OtherEntries([e] + more)
    ensures EncodeEntries([e] + more) + rest == e.Encode() + (EncodeEntries(more) + rest)
  {
    hide Entry.Encode;
    assert ([e] + more)[1..] == more && ([e] + more)[0] == e;
    var x, m := e.Encode(), EncodeEntries(more);
    assert (x + m) + rest == x + (m + rest);
  }

  lemma EntryShape(l: seq<byte>)
    requires |l| >= 3 && 3 + U16(l[1..]) <= |l|
    ensures var n := U16(l[1..]); l == Entry(l[0], l[3..3 + n]).Encode() + l[3 + n..]
  {
    U16BytesInverse(l[1..]);
    var n := U16(l[1..]);
    hide U16, U16Bytes;
    assert l[1..][..2] == l[1..3];
    assert l == [l[0]] + l[1..3] + l[3..3 + n] + l[3 + n..];
  }

  lemma {:induction false} NamesGoOnShape(l: seq<byte>) returns (es: seq<Entry>, stray: seq<byte>)
    requires Names(l) == GoOn
    ensures OtherEntries(es) && |stray| < 3 && l == EncodeEntries(es) + stray
  {
    hide Entry.Encode, OtherEntries;
    if |l| < 3 {
      es, stray := [], l;
      NoEntries(l);
    } else {
      var n := U16(l[1..]);
      var e := Entry(l[0], l[3..3 + n]);
      EntryShape(l);
      var more;
      more, stray := NamesGoOnShape(l[3 + n..]);
      es := [e] + more;
      EntriesCons(e, more, stray);
    }
  }

  lemma NoEntries(rest: seq<byte>)
    ensures OtherEntries([]) && EncodeEntries([]) + rest == rest
  {
  }

  lemma {:induction false} NamesAnswerShape(l: seq<byte>, name: seq<byte>)
    returns (es: seq<Entry>, rest: seq<byte>)
    requires Names(l) == Answer(Some(name))
    ensures OtherEntries(es) && |name| < 0x1_0000
    ensures l == EncodeEntries(es) + (Entry(NAME_TYPE_HOST, name).Encode() + rest)
  {
    hide Entry.Encode, OtherEntries, IsPresentable;
    var n := U16(l[1..]);
    EntryShape(l);
    if l[0] == NAME_TYPE_HOST {
      es, rest := [], l[3 + n..];
      NoEntries(l);
    } else {
      var e := Entry(l[0], l[3..3 + n]);
      var more;
      more, rest := NamesAnswerShape(l[3 + n..], name);
      es := [e] + more;
      EntriesCons(e, more, Entry(NAME_TYPE_HOST, name).Encode() + rest);
    }
  }

  lemma ExtShape(e: seq<byte>)
    requires |e| >= 4 && 4 + U16(e[2..]) <= |e|
    ensures var n := U16(e[2..]); e == EncodeExt(U16(e), e[4..4 + n]) + e[4 + n..]
  {
    U16BytesInverse(e);
    U16BytesInverse(e[2..]);
    var n := U16(e[2..]);
    hide U16, U16Bytes;
    assert e[2..][..2] == e[2..4];
    assert e == e[..2] + e[2..4] + e[4..4 + n] + e[4 + n..];
  }

  /** The extension `e` starts with, when the walk goes past it. */
  lemma SkippedShape(e: seq<byte>) returns (x: Ext)
    requires |e| >= 4 && 4 + U16(e[2..]) <= |e|
    requires U16(e) == EXT_SERVER_NAME ==> NameList(e[4..4 + U16(e[2..])]) == GoOn
    ensures x.Ok() && x.Kind() == U16(e) && x.Body() == e[4..4 + U16(e[2..])]
  {
    var d := e[4..4 + U16(e[2..])];
    if U16(e) == EXT_SERVER_NAME {
      var es, stray := NamesGoOnShape(d[2..]);
      x := Nameless(d[..2], es, stray);
      assert d == d[..2] + d[2..];
    } else {
      x := Other(U16(e), d);
    }
  }

  lemma {:induction false} ExtensionsShape(e: seq<byte>, name: seq<byte>)
    returns (xs: seq<Ext>, list: seq<byte>, rest: seq<byte>)
    requires Extensions(e) == Some(name)
    ensures SkippedExts(xs) && 2 <= |list| < 0x1_0000 && Names(list[2..]) == Answer(Some(name))
    ensures e == EncodeExts(xs) + (EncodeExt(EXT_SERVER_NAME, list) + rest)
  {
    hide Names, EncodeExt;
    var n := U16(e[2..]);
    ExtShape(e);
    if U16(e) == EXT_SERVER_NAME && NameList(e[4..4 + n]).Answer? {
      xs, list, rest := [], e[4..4 + n], e[4 + n..];
      assert e == [] + e;
    } else {
      var x := SkippedShape(e);
      var more;
      more, list, rest := ExtensionsShape(e[4 + n..], name);
      xs := [x] + more;
      ExtsCons(x, more, EncodeExt(EXT_SERVER_NAME, list) + rest);
    }
  }

  lemma ExtsCons(x: Ext, more: seq<Ext>, rest: seq<byte>)
    requires x.Ok() && SkippedExts(more)
    ensures SkippedExts([x] + more)
    ensures EncodeExts([x] + more) + rest == EncodeExt(x.Kind(), x.Body()) + (EncodeExts(more) + rest)
  {
    hide EncodeExt;
    assert ([x] + more)[1..] == more && ([x] + more)[0] == x;
    var e, m := EncodeExt(x.Kind(), x.Body()), EncodeExts(more);
    assert (e + m) + rest == e + (m + rest);
  }

  lemma Vec8Shape(s: seq<byte>)
    requires SkipVec8(s).Some?
    ensures var x := s[1..1 + s[0]]; |x| < 0x100 && s == ([|x|] + x) + SkipVec8(s).value
  {
    var x := s[1..1 + s[0]];
    assert |x| == s[0];
    assert s == ([s[0]] + x) + s[1 + s[0]..];
  }

  lemma Vec16Shape(s: seq<byte>)
    requires SkipVec16(s).Some?
    ensures var x := s[2..2 + U16(s)];
      |x| < 0x1_0000 && s == (U16Bytes(|x|) + x) + SkipVec16(s).value
  {
    U16BytesInverse(s);
    assert s == (s[..2] + s[2..2 + U16(s)]) + s[2 + U16(s)..];
  }

  lemma BlockShape(s: seq<byte>)
    requires ExtensionBlock(s).Some?
    ensures var x := s[2..2 + U16(s)];
      && |x| < 0x1_0000 && s == U16Bytes(|x|) + x + s[2 + U16(s)..]
      && ExtensionBlock(s) == Extensions(x)
  {
    U16BytesInverse(s);
    assert s == s[..2] + s[2..2 + U16(s)] + s[2 + U16(s)..];
  }

  /** The length fields of the record say how it divides. */
  lemma FieldsShape(s: seq<byte>)
    returns (id: seq<byte>, suites: seq<byte>, compression: seq<byte>, exts: seq<byte>, rest: seq<byte>)
    requires AfterRandom(s).Some?
    ensures |id| < 0x100 && |suites| < 0x1_0000 && |compression| < 0x100 && |exts| < 0x1_0000
    ensures s == ([|id|] + id) + ((U16Bytes(|suites|) + suites)
                 + (([|compression|] + compression) + (U16Bytes(|exts|) + exts + rest)))
    ensures AfterRandom(s) == Extensions(exts)
  {
    hide ExtensionBlock, Extensions;
    var a := SkipVec8(s).value;
    var b := SkipVec16(a).value;
    var c := SkipVec8(b).value;
    Vec8Shape(s);
    Vec16Shape(a);
    Vec8Shape(b);
    BlockShape(c);
    hide SkipVec8, SkipVec16;
    id, suites, compression := s[1..1 + s[0]], a[2..2 + U16(a)], b[1..1 + b[0]];
    exts, rest := c[2..2 + U16(c)], c[2 + U16(c)..];
  }

  lemma RecordShape(data: seq<byte>)
    requires |data| >= 5 && data[0] == TLS_HANDSHAKE && |data| >= RecordEnd(data)
    ensures var p := data[5..RecordEnd(data)];
      && |p| < 0x1_0000
      && data == [TLS_HANDSHAKE] + data[1..3] + U16Bytes(|p|) + p + data[RecordEnd(data)..]
  {
    var p := data[5..RecordEnd(data)];
    U16BytesInverse(data[3..]);
    assert data[3..][..2] == data[3..5];
    assert data == [data[0]] + data[1..3] + data[3..5] + p + data[RecordEnd(data)..];
  }

  lemma PayloadShape(p: seq<byte>, recordVersion: seq<byte>, name: seq<byte>) returns (h: Hello)
    requires Handshake(p) == Some(name) && |p| < 0x1_0000 && |recordVersion| == 2
    ensures h.Ok() && h.name == name && h.recordVersion == recordVersion && h.Payload() == p
  {
    hide Extensions, AfterRandom, Names, EncodeExts, EncodeEntries, EncodeExt, U16Bytes;
    hide SkippedExts, OtherEntries, Entry.Encode;
    var id, suites, compression, exts, restOfRecord := FieldsShape(p[38..]);
    var before, list, restOfExtensions := ExtensionsShape(exts, name);
    var entries, restOfList := NamesAnswerShape(list[2..], name);
    h := Hello(recordVersion, p[1..4], p[4..38], id, suites, compression, before,
               list[..2], entries, name, restOfList, restOfExtensions, restOfRecord);
    assert list == list[..2] + list[2..];
    assert p == [p[0]] + p[1..4] + p[4..38] + p[38..];
  }

  lemma SniShape(data: seq<byte>, name: seq<byte>) returns (h: Hello, rest: seq<byte>)
    requires Sni(data) == Some(name)
    ensures h.Ok() && h.name == name && data == h.Encode() + rest
  {
    RecordShape(data);
    h := PayloadShape(data[5..RecordEnd(data)], data[1..3], name);
    rest := data[RecordEnd(data)..];
  }

  /** `data` starts with a record that is the ClientHello `h`, and `h` names `name`. */
  predicate Carries(data: seq<byte>, h: Hello, name: seq<byte>, rest: seq<byte>) {
    h.Ok() && h.name == name && data == h.Encode() + rest
  }

  /** `Sni` answers `name` exactly when the data starts with a complete
      ClientHello record whose first host name is `name`, and it is presentable. */
  lemma SniIff(data: seq<byte>, name: seq<byte>)
    ensures Sni(data) == Some(name)
            <==> && 1 <= |name| <= 253 && (forall i :: 0 <= i < |name| ==> 32 < name[i] < 127)
                 && exists h, rest :: Carries(data, h, name, rest)
  {
    hide Sni;
    if Sni(data) == Some(name) {
      var h, rest := SniShape(data, name);
      assert Carries(data, h, name, rest);
      HelloReads(h, rest);
    }
    if h, rest :| Carries(data, h, name, rest) {
      HelloReads(h, rest);
    }
  }

  /** The answer does not depend on what follows the record. */
  lemma OnlyTheRecordIsRead(data: seq<byte>, rest: seq<byte>)
    requires |data| >= 5 && |data| >= RecordEnd(data)
    ensures Sni(data[..RecordEnd(data)] + rest) == Sni(data)
  {
    var d := data[..RecordEnd(data)] + rest;
    assert d[3..][..2] == data[3..][..2];
    assert d[5..RecordEnd(data)] == data[5..RecordEnd(data)];
  }

  /** There is no answer before the record is complete. */
  lemma NoAnswerBeforeTheRecordEnds(data: seq<byte>, k: nat)
    requires k <= |data| && (|data| < 5 || k < RecordEnd(data))
    ensures Sni(data[..k]) == None
  {
    if k >= 5 {
      assert data[..k][3..][..2] == data[3..][..2];
    }
  }

  // -------------------------------------------------------------------- in place

  predicate Holds16(d: seq<byte>, p: nat) {
    p + 2 <= |d|
  }

  function U16At(d: seq<byte>, p: nat): nat
    requires Holds16(d, p)
  {
    (d[p] as int) * 256 + d[p + 1] as int
  }

  lemma NamesAt(d: seq<byte>, p: nat)
    requires p <= |d|
    ensures p + 3 > |d| ==> Names(d[p..]) == GoOn
    ensures p + 3 <= |d| ==>
      var n := U16At(d, p + 1);
      Names(d[p..]) == if p + 3 + n > |d| then Answer(None)
                       else if d[p] != NAME_TYPE_HOST then Names(d[p + 3 + n..])
                       else Answer(Presented(d[p + 3..p + 3 + n]))
  {
    if p + 3 <= |d| {
      var l, n := d[p..], U16At(d, p + 1);
      assert U16(l[1..]) == n;
      assert p + 3 + n <= |d| ==> l[3 + n..] == d[p + 3 + n..] && l[3..3 + n] == d[p + 3..p + 3 + n];
    }
  }

  lemma ExtensionsAt(d: seq<byte>, p: nat)
    requires p <= |d|
    ensures p + 4 > |d| ==> Extensions(d[p..]) == None
    ensures p + 4 <= |d| ==>
      var n := U16At(d, p + 2);
      if p + 4 + n > |d| then Extensions(d[p..]) == None
      else
        var walk := if U16At(d, p) == EXT_SERVER_NAME then NameList(d[p + 4..p + 4 + n]) else GoOn;
        Extensions(d[p..]) == if walk.Answer? then walk.sni else Extensions(d[p + 4 + n..])
  {
    if p + 4 <= |d| {
      var e, n := d[p..], U16At(d, p + 2);
      assert U16(e[2..]) == n && U16(e) == U16At(d, p);
      assert p + 4 + n <= |d| ==> e[4 + n..] == d[p + 4 + n..] && e[4..4 + n] == d[p + 4..p + 4 + n];
    }
  }

  lemma SkipVec8At(d: seq<byte>, p: nat)
    requires p <= |d|
    ensures SkipVec8(d[p..]) ==
            if p + 1 <= |d| && p + 1 + d[p] <= |d| then Some(d[p + 1 + d[p]..]) else None
  {
    if p + 1 <= |d| {
      assert d[p..][1..] == d[p + 1..];
    }
  }

  lemma SkipVec16At(d: seq<byte>, p: nat)
    requires p <= |d|
    ensures SkipVec16(d[p..]) ==
            if p + 2 <= |d| && p + 2 + U16At(d, p) <= |d| then Some(d[p + 2 + U16At(d, p)..]) else None
  {
    if p + 2 <= |d| {
      assert d[p..][2..] == d[p + 2..];
    }
  }

  lemma ExtensionBlockAt(d: seq<byte>, p: nat)
    requires p <= |d|
    ensures ExtensionBlock(d[p..]) ==
            if p + 2 <= |d| && p + 2 + U16At(d, p) <= |d|
            then Extensions(d[p + 2..p + 2 + U16At(d, p)]) else None
  {
    if p + 2 <= |d| && p + 2 + U16At(d, p) <= |d| {
      var n := U16At(d, p);
      assert d[p..][2..2 + n] == d[p + 2..p + 2 + n];
    }
  }

  /** A bounds-checked reader: every getter yields nothing on overrun. */
  class Cursor {
    const data: seq<byte>
    var pos: nat

    ghost predicate Valid()
      reads this
    {
      pos <= |data|
    }

    constructor (data: seq<byte>)
      ensures Valid() && this.data == data && pos == 0
    {
      this.data, pos := data, 0;
    }

    method ReadU8() returns (r: Option<byte>)
      requires Valid()
      modifies this
      ensures Valid()
      ensures r == if old(pos) < |data| then Some(data[old(pos)]) else None
      ensures pos == if r.Some? then old(pos) + 1 else old(pos)
    {
      if pos >= |data| {
        return None;
      }
      r := Some(data[pos]);
      pos := pos + 1;
    }

    method ReadU16() returns (r: Option<nat>)
      requires Valid()
      modifies this
      ensures Valid()
      ensures r == if old(pos) + 2 <= |data| then Some(U16At(data, old(pos))) else None
      ensures r.Some? ==> pos == old(pos) + 2
    {
      var high := ReadU8();
      if high.None? {
        return None;
      }
      var low := ReadU8();
      if low.None? {
        return None;
      }
      r := Some((high.value as int) * 256 + low.value as int);
    }

    method Take(n: nat) returns (r: Option<seq<byte>>)
      requires Valid()
      modifies this
      ensures Valid()
      ensures r == if old(pos) + n <= |data| then Some(data[old(pos)..old(pos) + n]) else None
      ensures pos == if r.Some? then old(pos) + n else old(pos)
    {
      if pos + n > |data| {
        return None;
      }
      r := Some(data[pos..pos + n]);
      pos := pos + n;
    }

    /** Past a field with a one-byte length. */
    method PassVec8() returns (ok: bool)
      requires Valid()
      modifies this
      ensures Valid()
      ensures SkipVec8(data[old(pos)..]) == if ok then Some(data[pos..]) else None
    {
      SkipVec8At(data, pos);
      hide SkipVec8;
      var n := ReadU8();
      if n.None? {
        return false;
      }
      var skipped := Take(n.value);
      ok := skipped.Some?;
    }

    /** Past a field with a two-byte length. */
    method PassVec16() returns (ok: bool)
      requires Valid()
      modifies this
      ensures Valid()
      ensures SkipVec16(data[old(pos)..]) == if ok then Some(data[pos..]) else None
    {
      SkipVec16At(data, pos);
      hide SkipVec16;
      var n := ReadU16();
      if n.None? {
        return false;
      }
      var skipped := Take(n.value);
      ok := skipped.Some?;
    }
  }

  lemma NameListAt(d: seq<byte>)
    ensures NameList(d) == if |d| < 2 then Answer(None) else Names(d[2..])
  {
  }

  method ReadNameList(d: seq<byte>) returns (walk: Walk)
    ensures walk == NameList(d)
  {
    NameListAt(d);
    hide Names, IsPresentable, NameList;
    var list := new Cursor(d);
    var skipped := list.Take(2);
    if skipped.None? {
      return Answer(None);
    }
    while |list.data| - list.pos >= 3
      invariant list.Valid() && list.data == d && Names(d[list.pos..]) == NameList(d)
      decreases |d| - list.pos
    {
      NamesAt(d, list.pos);
      var kind := list.ReadU8();
      var n := list.ReadU16();
      var name := list.Take(n.value);
      if name.None? {
        return Answer(None);
      }
      if kind.value != NAME_TYPE_HOST {
        continue;
      }
      return Answer(if IsPresentable(name.value) then Some(name.value) else None);
    }
    NamesAt(d, list.pos);
    walk := GoOn;
  }

  method ReadExtensions(block: seq<byte>) returns (sni: Option<seq<byte>>)
    ensures sni == Extensions(block)
  {
    hide Extensions, NameList;
    var extensions := new Cursor(block);
    assert block[0..] == block;
    while |extensions.data| - extensions.pos >= 4
      invariant extensions.Valid() && extensions.data == block
      invariant Extensions(block[extensions.pos..]) == Extensions(block)
      decreases |block| - extensions.pos
    {
      ExtensionsAt(block, extensions.pos);
      var kind := extensions.ReadU16();
      var n := extensions.ReadU16();
      var body := extensions.Take(n.value);
      if body.None? {
        return None;
      }
      if kind.value == EXT_SERVER_NAME {
        var walk := ReadNameList(body.value);
        if walk.Answer? {
          return walk.sni;
        }
      }
    }
    ExtensionsAt(block, extensions.pos);
    sni := None;
  }

  method ReadHello(payload: seq<byte>) returns (sni: Option<seq<byte>>)
    ensures sni == Handshake(payload)
  {
    hide SkipVec8, SkipVec16, ExtensionBlock, Extensions;
    var record := new Cursor(payload);
    var kind := record.ReadU8();
    if kind.None? || kind.value != HANDSHAKE_CLIENT_HELLO {
      return None;
    }
    var fixed := record.Take(3 + 2 + 32);
    if fixed.None? {
      return None;
    }
    var ok := record.PassVec8();
    if !ok {
      return None;
    }
    ok := record.PassVec16();
    if !ok {
      return None;
    }
    ok := record.PassVec8();
    if !ok {
      return None;
    }
    ExtensionBlockAt(payload, record.pos);
    var length := record.ReadU16();
    if length.None? {
      return None;
    }
    var block := record.Take(length.value);
    if block.None? {
      return None;
    }
    sni := ReadExtensions(block.value);
  }

  method ExtractSni(data: seq<byte>) returns (sni: Option<seq<byte>>)
    ensures sni == Sni(data)
  {
    hide Handshake;
    var header := new Cursor(data);
    var kind := header.ReadU8();
    if kind.None? || kind.value != TLS_HANDSHAKE {
      return None;
    }
    var version := header.Take(2);
    if version.None? {
      return None;
    }
    var length := header.ReadU16();
    if length.None? {
      return None;
    }
    assert U16At(data, 3) == U16(data[3..]);
    var recordEnd := 5 + length.value;
    if |data| < recordEnd {
      return None;
    }
    sni := ReadHello(data[5..recordEnd]);
  }
}
