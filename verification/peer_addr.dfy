/** The textual peer locator `/family/host/transport/port/id` and its
    purely positional parser (`PeerInfo.parse`). */
module PeerAddr {
  import opened Base

  const SLASH: char := '/'

  /** The argument handed to the parser: JavaScript does not promise it is
      a string, and the parser checks. */
  datatype AddrInput = Text(s: string) | NotText

  /** The parsed record. `id` is `None` when the address has only five
      segments, where JavaScript reads `parts[5]` as `undefined`. */
  datatype PeerInfo = PeerInfo(
    id: Option<string>,
    addr: string,
    host: string,
    port: string,
    family: string,
    transport: string)

  datatype ParseError =
    | InvalidPeerAddr  // the explicit `typeof addr !== 'string'` guard
    | MissingPort      // `parts[4].toString()` on a missing segment

  datatype ParseResult = Parsed(info: PeerInfo) | Failed(error: ParseError)

  predicate NoSlash(s: string)
  {
    SLASH !in s
  }

  function SlashCount(s: string): nat
  {
    if |s| == 0 then 0
    else (if s[0] == SLASH then 1 else 0) + SlashCount(s[1..])
  }

  /** The segments joined back together with `/` between them. */
  function Join(parts: seq<string>): string
    requires |parts| >= 1
  {
    if |parts| == 1 then parts[0] else parts[0] + [SLASH] + Join(parts[1..])
  }

  /** `s.split('/')`: the maximal slash-free runs of `s`, in order, including
      the empty ones before a leading, after a trailing, and between
      adjacent slashes. */
  function Split(s: string): (parts: seq<string>)
    ensures |parts| == SlashCount(s) + 1
    ensures forall k :: 0 <= k < |parts| ==> NoSlash(parts[k])
    ensures Join(parts) == s
  {
    if |s| == 0 then [""]
    else
      var rest := Split(s[1..]);
      if s[0] == SLASH then
        assert ([""] + rest)[1..] == rest;
        [""] + rest
      else
        var parts := [[s[0]] + rest[0]] + rest[1..];
        assert parts[1..] == rest[1..];
        assert Join(parts) == [s[0]] + Join(rest) by {
          if |rest| > 1 {
            assert Join(rest) == rest[0] + [SLASH] + Join(rest[1..]);
          }
        }
        assert s == [s[0]] + s[1..];
        parts
  }

  /** Splitting text that starts with a slash. */
  lemma SplitLeadingSlash(rest: string)
    ensures Split([SLASH] + rest) == [""] + Split(rest)
  {

  }

  /** Splitting text that starts with a slash-free word. */
  lemma {:induction false} SplitAfterWord(w: string, rest: string)
    requires NoSlash(w)
    ensures Split(w + rest) == [w + Split(rest)[0]] + Split(rest)[1..]
  {
    var tail := Split(rest);
    if |w| == 0 {
      assert w + rest == rest;
      assert w + tail[0] == tail[0];
    } else {
      var s := w + rest;
      assert s[0] == w[0] && s[0] != SLASH;
      assert s[1..] == w[1..] + rest;
      SplitAfterWord(w[1..], rest);
      var r := Split(s[1..]);
      assert r == [w[1..] + tail[0]] + tail[1..];
      assert Split(s) == [[s[0]] + r[0]] + r[1..];
      assert [w[0]] + (w[1..] + tail[0]) == w + tail[0];
    }
  }

  /** Splitting `w/rest` for a slash-free word `w`. */
  lemma SplitSlash(w: string, rest: string)
    requires NoSlash(w)
    ensures Split(w + [SLASH] + rest) == [w] + Split(rest)
  {
    var tail := [SLASH] + rest;
    assert w + [SLASH] + rest == w + tail;
    SplitAfterWord(w, tail);
    SplitLeadingSlash(rest);
    var t := Split(tail);
    assert t == [""] + Split(rest);
    assert t[0] == "" && t[1..] == Split(rest);
    assert w + t[0] == w;
  }

  /** `split` undoes `join` on slash-free segments. */
  lemma {:induction false} SplitJoin(parts: seq<string>)
    requires |parts| >= 1
    requires forall k :: 0 <= k < |parts| ==> NoSlash(parts[k])
    ensures Split(Join(parts)) == parts
  {
    if |parts| == 1 {
      SplitAfterWord(parts[0], "");
      assert parts[0] + "" == parts[0];
    } else {
      SplitJoin(parts[1..]);
      SplitSlash(parts[0], Join(parts[1..]));
      assert parts == [parts[0]] + parts[1..];
    }
  }

  /** The split is the only slash-free decomposition of a string. */
  lemma {:induction false} SplitUnique(s: string, parts: seq<string>)
    requires |parts| >= 1
    requires forall k :: 0 <= k < |parts| ==> NoSlash(parts[k])
    ensures Join(parts) == s <==> Split(s) == parts
  {
    SplitJoin(parts);
  }

  /** `PeerInfo.parse`. */
  function Parse(input: AddrInput): (r: ParseResult)
    ensures input.NotText? ==> r == Failed(InvalidPeerAddr)
    ensures input.Text? ==> (r.Parsed? <==> SlashCount(input.s) >= 4)
    ensures input.Text? && !r.Parsed? ==> r.error == MissingPort
    ensures r.Parsed? ==> input.Text? && r.info.addr == input.s
    ensures r.Parsed? ==>
      var parts := Split(input.s);
      && r.info.family == parts[1]
      && r.info.host == parts[2]
      && r.info.transport == parts[3]
      && r.info.port == parts[4]
      && r.info.id == (if |parts| > 5 then Some(parts[5]) else None)
  {
    match input
    case NotText => Failed(InvalidPeerAddr)
    case Text(s) =>
      var parts := Split(s);
      if |parts| < 5 then Failed(MissingPort)
      else
        Parsed(PeerInfo(
          id := if |parts| > 5 then Some(parts[5]) else None,
          addr := s,
          host := parts[2],
          port := parts[4],
          family := parts[1],
          transport := parts[3]))
  }

  /** The canonical textual form of a locator. */
  function Format(family: string, host: string, transport: string, port: string, id: Option<string>): string
  {
    [SLASH] + family + [SLASH] + host + [SLASH] + transport + [SLASH] + port
      + (if id.Some? then [SLASH] + id.value else "")
  }

  /** Parsing the canonical form gives back exactly its fields, with the
      whole text as `addr`; an empty field is accepted like any other. */
  lemma ParseFormat(family: string, host: string, transport: string, port: string, id: Option<string>)
    requires NoSlash(family) && NoSlash(host) && NoSlash(transport) && NoSlash(port)
    requires id.Some? ==> NoSlash(id.value)
    ensures
      var text := Format(family, host, transport, port, id);
      Parse(Text(text)) == Parsed(PeerInfo(id, text, host, port, family, transport))
  {
    var text := Format(family, host, transport, port, id);
    var last := if id.Some? then port + [SLASH] + id.value else port;
    var p4 := transport + [SLASH] + last;
    var p3 := host + [SLASH] + p4;
    var p2 := family + [SLASH] + p3;
    assert text == [SLASH] + p2;
    var tail := if id.Some? then [port, id.value] else [port];
    if id.Some? {
      SplitAfterWord(id.value, "");
      assert id.value + "" == id.value;
      SplitSlash(port, id.value);
    } else {
      SplitAfterWord(port, "");
      assert port + "" == port;
    }
    assert Split(last) == tail;
    SplitSlash(transport, last);
    SplitSlash(host, p4);
    SplitSlash(family, p3);
    SplitLeadingSlash(p2);
    var parts := Split(text);
    assert parts[1] == Split(p2)[0] == family;
    assert parts[2] == Split(p3)[0] == host;
    assert parts[3] == Split(p4)[0] == transport;
    assert parts[4] == Split(last)[0] == port;
    assert |parts| == 4 + |tail|;
  }

  /** Text before the first `/` is dropped and segments after the sixth are
      ignored: only the five fields that follow the first slash count. */
  lemma ParseIgnoresPrefixAndTail(prefix: string, family: string, host: string, transport: string,
                                  port: string, id: string, tail: string)
    requires NoSlash(prefix) && NoSlash(family) && NoSlash(host)
    requires NoSlash(transport) && NoSlash(port) && NoSlash(id)
    ensures
      var text := prefix + [SLASH] + family + [SLASH] + host + [SLASH] + transport
                  + [SLASH] + port + [SLASH] + id + [SLASH] + tail;
      Parse(Text(text)) == Parsed(PeerInfo(Some(id), text, host, port, family, transport))
  {
    var text := prefix + [SLASH] + family + [SLASH] + host + [SLASH] + transport
                + [SLASH] + port + [SLASH] + id + [SLASH] + tail;
    var p6 := id + [SLASH] + tail;
    var p5 := port + [SLASH] + p6;
    var p4 := transport + [SLASH] + p5;
    var p3 := host + [SLASH] + p4;
    var p2 := family + [SLASH] + p3;
    assert text == prefix + [SLASH] + p2;
    SplitSlash(prefix, p2);
    SplitSlash(family, p3);
    SplitSlash(host, p4);
    SplitSlash(transport, p5);
    SplitSlash(port, p6);
    SplitSlash(id, tail);
    var parts := Split(text);
    assert parts[1] == Split(p2)[0] == family;
    assert parts[2] == Split(p3)[0] == host;
    assert parts[3] == Split(p4)[0] == transport;
    assert parts[4] == Split(p5)[0] == port;
    assert parts[5] == Split(p6)[0] == id;
  }
}
