/** Building a POST request, sending it in partial writes, and reading it back. */
module Requests {
  import opened Options
  import opened Search
  import opened Numbers
  import opened Framing

  const BUFLEN := 4096
  const LINELEN := 1000

  /** The arguments of `compute_post_request`; absent cookies or authorization are null pointers. */
  datatype Post = Post(host: string, url: string, contentType: string, body: string,
                       cookies: Option<seq<string>>, authorization: Option<string>)

  // ---------- The text ----------

  /** Header lines, each ended by CRLF. */
  function Lines(lines: seq<string>): string {
    if lines == [] then "" else lines[0] + "\r\n" + Lines(lines[1..])
  }

  /** Cookies separated by semicolons, as the loop writes them. */
  function Joined(cookies: seq<string>): string
    requires cookies != []
  {
    if |cookies| == 1 then cookies[0] else cookies[0] + ";" + Joined(cookies[1..])
  }

  /** The lines before the content length. */
  function FirstLines(p: Post): seq<string> {
    ["POST " + p.url + " HTTP/1.1", "Host: " + p.host, "Content-Type: " + p.contentType]
  }

  function LengthLine(p: Post): string {
    CONTENT_LENGTH + Decimal(|p.body|)
  }

  function OptionalLine(header: string, value: Option<string>): seq<string> {
    if value.Some? then [header + value.value] else []
  }

  function CookieText(p: Post): Option<string>
    requires p.cookies.Some? ==> p.cookies.value != []
  {
    if p.cookies.Some? then Some(Joined(p.cookies.value)) else None
  }

  function LastLines(p: Post): seq<string>
    requires p.cookies.Some? ==> p.cookies.value != []
  {
    OptionalLine("Authorization: Bearer ", p.authorization) + OptionalLine("Cookie: ", CookieText(p))
  }

  function HeaderLines(p: Post): seq<string>
    requires p.cookies.Some? ==> p.cookies.value != []
  {
    FirstLines(p) + [LengthLine(p)] + LastLines(p)
  }

  function PostText(p: Post): string
    requires p.cookies.Some? ==> p.cookies.value != []
  {
    Lines(HeaderLines(p)) + "\r\n" + p.body
  }

  /** What the C buffers can hold: a line and the message, each with its final zero. */
  ghost predicate Fits(p: Post) {
    && (p.cookies.Some? ==> p.cookies.value != [])
    && |PostText(p)| < BUFLEN
    && forall l :: l in HeaderLines(p) ==> |l| < LINELEN
  }

  lemma {:induction false} LinesAppend(a: seq<string>, b: seq<string>)
    ensures Lines(a + b) == Lines(a) + Lines(b)
  {
    if a == [] {
      assert a + b == b;
    } else {
      LinesAppend(a[1..], b);
      assert (a + b)[1..] == a[1..] + b;
    }
  }

  lemma OneLine(lines: seq<string>, l: string)
    ensures Lines(lines + [l]) == Lines(lines) + l + "\r\n"
  {
    LinesAppend(lines, [l]);
    assert [l][1..] == [];
  }

  /** `compute_message`: appends a line to a message. */
  function Message(message: string, line: string): string {
    message + line + "\r\n"
  }

  /** The cookie loop: all but the last followed by a semicolon. */
  method WriteCookies(cookies: seq<string>) returns (line: string)
    requires cookies != []
    ensures line == "Cookie: " + Joined(cookies)
  {
    line := "Cookie: ";
    for i := 0 to |cookies| - 1
      invariant line + Joined(cookies[i..]) == "Cookie: " + Joined(cookies)
    {
      assert cookies[i..][1..] == cookies[i + 1..];
      line := line + cookies[i];
      line := line + ";";
    }
    line := line + cookies[|cookies| - 1];
  }

  /** `compute_post_request`. */
  method ComputePostRequest(p: Post) returns (message: string)
    requires Fits(p)
    ensures message == PostText(p)
  {
    message := "";
    message := Message(message, "POST " + p.url + " HTTP/1.1");
    message := Message(message, "Host: " + p.host);
    message := Message(message, "Content-Type: " + p.contentType);
    message := Message(message, CONTENT_LENGTH + Decimal(|p.body|));
    FourLines(FirstLines(p)[0], FirstLines(p)[1], FirstLines(p)[2], LengthLine(p));
    message := WriteLastLines(p, message, FirstLines(p) + [LengthLine(p)]);
    message := Message(message, "");
    message := message + p.body;
  }

  /** The optional authorization and cookie lines. */
  method WriteLastLines(p: Post, soFar: string, ghost lines: seq<string>) returns (message: string)
    requires (p.cookies.Some? ==> p.cookies.value != []) && soFar == Lines(lines)
    ensures message == Lines(lines + LastLines(p))
  {
    message := soFar;
    ghost var all := lines;
    if p.authorization.Some? {
      var line := "Authorization: Bearer " + p.authorization.value;
      OneLine(all, line);
      message := Message(message, line);
      all := all + [line];
    }
    if p.cookies.Some? {
      var line := WriteCookies(p.cookies.value);
      OneLine(all, line);
      message := Message(message, line);
      all := all + [line];
    }
    assert all == lines + LastLines(p);
  }

  lemma FourLines(a: string, b: string, c: string, d: string)
    ensures Lines([a, b, c] + [d]) == Message(Message(Message(Message("", a), b), c), d)
  {
    assert Lines([]) == "";
    OneLine([], a);
    OneLine([a], b);
    OneLine([a, b], c);
    OneLine([a, b, c], d);
    assert [] + [a] == [a] && [a] + [b] == [a, b] && [a, b] + [c] == [a, b, c];
  }

  // ---------- The text is a response in the sense of the framing algorithm ----------

  predicate NoBreaks(s: string) {
    forall i :: 0 <= i < |s| ==> s[i] != '\r' && s[i] != '\n'
  }

  /** No argument of the header runs over the end of its line. */
  ghost predicate Unbroken(p: Post) {
    && NoBreaks(p.host) && NoBreaks(p.url) && NoBreaks(p.contentType)
    && (p.authorization.Some? ==> NoBreaks(p.authorization.value))
    && (p.cookies.Some? ==> p.cookies.value != [] && forall c :: c in p.cookies.value ==> NoBreaks(c))
  }

  /** What the arguments must not contain for the text to be framed as meant. */
  ghost predicate Clean(p: Post)
    requires p.cookies.Some? ==> p.cookies.value != []
  {
    && Unbroken(p)
    && '\0' !in PostText(p)
    && forall l :: l in FirstLines(p) ==> Find(l, CONTENT_LENGTH, true) == -1
  }

  ghost predicate LinesOk(lines: seq<string>) {
    forall l :: l in lines ==> l != "" && NoBreaks(l)
  }

  lemma {:induction false} JoinedNoBreaks(cookies: seq<string>)
    requires cookies != [] && forall c :: c in cookies ==> NoBreaks(c)
    ensures NoBreaks(Joined(cookies))
  {
    assert cookies[0] in cookies;
    if |cookies| > 1 {
      JoinedNoBreaks(cookies[1..]);
      NoBreaksTogether(cookies[0], ";");
      NoBreaksTogether(cookies[0] + ";", Joined(cookies[1..]));
    }
  }

  lemma LengthLineOk(p: Post)
    ensures NoBreaks(LengthLine(p)) && LengthLine(p) != ""
  {
  }

  lemma NoBreaksTogether(a: string, b: string)
    requires NoBreaks(a) && NoBreaks(b)
    ensures NoBreaks(a + b)
  {
  }

  lemma HeaderLinesOk(p: Post)
    requires Unbroken(p)
    ensures LinesOk(HeaderLines(p))
  {
    FirstLinesOk(p);
    LengthLineOk(p);
    LastLinesOk(p);
  }

  lemma FirstLinesOk(p: Post)
    requires Unbroken(p)
    ensures LinesOk(FirstLines(p))
  {
    NoBreaksTogether("POST ", p.url);
    NoBreaksTogether("POST " + p.url, " HTTP/1.1");
    NoBreaksTogether("Host: ", p.host);
    NoBreaksTogether("Content-Type: ", p.contentType);
  }

  lemma LastLinesOk(p: Post)
    requires Unbroken(p)
    ensures LinesOk(LastLines(p))
  {
    if p.cookies.Some? {
      JoinedNoBreaks(p.cookies.value);
    }
    OptionalLineOk("Authorization: Bearer ", p.authorization);
    OptionalLineOk("Cookie: ", CookieText(p));
  }

  lemma OptionalLineOk(header: string, value: Option<string>)
    requires header != "" && NoBreaks(header) && (value.Some? ==> NoBreaks(value.value))
    ensures LinesOk(OptionalLine(header, value))
  {
  }

  /** No CRLFCRLF before the empty line that ends the header. */
  lemma {:induction false} NoEarlierTerminator(lines: seq<string>, rest: string, k: nat)
    requires LinesOk(lines) && lines != [] && k < |Lines(lines)| - 2
    ensures !MatchesAt(Lines(lines) + "\r\n" + rest, TERMINATOR, false, k)
  {
    var l := lines[0];
    var tail := Lines(lines[1..]) + "\r\n" + rest;
    var s := Lines(lines) + "\r\n" + rest;
    assert s == l + "\r\n" + tail;
    assert s == (l + "\r\n") + tail;
    if k >= |l| + 2 {
      MatchAfter(l + "\r\n", tail, TERMINATOR, false, k);
      assert forall x :: x in lines[1..] ==> x in lines;
      NoEarlierTerminator(lines[1..], rest, k - |l| - 2);
    } else {
      assert l in lines;
      if k == |l| {
        NextLineStart(lines, "\r\n" + rest);
        assert tail == Lines(lines[1..]) + ("\r\n" + rest);
      }
      assert !Same(s[k + 0], TERMINATOR[0], false) || !Same(s[k + 2], TERMINATOR[2], false);
    }
  }

  lemma NextLineStart(lines: seq<string>, rest: string)
    requires LinesOk(lines) && |lines| > 1
    ensures var tail := Lines(lines[1..]) + rest; tail != "" && tail[0] != '\r'
  {
    var next := lines[1..][0];
    assert next in lines;
  }

  /** No label in earlier lines, nor across their ends. */
  lemma {:induction false} NoEarlierLabel(lines: seq<string>, rest: string, k: nat)
    requires LinesOk(lines) && k < |Lines(lines)|
    requires forall l :: l in lines ==> Find(l, CONTENT_LENGTH, true) == -1
    ensures !MatchesAt(Lines(lines) + rest, CONTENT_LENGTH, true, k)
  {
    var l := lines[0];
    var tail := Lines(lines[1..]) + rest;
    var s := Lines(lines) + rest;
    assert s == l + "\r\n" + tail;
    assert s == (l + "\r\n") + tail && s == l + ("\r\n" + tail);
    if k >= |l| + 2 {
      MatchAfter(l + "\r\n", tail, CONTENT_LENGTH, true, k);
      assert forall x :: x in lines[1..] ==> x in lines;
      NoEarlierLabel(lines[1..], rest, k - |l| - 2);
    } else if k + |CONTENT_LENGTH| <= |l| {
      MatchWithin(l, "\r\n" + tail, CONTENT_LENGTH, true, k);
      FindMeans(l, CONTENT_LENGTH, true, k);
    } else if MatchesAt(s, CONTENT_LENGTH, true, k) {
      var x := if k <= |l| then |l| else |l| + 1;
      assert Same(s[k + (x - k)], CONTENT_LENGTH[x - k], true);
      LabelHasNoBreaks(x - k);
    }
  }

  /** Where the terminator begins: at the break of the last header line. */
  function HeaderEnd(p: Post): int
    requires p.cookies.Some? ==> p.cookies.value != []
  {
    |Lines(HeaderLines(p))| - 2
  }

  /** The header ends with an empty line. */
  lemma LinesEndWithBreak(lines: seq<string>)
    requires lines != []
    ensures |Lines(lines)| >= 2 && Lines(lines) == Lines(lines)[..|Lines(lines)| - 2] + "\r\n"
  {
  }

  lemma TerminatorFound(p: Post)
    requires Fits(p) && Clean(p)
    ensures HeaderEnd(p) >= 0
    ensures Find(PostText(p), TERMINATOR, false) == HeaderEnd(p)
  {
    var lines := HeaderLines(p);
    var s := PostText(p);
    HeaderLinesOk(p);
    LinesEndWithBreak(lines);
    var h := HeaderEnd(p);
    assert s == Lines(lines)[..h] + (TERMINATOR + p.body);
    MatchHere(Lines(lines)[..h], TERMINATOR, p.body, false);
    forall k | 0 <= k < h
      ensures !MatchesAt(s, TERMINATOR, false, k)
    {
      NoEarlierTerminator(lines, p.body, k);
    }
    FindMeans(s, TERMINATOR, false, h);
  }

  function LabelStart(p: Post): nat {
    |Lines(FirstLines(p))|
  }

  /** What follows the printed content length. */
  function AfterLength(p: Post): string
    requires p.cookies.Some? ==> p.cookies.value != []
  {
    "\r\n" + Lines(LastLines(p)) + "\r\n" + p.body
  }

  lemma TextParts(p: Post)
    requires p.cookies.Some? ==> p.cookies.value != []
    ensures PostText(p) == Lines(FirstLines(p)) + (CONTENT_LENGTH + (Decimal(|p.body|) + AfterLength(p)))
    ensures |Lines(HeaderLines(p))| == LabelStart(p) + |LengthLine(p)| + 2 + |Lines(LastLines(p))|
  {
    LinesAppend(FirstLines(p) + [LengthLine(p)], LastLines(p));
    OneLine(FirstLines(p), LengthLine(p));
    Regroup(Lines(FirstLines(p)), CONTENT_LENGTH, Decimal(|p.body|), "\r\n", Lines(LastLines(p)), p.body);
  }

  lemma Regroup(a: string, b: string, c: string, br: string, d: string, e: string)
    ensures a + (b + c) + br + d + br + e == a + (b + (c + (br + d + br + e)))
  {
  }

  lemma LabelFound(p: Post)
    requires Fits(p) && Clean(p)
    ensures Find(PostText(p), CONTENT_LENGTH, true) == LabelStart(p)
  {
    var s := PostText(p);
    var rest := CONTENT_LENGTH + (Decimal(|p.body|) + AfterLength(p));
    var c := LabelStart(p);
    TextParts(p);
    HeaderLinesOk(p);
    assert forall l :: l in FirstLines(p) ==> l in HeaderLines(p);
    MatchHere(Lines(FirstLines(p)), CONTENT_LENGTH, Decimal(|p.body|) + AfterLength(p), true);
    forall k | 0 <= k < c
      ensures !MatchesAt(s, CONTENT_LENGTH, true, k)
    {
      NoEarlierLabel(FirstLines(p), rest, k);
    }
    FindMeans(s, CONTENT_LENGTH, true, c);
  }

  lemma LengthFound(p: Post)
    requires Fits(p)
    ensures var (s, v) := (PostText(p), LabelStart(p) + |CONTENT_LENGTH|);
            && v < |s| && s[v..] == Decimal(|p.body|) + AfterLength(p)
            && ToInt(Strtol(s[v..])) == |p.body|
  {
    TextParts(p);
    var v := LabelStart(p) + |CONTENT_LENGTH|;
    assert PostText(p) == (Lines(FirstLines(p)) + CONTENT_LENGTH) + (Decimal(|p.body|) + AfterLength(p));
    assert PostText(p)[v..] == Decimal(|p.body|) + AfterLength(p);
    PrintThenParse(|p.body|, AfterLength(p));
  }

  /** The printed text is framed as meant: header, label, length and body are found where they were put. */
  lemma PostIsResponse(p: Post)
    requires Fits(p) && Clean(p)
    ensures HeaderEnd(p) >= 0
    ensures var (s, h, c) := (PostText(p), HeaderEnd(p), LabelStart(p));
            IsResponse(s, h, c) && ValueInHeader(s, h, c) && s[h + |TERMINATOR|..] == p.body
  {
    PostFramed(p);
    BodyAtEnd(p);
    ValuePresent(p);
  }

  lemma PostFramed(p: Post)
    requires Fits(p) && Clean(p)
    ensures HeaderEnd(p) >= 0 && IsResponse(PostText(p), HeaderEnd(p), LabelStart(p))
  {
    TerminatorFound(p);
    LabelFound(p);
    BodyAtEnd(p);
    LabelInHeader(p);
    LengthPrinted(p);
  }

  lemma LengthPrinted(p: Post)
    requires Fits(p) && LabelStart(p) + |CONTENT_LENGTH| <= |PostText(p)|
    ensures LengthAt(PostText(p), LabelStart(p)) == |p.body|
  {
    LengthFound(p);
  }

  lemma BodyAtEnd(p: Post)
    requires Fits(p) && 0 <= HeaderEnd(p)
    ensures |PostText(p)| == HeaderEnd(p) + |TERMINATOR| + |p.body|
    ensures PostText(p)[HeaderEnd(p) + |TERMINATOR|..] == p.body
  {
  }

  lemma LabelInHeader(p: Post)
    requires Fits(p)
    ensures LabelStart(p) + |CONTENT_LENGTH| <= HeaderEnd(p) + |TERMINATOR|
  {
    TextParts(p);
  }

  lemma ValuePresent(p: Post)
    requires Fits(p) && 0 <= HeaderEnd(p)
    ensures var v := LabelStart(p) + |CONTENT_LENGTH|;
            v < HeaderEnd(p) + |TERMINATOR| <= |PostText(p)| && HasValue(PostText(p)[v..HeaderEnd(p) + |TERMINATOR|])
  {
    var s, v := PostText(p), LabelStart(p) + |CONTENT_LENGTH|;
    TextParts(p);
    LengthFound(p);
    assert s[v] == s[v..][0] == Decimal(|p.body|)[0];
    assert s[v..HeaderEnd(p) + |TERMINATOR|][0] == s[v];
  }

  // ---------- Sending ----------

  /** The connection, as the bytes that went out; a write takes some of what it is given. */
  class Socket {
    var wire: string
    ghost var stalled: bool

    constructor ()
      ensures wire == "" && !stalled
    {
      wire, stalled := "", false;
    }

    /** Takes any number of bytes; none of a non-empty buffer means the connection has stalled. */
    method Write(data: string) returns (bytes: nat)
      modifies this
      ensures bytes <= |data| && wire == old(wire) + data[..bytes]
      ensures stalled == (old(stalled) || (bytes == 0 && data != ""))
    {
      bytes :| bytes <= |data|;
      wire := wire + data[..bytes];
      stalled := stalled || (bytes == 0 && data != "");
    }
  }

  /** `send_to_server`: the message as far as its zero byte, in as many writes as it takes. */
  method SendToServer(socket: Socket, message: string)
    requires !socket.stalled && '\0' !in message
    modifies socket
    ensures old(socket.wire) <= socket.wire <= old(socket.wire) + message
    ensures !socket.stalled ==> socket.wire == old(socket.wire) + message
  {
    var sent, total := 0, |message|;
    while true
      invariant sent <= total && !socket.stalled && (sent < total || sent == 0)
      invariant socket.wire == old(socket.wire) + message[..sent]
      decreases total - sent
    {
      var bytes := socket.Write(message[sent..]);
      assert message[..sent] + message[sent..][..bytes] == message[..sent + bytes];
      if bytes == 0 {
        break;
      }
      sent := sent + bytes;
      if sent >= total {
        break;
      }
    }
  }

  // ---------- The network between the two ----------

  /** The bytes on the wire cut into reads of the given sizes, as far as these go; no read is empty. */
  function Cut(wire: string, sizes: seq<nat>): (chunks: seq<string>)
    ensures NoneEmpty(chunks)
    decreases |wire|
  {
    if wire == "" then []
    else if sizes == [] || sizes[0] == 0 || sizes[0] > |wire| then [wire]
    else [wire[..sizes[0]]] + Cut(wire[sizes[0]..], sizes[1..])
  }

  lemma {:induction false} ConcatFirst(first: string, rest: seq<string>)
    ensures Concat([first] + rest) == first + Concat(rest)
  {
    if rest == [] {
      assert [first] + rest == [first] && [first][..0] == [];
    } else {
      var n := |rest| - 1;
      ConcatFirst(first, rest[..n]);
      assert ([first] + rest)[..n + 1] == [first] + rest[..n] && ([first] + rest)[n + 1] == rest[n];
    }
  }

  /** A cut loses nothing, */
  lemma {:induction false} CutIsWhole(wire: string, sizes: seq<nat>)
    ensures Concat(Cut(wire, sizes)) == wire
    decreases |wire|
  {
    if wire == "" {
    } else if sizes == [] || sizes[0] == 0 || sizes[0] > |wire| {
      ConcatFirst(wire, []);
      assert [wire] + [] == [wire];
    } else {
      CutIsWhole(wire[sizes[0]..], sizes[1..]);
      ConcatFirst(wire[..sizes[0]], Cut(wire[sizes[0]..], sizes[1..]));
    }
  }

  /** and every way of cutting is one of these. */
  lemma {:induction false} EveryCut(chunks: seq<string>)
    requires NoneEmpty(chunks)
    ensures Cut(Concat(chunks), seq(|chunks|, i requires 0 <= i < |chunks| => |chunks[i]|)) == chunks
    decreases |chunks|
  {
    if chunks != [] {
      var rest := chunks[1..];
      var sizes := seq(|chunks|, i requires 0 <= i < |chunks| => |chunks[i]|);
      assert NoneEmpty(rest) && chunks == [chunks[0]] + rest;
      EveryCut(rest);
      ConcatFirst(chunks[0], rest);
      assert sizes[1..] == seq(|rest|, i requires 0 <= i < |rest| => |rest[i]|);
      assert Concat(chunks)[..|chunks[0]|] == chunks[0] && Concat(chunks)[|chunks[0]|..] == Concat(rest);
    }
  }

  /** What is received of a printed request, cut anywhere, is all of what was sent. */
  lemma ReceivedIsWritten(p: Post, wire: string, sizes: seq<nat>)
    requires Fits(p) && Clean(p) && wire <= PostText(p)
    ensures var chunks := Cut(wire, sizes); Concat(chunks[..Consumed(chunks)]) == wire
  {
    var chunks := Cut(wire, sizes);
    CutIsWhole(wire, sizes);
    PostIsResponse(p);
    PrefixReadWhole(chunks, PostText(p), HeaderEnd(p), LabelStart(p));
    assert chunks[..|chunks|] == chunks;
  }

  lemma BodyReceived(p: Post)
    requires Fits(p) && Clean(p)
    ensures 0 <= HeaderEnd(p) && HeaderEnd(p) + |TERMINATOR| <= |PostText(p)|
    ensures var received := PostText(p) + "\0"; received[HeaderEnd(p) + |TERMINATOR|..|received| - 1] == p.body
  {
    PostIsResponse(p);
    var s, e := PostText(p), HeaderEnd(p) + |TERMINATOR|;
    assert (s + "\0")[e..|s|] == s[e..];
  }

  /**
    Print, send in partial writes, and receive what went out over any cut of it into reads:
    what is received is what was written. Unless a write stalled that is the message, and
    its body arrives exactly.
   */
  method PostRoundTrip(p: Post, socket: Socket, sizes: seq<nat>) returns (received: string)
    requires Fits(p) && Clean(p)
    requires socket.wire == "" && !socket.stalled
    modifies socket
    ensures socket.wire <= PostText(p) && received == socket.wire + "\0"
    ensures !socket.stalled ==> received == PostText(p) + "\0"
    ensures !socket.stalled ==> received[HeaderEnd(p) + |TERMINATOR|..|received| - 1] == p.body
  {
    var message := ComputePostRequest(p);
    SendToServer(socket, message);
    ReceivedIsWritten(p, socket.wire, sizes);
    BodyReceived(p);
    received := ReceiveFromServer(Cut(socket.wire, sizes));
  }
}
