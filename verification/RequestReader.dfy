/**
  Reading a request's text: written from the grammar of section 4.1 of RFC 2616, with no
  regard to how the text was printed.
 */
module RequestReader {
  import opened Options

  /** The three words of the first line, the header fields in order, and the body. */
  datatype Request = Request(verb: string, url: string, version: string,
                             fields: seq<(string, string)>, body: string)

  /** The position of the first `c`, or the length. */
  function FirstOf(s: string, c: char): (i: nat)
    ensures i <= |s| && c !in s[..i] && (i < |s| ==> s[i] == c)
  {
    if s == "" || s[0] == c then 0 else 1 + FirstOf(s[1..], c)
  }

  /** What follows the last `c`. */
  function AfterLast(s: string, c: char): string
    decreases |s|
  {
    var i := FirstOf(s, c);
    if i == |s| then s else AfterLast(s[i + 1..], c)
  }

  /** The pieces between any two `c`. */
  function Split(s: string, c: char): seq<string>
    decreases |s|
  {
    var i := FirstOf(s, c);
    if i == |s| then [s] else [s[..i]] + Split(s[i + 1..], c)
  }

  /** The position of the first CRLF, or the length. */
  function FirstBreak(s: string): (i: nat)
    ensures i <= |s|
  {
    if |s| >= 2 && s[0] == '\r' && s[1] == '\n' then 0
    else if s == "" then 0 else 1 + FirstBreak(s[1..])
  }

  /** The lines up to the empty one, and what follows it. */
  function HeaderOf(s: string): (seq<string>, string)
    decreases |s|
  {
    var i := FirstBreak(s);
    if i + 2 > |s| then ([s], "")
    else if i == 0 then ([], s[2..])
    else
      var (lines, body) := HeaderOf(s[i + 2..]);
      ([s[..i]] + lines, body)
  }

  /** A header field: its name before the first colon, its value after that and a blank. */
  function Field(line: string): (string, string) {
    var i := FirstOf(line, ':');
    if i + 2 > |line| then (line, "") else (line[..i], line[i + 2..])
  }

  function Fields(lines: seq<string>): seq<(string, string)> {
    if lines == [] then [] else [Field(lines[0])] + Fields(lines[1..])
  }

  function Value(fields: seq<(string, string)>, name: string): Option<string> {
    if fields == [] then None
    else if fields[0].0 == name then Some(fields[0].1)
    else Value(fields[1..], name)
  }

  function Read(s: string): Request {
    var (lines, body) := HeaderOf(s);
    if lines == [] then Request("", "", "", [], body)
    else
      var (first, version) := (lines[0], AfterLast(lines[0], ' '));
      var i := FirstOf(first, ' ');
      var url := if i + 1 + |version| < |first| then first[i + 1..|first| - |version| - 1] else "";
      Request(first[..i], url, version, Fields(lines[1..]), body)
  }
}

/** Reading what was printed gives back every argument. */
module RequestRoundTrip {
  import opened Options
  import opened Numbers
  import opened Requests
  import opened RequestReader

  // ---------- Splitting ----------

  lemma {:induction false} FirstIs(a: string, c: char, b: string)
    requires c !in a
    ensures FirstOf(a + ([c] + b), c) == |a|
  {
    if a == "" {
      assert a + ([c] + b) == [c] + b;
    } else {
      assert (a + ([c] + b))[1..] == a[1..] + ([c] + b);
      FirstIs(a[1..], c, b);
    }
  }

  lemma {:induction false} NoneIs(a: string, c: char)
    requires c !in a
    ensures FirstOf(a, c) == |a|
  {
    if a != "" {
      NoneIs(a[1..], c);
    }
  }

  lemma {:induction false} AfterLastIs(a: string, c: char, b: string)
    requires c !in b
    ensures AfterLast(a + ([c] + b), c) == b
    decreases |a|
  {
    var s := a + ([c] + b);
    var i := FirstOf(s, c);
    assert s[|a|] == c;
    if i < |a| {
      assert s[i + 1..] == a[i + 1..] + ([c] + b);
      AfterLastIs(a[i + 1..], c, b);
    } else {
      assert i == |a| && s[i + 1..] == b;
      NoneIs(b, c);
    }
  }

  lemma {:induction false} SplitJoined(cookies: seq<string>)
    requires cookies != [] && forall c :: c in cookies ==> ';' !in c
    ensures Split(Joined(cookies), ';') == cookies
  {
    assert cookies[0] in cookies;
    if |cookies| == 1 {
      NoneIs(cookies[0], ';');
    } else {
      var rest := cookies[1..];
      assert Joined(cookies) == cookies[0] + ([';'] + Joined(rest));
      FirstIs(cookies[0], ';', Joined(rest));
      SplitJoined(rest);
    }
  }

  // ---------- Lines ----------

  lemma {:induction false} BreakIs(l: string, rest: string)
    requires NoBreaks(l)
    ensures FirstBreak(l + ("\r\n" + rest)) == |l|
  {
    if l == "" {
      assert l + ("\r\n" + rest) == "\r\n" + rest;
    } else {
      assert (l + ("\r\n" + rest))[1..] == l[1..] + ("\r\n" + rest);
      BreakIs(l[1..], rest);
    }
  }

  lemma {:induction false} HeaderIs(lines: seq<string>, body: string)
    requires LinesOk(lines)
    ensures HeaderOf(Lines(lines) + "\r\n" + body) == (lines, body)
  {
    if lines == [] {
      assert Lines(lines) + "\r\n" + body == "" + ("\r\n" + body);
      BreakIs("", body);
    } else {
      var l := lines[0];
      var rest := Lines(lines[1..]) + "\r\n" + body;
      assert l in lines;
      assert Lines(lines) + "\r\n" + body == l + ("\r\n" + rest);
      HeaderFirst(l, rest);
      HeaderIs(lines[1..], body);
      assert [l] + lines[1..] == lines;
    }
  }

  lemma HeaderFirst(l: string, rest: string)
    requires l != "" && NoBreaks(l)
    ensures HeaderOf(l + ("\r\n" + rest)) == ([l] + HeaderOf(rest).0, HeaderOf(rest).1)
  {
    BreakIs(l, rest);
    var s := l + ("\r\n" + rest);
    assert s[..|l|] == l && s[|l| + 2..] == rest;
  }

  lemma FieldIs(name: string, value: string)
    requires ':' !in name
    ensures Field(name + ": " + value) == (name, value)
  {
    assert name + ": " + value == name + ([':'] + (" " + value));
    FirstIs(name, ':', " " + value);
  }

  lemma {:induction false} FieldsAppend(a: seq<string>, b: seq<string>)
    ensures Fields(a + b) == Fields(a) + Fields(b)
  {
    if a == [] {
      assert a + b == b;
    } else {
      assert (a + b)[1..] == a[1..] + b;
      FieldsAppend(a[1..], b);
    }
  }

  // ---------- The request ----------

  function OptionalField(name: string, value: Option<string>): seq<(string, string)> {
    if value.Some? then [(name, value.value)] else []
  }

  lemma OptionalFieldIs(name: string, mark: string, value: Option<string>)
    requires ':' !in name
    ensures Fields(OptionalLine(name + ": " + mark, value)) ==
            OptionalField(name, if value.Some? then Some(mark + value.value) else None)
  {
    if value.Some? {
      assert name + ": " + mark + value.value == name + ": " + (mark + value.value);
      FieldIs(name, mark + value.value);
      assert Fields([]) == [];
    }
  }

  function LastFields(p: Post): seq<(string, string)>
    requires p.cookies.Some? ==> p.cookies.value != []
  {
    OptionalField("Authorization", if p.authorization.Some? then Some("Bearer " + p.authorization.value) else None) +
    OptionalField("Cookie", CookieText(p))
  }

  lemma LastFieldsAre(p: Post)
    requires p.cookies.Some? ==> p.cookies.value != []
    ensures Fields(LastLines(p)) == LastFields(p)
  {
    OptionalFieldIs("Authorization", "Bearer ", p.authorization);
    assert "Authorization: Bearer " == "Authorization" + ": " + "Bearer ";
    OptionalFieldIs("Cookie", "", CookieText(p));
    assert "Cookie: " == "Cookie" + ": " + "";
    if p.cookies.Some? {
      assert "" + CookieText(p).value == CookieText(p).value;
    }
    FieldsAppend(OptionalLine("Authorization: Bearer ", p.authorization), OptionalLine("Cookie: ", CookieText(p)));
  }

  lemma FirstFieldsAre(p: Post)
    ensures Fields(FirstLines(p)[1..] + [LengthLine(p)]) ==
            [("Host", p.host), ("Content-Type", p.contentType), ("Content-Length", Decimal(|p.body|))]
  {
    FieldIs("Host", p.host);
    FieldIs("Content-Type", p.contentType);
    FieldIs("Content-Length", Decimal(|p.body|));
    assert "Host: " == "Host" + ": " && "Content-Type: " == "Content-Type" + ": ";
    assert LengthLine(p) == "Content-Length" + ": " + Decimal(|p.body|);
    var (a, b, c) := ("Host" + ": " + p.host, "Content-Type" + ": " + p.contentType, LengthLine(p));
    assert FirstLines(p)[1..] + [LengthLine(p)] == [a] + ([b] + ([c] + []));
    FieldsFirst(c, []);
    FieldsFirst(b, [c] + []);
    FieldsFirst(a, [b] + ([c] + []));
  }

  lemma FieldsFirst(l: string, rest: seq<string>)
    ensures Fields([l] + rest) == [Field(l)] + Fields(rest)
  {
  }

  lemma FirstLineRead(url: string)
    ensures var first := "POST " + url + " HTTP/1.1";
            AfterLast(first, ' ') == "HTTP/1.1" && FirstOf(first, ' ') == 4 && first[..4] == "POST" &&
            first[5..|first| - 9] == url
  {
    var first := "POST " + url + " HTTP/1.1";
    assert first == ("POST " + url) + ([' '] + "HTTP/1.1");
    AfterLastIs("POST " + url, ' ', "HTTP/1.1");
    assert first == "POST" + ([' '] + (url + " HTTP/1.1"));
    FirstIs("POST", ' ', url + " HTTP/1.1");
  }

  lemma ReadIs(p: Post)
    requires Unbroken(p)
    ensures Read(PostText(p)) ==
            Request("POST", p.url, "HTTP/1.1",
                    [("Host", p.host), ("Content-Type", p.contentType), ("Content-Length", Decimal(|p.body|))]
                    + LastFields(p), p.body)
  {
    HeaderLinesOk(p);
    HeaderIs(HeaderLines(p), p.body);
    PartsRead(PostText(p), HeaderLines(p), p.url, p.body);
    FieldsRead(p);
  }

  lemma PartsRead(s: string, lines: seq<string>, url: string, body: string)
    requires lines != [] && lines[0] == "POST " + url + " HTTP/1.1" && HeaderOf(s) == (lines, body)
    ensures Read(s) == Request("POST", url, "HTTP/1.1", Fields(lines[1..]), body)
  {
    FirstLineRead(url);
  }

  lemma FieldsRead(p: Post)
    requires p.cookies.Some? ==> p.cookies.value != []
    ensures Fields(HeaderLines(p)[1..]) ==
            [("Host", p.host), ("Content-Type", p.contentType), ("Content-Length", Decimal(|p.body|))] + LastFields(p)
  {
    FirstFieldsAre(p);
    LastFieldsAre(p);
    var lines := FirstLines(p)[1..] + [LengthLine(p)];
    assert HeaderLines(p)[1..] == lines + LastLines(p);
    FieldsAppend(lines, LastLines(p));
  }

  /**
    Every argument is read back from the printed text, and what is absent is found absent;
    the cookies as long as none of them contains a semicolon.
   */
  lemma ReaderRecovers(p: Post)
    requires Unbroken(p)
    ensures var r := Read(PostText(p));
            && r.verb == "POST" && r.url == p.url && r.version == "HTTP/1.1" && r.body == p.body
            && Value(r.fields, "Host") == Some(p.host)
            && Value(r.fields, "Content-Type") == Some(p.contentType)
            && Value(r.fields, "Content-Length") == Some(Decimal(|p.body|))
            && Value(r.fields, "Authorization") ==
               (if p.authorization.Some? then Some("Bearer " + p.authorization.value) else None)
            && var cookies := Value(r.fields, "Cookie");
            && (cookies.Some? <==> p.cookies.Some?)
            && (p.cookies.Some? && (forall c :: c in p.cookies.value ==> ';' !in c) ==>
                  Split(cookies.value, ';') == p.cookies.value)
  {
    ReadIs(p);
    var first := [("Host", p.host), ("Content-Type", p.contentType), ("Content-Length", Decimal(|p.body|))];
    ValuesAre(first, LastFields(p));
    LastValues(p);
    if p.cookies.Some? && forall c :: c in p.cookies.value ==> ';' !in c {
      SplitJoined(p.cookies.value);
    }
  }

  lemma ValuesAre(three: seq<(string, string)>, rest: seq<(string, string)>)
    requires |three| == 3 && three[0].0 == "Host" && three[1].0 == "Content-Type" && three[2].0 == "Content-Length"
    ensures Value(three + rest, "Host") == Some(three[0].1)
    ensures Value(three + rest, "Content-Type") == Some(three[1].1)
    ensures Value(three + rest, "Content-Length") == Some(three[2].1)
    ensures Value(three + rest, "Authorization") == Value(rest, "Authorization")
    ensures Value(three + rest, "Cookie") == Value(rest, "Cookie")
  {
    assert three + rest == [three[0]] + ([three[1]] + ([three[2]] + rest));
    assert "Host"[0] != "Content-Type"[0] && "Host"[0] != "Authorization"[0];
    assert |"Content-Type"| != |"Content-Length"|;
    forall name: string
      ensures Value(three + rest, name) ==
              if three[0].0 == name then Some(three[0].1)
              else if three[1].0 == name then Some(three[1].1)
              else if three[2].0 == name then Some(three[2].1)
              else Value(rest, name)
    {
      ValueFirst(three[2], rest, name);
      ValueFirst(three[1], [three[2]] + rest, name);
      ValueFirst(three[0], [three[1]] + ([three[2]] + rest), name);
    }
  }

  lemma ValueFirst(field: (string, string), rest: seq<(string, string)>, name: string)
    ensures Value([field] + rest, name) == if field.0 == name then Some(field.1) else Value(rest, name)
  {
  }

  lemma LastValues(p: Post)
    requires p.cookies.Some? ==> p.cookies.value != []
    ensures Value(LastFields(p), "Authorization") ==
            if p.authorization.Some? then Some("Bearer " + p.authorization.value) else None
    ensures Value(LastFields(p), "Cookie") == CookieText(p)
  {
    var last := OptionalField("Cookie", CookieText(p));
    if p.authorization.Some? {
      assert LastFields(p)[1..] == last;
    } else {
      assert LastFields(p) == last;
    }
    if last != [] {
      assert last[1..] == [];
    }
  }
}
