/** Substring search in a growing buffer. */
module Search {

  function Lower(c: char): char {
    if 'A' <= c <= 'Z' then (c as int + 32) as char else c
  }

  predicate Same(a: char, b: char, ignoreCase: bool) {
    if ignoreCase then Lower(a) == Lower(b) else a == b
  }

  predicate MatchesAt(s: string, pat: string, ignoreCase: bool, i: nat) {
    i + |pat| <= |s| && forall j :: 0 <= j < |pat| ==> Same(s[i + j], pat[j], ignoreCase)
  }

  /** The first match at or after `i`, or -1. */
  function FindFrom(s: string, pat: string, ignoreCase: bool, i: nat): int
    decreases |s| - i
  {
    if i + |pat| > |s| then -1
    else if MatchesAt(s, pat, ignoreCase, i) then i
    else FindFrom(s, pat, ignoreCase, i + 1)
  }

  function Find(s: string, pat: string, ignoreCase: bool): int {
    FindFrom(s, pat, ignoreCase, 0)
  }

  ghost predicate IsFirst(s: string, pat: string, ignoreCase: bool, i: nat) {
    MatchesAt(s, pat, ignoreCase, i) && forall k :: 0 <= k < i ==> !MatchesAt(s, pat, ignoreCase, k)
  }

  lemma {:induction false} FindFromMeans(s: string, pat: string, ignoreCase: bool, i: nat)
    ensures var r := FindFrom(s, pat, ignoreCase, i);
            && (r == -1 ==> forall k: nat :: i <= k ==> !MatchesAt(s, pat, ignoreCase, k))
            && (r != -1 ==> i <= r && MatchesAt(s, pat, ignoreCase, r) &&
                            forall k: nat :: i <= k < r ==> !MatchesAt(s, pat, ignoreCase, k))
    decreases |s| - i
  {
    if i + |pat| <= |s| && !MatchesAt(s, pat, ignoreCase, i) {
      FindFromMeans(s, pat, ignoreCase, i + 1);
    }
  }

  /** `Find` returns the position of the first match, and -1 exactly when there is none. */
  lemma FindMeans(s: string, pat: string, ignoreCase: bool, i: nat)
    ensures Find(s, pat, ignoreCase) == i <==> IsFirst(s, pat, ignoreCase, i)
    ensures Find(s, pat, ignoreCase) == -1 <==> forall k: nat :: !MatchesAt(s, pat, ignoreCase, k)
    ensures Find(s, pat, ignoreCase) >= -1
  {
    FindFromMeans(s, pat, ignoreCase, 0);
  }

  /** As the buffer grows, the first match stays the first match from the moment it is complete. */
  lemma FindInPrefix(s: string, pat: string, ignoreCase: bool, n: nat)
    requires n <= |s| && Find(s, pat, ignoreCase) >= 0
    ensures Find(s[..n], pat, ignoreCase) ==
            if Find(s, pat, ignoreCase) + |pat| <= n then Find(s, pat, ignoreCase) else -1
  {
    var i := Find(s, pat, ignoreCase);
    var p := s[..n];
    FindMeans(s, pat, ignoreCase, i);
    forall k: nat
      ensures MatchesAt(p, pat, ignoreCase, k) <==> MatchesAt(s, pat, ignoreCase, k) && k + |pat| <= n
    {
      assert forall x :: 0 <= x < n ==> p[x] == s[x];
    }
    FindMeans(p, pat, ignoreCase, i);
  }

  lemma NoneInPrefix(s: string, pat: string, ignoreCase: bool, n: nat)
    requires n <= |s| && Find(s, pat, ignoreCase) == -1
    ensures Find(s[..n], pat, ignoreCase) == -1
  {
    FindMeans(s, pat, ignoreCase, 0);
    FindMeans(s[..n], pat, ignoreCase, 0);
    forall k: nat
      ensures !MatchesAt(s[..n], pat, ignoreCase, k)
    {
      assert !MatchesAt(s, pat, ignoreCase, k);
      assert forall x :: 0 <= x < n ==> s[..n][x] == s[x];
    }
  }

  // ---------- Case ----------

  /** The same character, or the same ASCII letter in the other case. */
  ghost predicate CaseOf(c: char, d: char) {
    || c == d
    || (65 <= c as int <= 90 && d as int == c as int + 32)
    || (97 <= c as int <= 122 && d as int == c as int - 32)
  }

  /** Ignoring case, exactly the two cases of a letter are the same; otherwise nothing but the character itself. */
  lemma SameIff(c: char, d: char, ignoreCase: bool)
    ensures Same(c, d, ignoreCase) <==> if ignoreCase then CaseOf(c, d) else c == d
  {
  }

  ghost predicate Respelled(s: string, t: string) {
    |s| == |t| && forall i :: 0 <= i < |s| ==> CaseOf(s[i], t[i])
  }

  lemma MatchesAnyCase(s: string, t: string, pat: string, pat': string, i: nat)
    requires Respelled(s, t) && Respelled(pat, pat') && MatchesAt(s, pat, true, i)
    ensures MatchesAt(t, pat', true, i)
  {
    forall j | 0 <= j < |pat'|
      ensures Same(t[i + j], pat'[j], true)
    {
      assert Same(s[i + j], pat[j], true);
      assert CaseOf(s[i + j], t[i + j]) && CaseOf(pat[j], pat'[j]);
    }
  }

  lemma RespelledBack(s: string, t: string)
    requires Respelled(s, t)
    ensures Respelled(t, s)
  {
  }

  /** Ignoring case, the search does not depend on how the letters of text and pattern are spelled. */
  lemma FindAnyCase(s: string, t: string, pat: string, pat': string)
    requires Respelled(s, t) && Respelled(pat, pat')
    ensures Find(s, pat, true) == Find(t, pat', true)
  {
    RespelledBack(s, t);
    RespelledBack(pat, pat');
    forall k: nat
      ensures MatchesAt(s, pat, true, k) <==> MatchesAt(t, pat', true, k)
    {
      if MatchesAt(s, pat, true, k) {
        MatchesAnyCase(s, t, pat, pat', k);
      }
      if MatchesAt(t, pat', true, k) {
        MatchesAnyCase(t, s, pat', pat, k);
      }
    }
    SameMatches(s, t, pat, pat', true);
  }

  lemma SameMatches(s: string, t: string, pat: string, pat': string, ignoreCase: bool)
    requires forall k: nat :: MatchesAt(s, pat, ignoreCase, k) <==> MatchesAt(t, pat', ignoreCase, k)
    ensures Find(s, pat, ignoreCase) == Find(t, pat', ignoreCase)
  {
    var i := Find(s, pat, ignoreCase);
    FindMeans(s, pat, ignoreCase, if i < 0 then 0 else i);
    FindMeans(t, pat', ignoreCase, if i < 0 then 0 else i);
  }

  /** A pattern without letters is found in the same place however the text is spelled. */
  lemma FindNoLetters(s: string, t: string, pat: string)
    requires Respelled(s, t) && forall j :: 0 <= j < |pat| ==> pat[j] as int < 65
    ensures Find(s, pat, false) == Find(t, pat, false)
  {
    forall k: nat
      ensures MatchesAt(s, pat, false, k) <==> MatchesAt(t, pat, false, k)
    {
      if k + |pat| <= |s| {
        forall j | 0 <= j < |pat|
          ensures Same(s[k + j], pat[j], false) <==> Same(t[k + j], pat[j], false)
        {
          assert CaseOf(s[k + j], t[k + j]);
        }
      }
    }
    SameMatches(s, t, pat, pat, false);
  }

  // ---------- Where matches are ----------

  lemma MatchHere(a: string, pat: string, b: string, ignoreCase: bool)
    ensures MatchesAt(a + (pat + b), pat, ignoreCase, |a|)
  {
  }

  /** Matches after a prefix are the matches of the rest. */
  lemma MatchAfter(a: string, s: string, pat: string, ignoreCase: bool, k: nat)
    requires k >= |a|
    ensures MatchesAt(a + s, pat, ignoreCase, k) <==> MatchesAt(s, pat, ignoreCase, k - |a|)
  {
  }

  /** Matches inside a prefix are the prefix's own. */
  lemma MatchWithin(a: string, s: string, pat: string, ignoreCase: bool, k: nat)
    requires k + |pat| <= |a|
    ensures MatchesAt(a + s, pat, ignoreCase, k) <==> MatchesAt(a, pat, ignoreCase, k)
  {
  }
}

/** The growing buffer and its two searches. */
module GrowingBuffer {
  import opened Search

  class Buffer {
    var data: string

    constructor ()
      ensures data == ""
    {
      data := "";
    }

    /** `realloc` and copy. */
    method Add(more: string)
      modifies this
      ensures data == old(data) + more
    {
      data := data + more;
    }

    method Find(pat: string, ignoreCase: bool) returns (r: int)
      ensures r == Search.Find(data, pat, ignoreCase)
    {
      if |pat| > |data| {
        return -1;
      }
      var lastPos := |data| - |pat| + 1;
      for i := 0 to lastPos
        invariant Search.Find(data, pat, ignoreCase) == FindFrom(data, pat, ignoreCase, i)
      {
        var j := 0;
        while j < |pat| && Same(data[i + j], pat[j], ignoreCase)
          invariant 0 <= j <= |pat|
          invariant forall l :: 0 <= l < j ==> Same(data[i + l], pat[l], ignoreCase)
        {
          j := j + 1;
        }
        if j == |pat| {
          assert MatchesAt(data, pat, ignoreCase, i);
          return i;
        }
        assert !MatchesAt(data, pat, ignoreCase, i);
      }
      return -1;
    }
  }
}

/** `strtol` in base 10, converted to the 32-bit `int` its result is stored in. */
module Numbers {
  import opened Search

  predicate IsSpace(c: char) {
    c == ' ' || '\U{09}' <= c <= '\U{0D}'
  }

  predicate IsDigit(c: char) {
    '0' <= c <= '9'
  }

  function DigitValue(c: char): nat
    requires IsDigit(c)
  {
    c as int - '0' as int
  }

  function SkipSpaces(s: string): string {
    if s != "" && IsSpace(s[0]) then SkipSpaces(s[1..]) else s
  }

  function ParseDigits(s: string, acc: nat): nat {
    if s == "" || !IsDigit(s[0]) then acc else ParseDigits(s[1..], 10 * acc + DigitValue(s[0]))
  }

  function ParseSigned(s: string): int {
    if s != "" && s[0] == '-' then 0 - ParseDigits(s[1..], 0)
    else if s != "" && s[0] == '+' then ParseDigits(s[1..], 0)
    else ParseDigits(s, 0)
  }

  const LONG_MAX := 0x7fff_ffff_ffff_ffff

  /** Out-of-range values are clamped to the range of `long`. */
  function Strtol(s: string): int {
    var v := ParseSigned(SkipSpaces(s));
    if v > LONG_MAX then LONG_MAX else if v < -LONG_MAX - 1 then -LONG_MAX - 1 else v
  }

  function ToInt(v: int): int {
    var m := v % 0x1_0000_0000;
    if m < 0x8000_0000 then m else m - 0x1_0000_0000
  }

  /** `%d` of a natural number. */
  function Decimal(n: nat): (s: string)
    ensures s != "" && IsDigit(s[0]) && forall i :: 0 <= i < |s| ==> IsDigit(s[i])
  {
    var last := [('0' as int + n % 10) as char];
    if n < 10 then last else Decimal(n / 10) + last
  }

  lemma {:induction false} ParseDecimal(n: nat, rest: string)
    ensures ParseDigits(Decimal(n) + rest, 0) == ParseDigits(rest, n)
  {
    var last := [('0' as int + n % 10) as char];
    if n < 10 {
      assert (Decimal(n) + rest)[1..] == rest;
    } else {
      assert Decimal(n) + rest == Decimal(n / 10) + (last + rest);
      ParseDecimal(n / 10, last + rest);
      assert (last + rest)[1..] == rest;
    }
  }

  /** Reading back a printed number, whatever follows it but a digit, gives the number. */
  lemma PrintThenParse(n: nat, rest: string)
    requires n < 0x8000_0000 && (rest == "" || !IsDigit(rest[0]))
    ensures ToInt(Strtol(Decimal(n) + rest)) == n
  {
    StrtolDecimal(n, rest);
    ToIntSmall(n);
  }

  lemma StrtolDecimal(n: nat, rest: string)
    requires n <= LONG_MAX && (rest == "" || !IsDigit(rest[0]))
    ensures Strtol(Decimal(n) + rest) == n
  {
    ParseDecimal(n, rest);
    assert (Decimal(n) + rest)[0] == Decimal(n)[0];
  }

  lemma ToIntSmall(v: int)
    requires 0 <= v < 0x8000_0000
    ensures ToInt(v) == v
  {
  }

  // ---------- What is read ----------

  /** The value of a string of digits, by the place of each. */
  ghost function PlaceValue(d: string): int {
    if d == "" then 0 else (d[0] as int - 48) * Pow10(|d| - 1) + PlaceValue(d[1..])
  }

  ghost function Pow10(n: nat): int {
    if n == 0 then 1 else 10 * Pow10(n - 1)
  }

  ghost predicate Spaces(w: string) {
    forall i :: 0 <= i < |w| ==> w[i] as int == 32 || 9 <= w[i] as int <= 13
  }

  ghost predicate Digits(d: string) {
    forall i :: 0 <= i < |d| ==> 48 <= d[i] as int <= 57
  }

  ghost predicate StartsWithDigit(s: string) {
    s != "" && 48 <= s[0] as int <= 57
  }

  /** What follows the white space and sign is not more of them. */
  ghost predicate NumberEnds(sign: string, d: string, rest: string) {
    && !StartsWithDigit(rest)
    && (d == "" && sign == "" && rest != "" ==>
          rest[0] != '+' && rest[0] != '-' && rest[0] as int != 32 && !(9 <= rest[0] as int <= 13))
  }

  lemma {:induction false} ParseDigitsValue(d: string, rest: string, acc: nat)
    requires Digits(d) && !StartsWithDigit(rest)
    ensures ParseDigits(d + rest, acc) == acc * Pow10(|d|) + PlaceValue(d)
  {
    if d == "" {
      assert d + rest == rest;
    } else {
      assert (d + rest)[1..] == d[1..] + rest;
      ParseDigitsValue(d[1..], rest, 10 * acc + DigitValue(d[0]));
      Shifted(acc, DigitValue(d[0]), Pow10(|d| - 1));
    }
  }

  lemma Shifted(acc: int, digit: int, p: int)
    ensures (10 * acc + digit) * p == acc * (10 * p) + digit * p
  {
  }

  lemma {:induction false} SpacesSkipped(w: string, rest: string)
    requires Spaces(w) && (rest != "" ==> !(rest[0] as int == 32 || 9 <= rest[0] as int <= 13))
    ensures SkipSpaces(w + rest) == rest
  {
    if w == "" {
      assert w + rest == rest;
    } else {
      assert (w + rest)[1..] == w[1..] + rest;
      SpacesSkipped(w[1..], rest);
    }
  }

  lemma SignedValue(sign: string, d: string, rest: string)
    requires sign in ["", "+", "-"] && Digits(d) && NumberEnds(sign, d, rest)
    ensures ParseSigned(sign + (d + rest)) == if sign == "-" then 0 - PlaceValue(d) else PlaceValue(d)
  {
    ParseDigitsValue(d, rest, 0);
    if sign == "" {
      assert sign + (d + rest) == d + rest;
    } else {
      assert (sign + (d + rest))[1..] == d + rest;
    }
  }

  /**
    Any text is white space, a sign or none, digits or none, and the rest. `strtol` skips the
    space and gives the signed decimal value, clamped to 64 bits; 0 where there are no digits.
   */
  lemma StrtolMeans(w: string, sign: string, d: string, rest: string)
    requires Spaces(w) && sign in ["", "+", "-"] && Digits(d) && NumberEnds(sign, d, rest)
    ensures var v := if sign == "-" then 0 - PlaceValue(d) else PlaceValue(d);
            Strtol(w + (sign + (d + rest))) ==
            if v >= 0x8000_0000_0000_0000 then 0x7fff_ffff_ffff_ffff
            else if v < -0x8000_0000_0000_0000 then -0x8000_0000_0000_0000
            else v
  {
    var number := sign + (d + rest);
    SpacesSkipped(w, number);
    SignedValue(sign, d, rest);
  }

  /** The value stored is the one of 32 bits that differs from it by a multiple of 2^32. */
  lemma ToIntMeans(v: int)
    ensures -0x8000_0000 <= ToInt(v) < 0x8000_0000 && (v - ToInt(v)) % 0x1_0000_0000 == 0
  {
  }

  /** What is printed has the number's value and no zero in front. */
  lemma DecimalMeans(n: nat)
    ensures Digits(Decimal(n)) && PlaceValue(Decimal(n)) == n
    ensures Decimal(n)[0] == '0' ==> n == 0 && Decimal(n) == "0"
  {
    assert Decimal(n) + "" == Decimal(n);
    ParseDecimal(n, "");
    ParseDigitsValue(Decimal(n), "", 0);
    NoLeadingZero(n);
  }

  lemma {:induction false} NoLeadingZero(n: nat)
    ensures Decimal(n)[0] == '0' ==> n == 0 && Decimal(n) == "0"
  {
    if n >= 10 {
      NoLeadingZero(n / 10);
      assert Decimal(n)[0] == Decimal(n / 10)[0];
    }
  }

  lemma {:induction false} DigitsAnyCase(u: string, v: string, acc: nat)
    requires Respelled(u, v)
    ensures ParseDigits(u, acc) == ParseDigits(v, acc)
  {
    if u != "" {
      assert CaseOf(u[0], v[0]);
      RespelledTail(u, v);
      if IsDigit(u[0]) {
        DigitsAnyCase(u[1..], v[1..], 10 * acc + DigitValue(u[0]));
      }
    }
  }

  lemma RespelledTail(u: string, v: string)
    requires Respelled(u, v) && u != ""
    ensures Respelled(u[1..], v[1..])
  {
    assert forall i :: 0 <= i < |u| - 1 ==> u[1..][i] == u[i + 1] && v[1..][i] == v[i + 1];
  }

  lemma {:induction false} SpacesAnyCase(u: string, v: string)
    requires Respelled(u, v)
    ensures Respelled(SkipSpaces(u), SkipSpaces(v))
  {
    if u != "" {
      assert CaseOf(u[0], v[0]);
      RespelledTail(u, v);
      if IsSpace(u[0]) {
        SpacesAnyCase(u[1..], v[1..]);
      }
    }
  }

  /** Letters end a number in either case. */
  lemma StrtolAnyCase(u: string, v: string)
    requires Respelled(u, v)
    ensures Strtol(u) == Strtol(v)
  {
    var a, b := SkipSpaces(u), SkipSpaces(v);
    SpacesAnyCase(u, v);
    DigitsAnyCase(a, b, 0);
    if a != "" {
      assert CaseOf(a[0], b[0]);
      RespelledTail(a, b);
      DigitsAnyCase(a[1..], b[1..], 0);
    }
  }

  /** Some character before the end is not white space. */
  ghost predicate HasValue(s: string) {
    exists i :: 0 <= i < |s| && !IsSpace(s[i])
  }

  lemma {:induction false} DigitsStop(u: string, v: string, w: string, acc: nat)
    requires u != "" && !IsDigit(u[|u| - 1])
    ensures ParseDigits(u + v, acc) == ParseDigits(u + w, acc)
  {
    if IsDigit(u[0]) {
      assert (u + v)[1..] == u[1..] + v && (u + w)[1..] == u[1..] + w;
      DigitsStop(u[1..], v, w, 10 * acc + DigitValue(u[0]));
    }
  }

  /** A value that ends before a carriage return does not depend on what comes after. */
  lemma {:induction false} StrtolStops(u: string, v: string, w: string)
    requires HasValue(u) && u[|u| - 1] == '\r'
    ensures Strtol(u + v) == Strtol(u + w)
  {
    var i :| 0 <= i < |u| && !IsSpace(u[i]);
    assert i < |u| - 1;
    if IsSpace(u[0]) {
      assert (u + v)[1..] == u[1..] + v && (u + w)[1..] == u[1..] + w;
      assert !IsSpace(u[1..][i - 1]);
      StrtolStops(u[1..], v, w);
    } else {
      assert (u + v)[1..] == u[1..] + v && (u + w)[1..] == u[1..] + w;
      DigitsStop(u, v, w, 0);
      DigitsStop(u[1..], v, w, 0);
    }
  }

  lemma {:induction false} AllSpaceIsZero(u: string)
    requires !HasValue(u)
    ensures Strtol(u) == 0
  {
    if u != "" {
      assert forall i :: 0 <= i < |u[1..]| ==> u[1..][i] == u[i + 1];
      AllSpaceIsZero(u[1..]);
    }
  }
}

/** The receive loops, over the results of successive reads; a read of no bytes means the peer closed. */
module Framing {
  import opened Search
  import opened Numbers
  import GrowingBuffer

  const TERMINATOR := "\r\n\r\n"
  const CONTENT_LENGTH := "Content-Length: "

  function Concat(chunks: seq<string>): string {
    if chunks == [] then "" else Concat(chunks[..|chunks| - 1]) + chunks[|chunks| - 1]
  }

  predicate AtEof(chunks: seq<string>, i: nat) {
    i >= |chunks| || chunks[i] == ""
  }

  /** `content_length + (size_t) header_end`. */
  function Total(contentLength: int, headerEnd: int): nat {
    (contentLength + headerEnd) % 0x1_0000_0000_0000_0000
  }

  /** The sum as an unsigned 64-bit number. */
  lemma TotalMeans(contentLength: int, headerEnd: int)
    ensures var total := Total(contentLength, headerEnd);
            total < 0x1_0000_0000_0000_0000 && (total - contentLength - headerEnd) % 0x1_0000_0000_0000_0000 == 0
  {
  }

  function LengthAt(data: string, start: int): int
    requires 0 <= start && start + |CONTENT_LENGTH| <= |data|
  {
    ToInt(Strtol(data[start + |CONTENT_LENGTH|..]))
  }

  lemma FoundInside(s: string, pat: string, ignoreCase: bool)
    ensures Find(s, pat, ignoreCase) >= 0 ==> Find(s, pat, ignoreCase) + |pat| <= |s|
  {
    if Find(s, pat, ignoreCase) >= 0 {
      FindMeans(s, pat, ignoreCase, Find(s, pat, ignoreCase));
    }
  }

  /** The first loop, after `i` reads: how many reads it takes, and the total it arrives at. */
  function HeaderLoop(chunks: seq<string>, i: nat, headerEnd: int): (r: (nat, nat))
    requires i <= |chunks|
    ensures i <= r.0 <= |chunks|
    decreases |chunks| - i
  {
    if AtEof(chunks, i) then (i, Total(0, headerEnd))
    else
      var data := Concat(chunks[..i + 1]);
      var h := Find(data, TERMINATOR, false);
      var c := Find(data, CONTENT_LENGTH, true);
      FoundInside(data, CONTENT_LENGTH, true);
      if h < 0 then HeaderLoop(chunks, i + 1, -1)
      else if c < 0 then HeaderLoop(chunks, i + 1, h + |TERMINATOR|)
      else (i + 1, Total(LengthAt(data, c), h + |TERMINATOR|))
  }

  /** The second loop. */
  function BodyLoop(chunks: seq<string>, i: nat, total: nat): (r: nat)
    requires i <= |chunks|
    ensures i <= r <= |chunks|
    decreases |chunks| - i
  {
    if |Concat(chunks[..i])| >= total || AtEof(chunks, i) then i else BodyLoop(chunks, i + 1, total)
  }

  /** How many reads `receive_from_server` makes that return something. */
  function Consumed(chunks: seq<string>): (r: nat)
    ensures r <= |chunks|
  {
    var (n, total) := HeaderLoop(chunks, 0, 0);
    BodyLoop(chunks, n, total)
  }

  lemma NextChunk(chunks: seq<string>, i: nat)
    requires i < |chunks|
    ensures Concat(chunks[..i + 1]) == Concat(chunks[..i]) + chunks[i]
  {
    assert chunks[..i + 1][..i] == chunks[..i];
  }

  /** `receive_from_server`. */
  method ReceiveFromServer(chunks: seq<string>) returns (response: string)
    ensures response == Concat(chunks[..Consumed(chunks)]) + "\0"
  {
    var buffer := new GrowingBuffer.Buffer();
    assert chunks[..0] == [];
    var i, total := ReadHeader(chunks, buffer);
    i := ReadBody(chunks, buffer, i, total);
    buffer.Add("\0");
    response := buffer.data;
  }

  /** The first loop: reads until the terminator and a content length have been seen, or the peer closes. */
  method ReadHeader(chunks: seq<string>, buffer: GrowingBuffer.Buffer) returns (i: nat, total: nat)
    requires buffer.data == ""
    modifies buffer
    ensures (i, total) == HeaderLoop(chunks, 0, 0) && buffer.data == Concat(chunks[..i])
  {
    var headerEnd, contentLength := 0, 0;
    i := 0;
    assert chunks[..0] == [];
    while true
      invariant 0 <= i <= |chunks| && contentLength == 0
      invariant buffer.data == Concat(chunks[..i])
      invariant HeaderLoop(chunks, 0, 0) == HeaderLoop(chunks, i, headerEnd)
      decreases |chunks| - i
    {
      if AtEof(chunks, i) {
        break;
      }
      NextChunk(chunks, i);
      buffer.Add(chunks[i]);
      i := i + 1;
      headerEnd := buffer.Find(TERMINATOR, false);
      FindMeans(buffer.data, TERMINATOR, false, 0);
      if headerEnd >= 0 {
        headerEnd := headerEnd + |TERMINATOR|;
        var start := buffer.Find(CONTENT_LENGTH, true);
        if start < 0 {
          continue;
        }
        FoundInside(buffer.data, CONTENT_LENGTH, true);
        contentLength := LengthAt(buffer.data, start);
        return i, Total(contentLength, headerEnd);
      }
    }
    total := Total(contentLength, headerEnd);
  }

  /** The second loop: reads until the total is there, or the peer closes. */
  method ReadBody(chunks: seq<string>, buffer: GrowingBuffer.Buffer, start: nat, total: nat) returns (i: nat)
    requires start <= |chunks| && buffer.data == Concat(chunks[..start])
    modifies buffer
    ensures i == BodyLoop(chunks, start, total) && buffer.data == Concat(chunks[..i])
  {
    i := start;
    while |buffer.data| < total
      invariant start <= i <= |chunks|
      invariant buffer.data == Concat(chunks[..i])
      invariant BodyLoop(chunks, start, total) == BodyLoop(chunks, i, total)
      decreases |chunks| - i
    {
      if AtEof(chunks, i) {
        break;
      }
      NextChunk(chunks, i);
      buffer.Add(chunks[i]);
      i := i + 1;
    }
  }

  // ---------- The end of the stream ----------

  lemma SamePrefix(chunks: seq<string>, n: nat, i: nat)
    requires i <= n <= |chunks|
    ensures chunks[..n][..i] == chunks[..i]
  {
  }

  lemma {:induction false} HeaderLoopCloses(chunks: seq<string>, n: nat, i: nat, headerEnd: int)
    requires i <= n < |chunks| && chunks[n] == ""
    ensures HeaderLoop(chunks, i, headerEnd) == HeaderLoop(chunks[..n], i, headerEnd)
    decreases n - i
  {
    if i < n && chunks[i] != "" {
      SamePrefix(chunks, n, i + 1);
      var data := Concat(chunks[..i + 1]);
      HeaderLoopCloses(chunks, n, i + 1, -1);
      HeaderLoopCloses(chunks, n, i + 1, Find(data, TERMINATOR, false) + |TERMINATOR|);
    }
  }

  lemma {:induction false} BodyLoopCloses(chunks: seq<string>, n: nat, i: nat, total: nat)
    requires i <= n < |chunks| && chunks[n] == ""
    ensures BodyLoop(chunks, i, total) == BodyLoop(chunks[..n], i, total)
    decreases n - i
  {
    SamePrefix(chunks, n, i);
    if i < n {
      BodyLoopCloses(chunks, n, i + 1, total);
    }
  }

  /** A read of no bytes ends the stream: nothing after it is read. */
  lemma EmptyReadCloses(chunks: seq<string>, n: nat)
    requires n < |chunks| && chunks[n] == ""
    ensures Consumed(chunks) == Consumed(chunks[..n]) <= n
  {
    HeaderLoopCloses(chunks, n, 0, 0);
    var (i, total) := HeaderLoop(chunks, 0, 0);
    BodyLoopCloses(chunks, n, i, total);
  }

  // ---------- Spelling ----------

  ghost predicate AllRespelled(chunks: seq<string>, chunks': seq<string>) {
    |chunks| == |chunks'| && forall i :: 0 <= i < |chunks| ==> Respelled(chunks[i], chunks'[i])
  }

  lemma {:induction false} ConcatRespelled(chunks: seq<string>, chunks': seq<string>)
    requires AllRespelled(chunks, chunks')
    ensures Respelled(Concat(chunks), Concat(chunks'))
  {
    if chunks != [] {
      var n := |chunks| - 1;
      ConcatRespelled(chunks[..n], chunks'[..n]);
      RespelledTogether(Concat(chunks[..n]), Concat(chunks'[..n]), chunks[n], chunks'[n]);
    }
  }

  lemma RespelledTogether(a: string, a': string, b: string, b': string)
    requires Respelled(a, a') && Respelled(b, b')
    ensures Respelled(a + b, a' + b')
  {
  }

  lemma LengthAnyCase(data: string, data': string, c: nat)
    requires Respelled(data, data') && c + |CONTENT_LENGTH| <= |data|
    ensures LengthAt(data, c) == LengthAt(data', c)
  {
    var v := c + |CONTENT_LENGTH|;
    assert Respelled(data[v..], data'[v..]);
    StrtolAnyCase(data[v..], data'[v..]);
  }

  lemma ReadAnyCase(chunks: seq<string>, chunks': seq<string>, i: nat)
    requires AllRespelled(chunks, chunks') && i <= |chunks|
    ensures Respelled(Concat(chunks[..i]), Concat(chunks'[..i]))
    ensures Find(Concat(chunks[..i]), TERMINATOR, false) == Find(Concat(chunks'[..i]), TERMINATOR, false)
    ensures Find(Concat(chunks[..i]), CONTENT_LENGTH, true) == Find(Concat(chunks'[..i]), CONTENT_LENGTH, true)
  {
    ConcatRespelled(chunks[..i], chunks'[..i]);
    FindNoLetters(Concat(chunks[..i]), Concat(chunks'[..i]), TERMINATOR);
    FindAnyCase(Concat(chunks[..i]), Concat(chunks'[..i]), CONTENT_LENGTH, CONTENT_LENGTH);
  }

  lemma {:induction false} HeaderLoopAnyCase(chunks: seq<string>, chunks': seq<string>, i: nat, headerEnd: int)
    requires AllRespelled(chunks, chunks') && i <= |chunks|
    ensures HeaderLoop(chunks, i, headerEnd) == HeaderLoop(chunks', i, headerEnd)
    decreases |chunks| - i
  {
    if !AtEof(chunks, i) {
      assert Respelled(chunks[i], chunks'[i]);
      ReadAnyCase(chunks, chunks', i + 1);
      var data, data' := Concat(chunks[..i + 1]), Concat(chunks'[..i + 1]);
      var h, c := Find(data, TERMINATOR, false), Find(data, CONTENT_LENGTH, true);
      FoundInside(data, CONTENT_LENGTH, true);
      if h < 0 {
        HeaderLoopAnyCase(chunks, chunks', i + 1, -1);
      } else if c < 0 {
        HeaderLoopAnyCase(chunks, chunks', i + 1, h + |TERMINATOR|);
      } else {
        LengthAnyCase(data, data', c);
      }
    }
  }

  lemma {:induction false} BodyLoopAnyCase(chunks: seq<string>, chunks': seq<string>, i: nat, total: nat)
    requires AllRespelled(chunks, chunks') && i <= |chunks|
    ensures BodyLoop(chunks, i, total) == BodyLoop(chunks', i, total)
    decreases |chunks| - i
  {
    ReadAnyCase(chunks, chunks', i);
    if i < |chunks| {
      assert Respelled(chunks[i], chunks'[i]);
      BodyLoopAnyCase(chunks, chunks', i + 1, total);
    }
  }

  /** How much of any stream is read does not depend on the case of its letters, those of the label among them. */
  lemma SpellingNeverMatters(chunks: seq<string>, chunks': seq<string>)
    requires AllRespelled(chunks, chunks')
    ensures Consumed(chunks) == Consumed(chunks')
  {
    HeaderLoopAnyCase(chunks, chunks', 0, 0);
    var (n, total) := HeaderLoop(chunks, 0, 0);
    BodyLoopAnyCase(chunks, chunks', n, total);
  }

  // ---------- Segmentation ----------

  /**
    A response whose first CRLFCRLF ends the header, whose first `Content-Length: ` lies in
    that header (at `c`), and whose value gives the number of bytes after the header.
   */
  ghost predicate IsResponse(r: string, h: nat, c: nat) {
    && Find(r, TERMINATOR, false) == h
    && Find(r, CONTENT_LENGTH, true) == c
    && c + |CONTENT_LENGTH| <= h + |TERMINATOR| <= |r| < 0x8000_0000
    && |r| == h + |TERMINATOR| + LengthAt(r, c)
  }

  /** The header carries something other than white space after `Content-Length: `. */
  ghost predicate ValueInHeader(r: string, h: nat, c: nat)
    requires c + |CONTENT_LENGTH| <= h + |TERMINATOR| <= |r|
  {
    HasValue(r[c + |CONTENT_LENGTH|..h + |TERMINATOR|])
  }

  /** The label has no CR or LF, so it ends before the terminator begins. */
  lemma LabelBeforeTerminator(r: string, h: nat, c: nat)
    requires IsResponse(r, h, c)
    ensures c + |CONTENT_LENGTH| <= h
  {
    FindMeans(r, TERMINATOR, false, h);
    FindMeans(r, CONTENT_LENGTH, true, c);
    assert Same(r[h + 0], TERMINATOR[0], false);
    if h < c + |CONTENT_LENGTH| {
      assert Same(r[c + (h - c)], CONTENT_LENGTH[h - c], true);
      LabelHasNoBreaks(h - c);
    }
  }

  lemma LabelHasNoBreaks(j: nat)
    requires j < |CONTENT_LENGTH|
    ensures Lower(CONTENT_LENGTH[j]) != '\r' && Lower(CONTENT_LENGTH[j]) != '\n'
  {
  }

  /** What the first loop sees after reading the first `n` bytes of a response. */
  lemma PrefixOfResponse(r: string, h: nat, c: nat, n: nat)
    requires IsResponse(r, h, c) && n <= |r|
    ensures n < h + |TERMINATOR| ==> Find(r[..n], TERMINATOR, false) == -1
    ensures n >= h + |TERMINATOR| ==> Find(r[..n], TERMINATOR, false) == h && Find(r[..n], CONTENT_LENGTH, true) == c
    ensures n >= h + |TERMINATOR| && ValueInHeader(r, h, c) ==> LengthAt(r[..n], c) == |r| - (h + |TERMINATOR|)
  {
    LabelBeforeTerminator(r, h, c);
    FindInPrefix(r, TERMINATOR, false, n);
    FindInPrefix(r, CONTENT_LENGTH, true, n);
    if n >= h + |TERMINATOR| && ValueInHeader(r, h, c) {
      ValueStops(r, h, c, n);
    }
  }

  lemma TerminatorIsSpace(r: string, h: nat)
    requires Find(r, TERMINATOR, false) == h
    ensures h + |TERMINATOR| <= |r| && r[h] == '\r'
    ensures forall x :: h <= x < h + |TERMINATOR| ==> IsSpace(r[x])
  {
    FindMeans(r, TERMINATOR, false, h);
    forall x | h <= x < h + |TERMINATOR|
      ensures r[x] == TERMINATOR[x - h]
    {
      assert Same(r[h + (x - h)], TERMINATOR[x - h], false);
    }
  }

  lemma ValueStops(r: string, h: nat, c: nat, n: nat)
    requires IsResponse(r, h, c) && h + |TERMINATOR| <= n <= |r| && ValueInHeader(r, h, c)
    ensures LengthAt(r[..n], c) == LengthAt(r, c)
  {
    var start := c + |CONTENT_LENGTH|;
    LabelBeforeTerminator(r, h, c);
    TerminatorIsSpace(r, h);
    var u := r[start..h + 1];
    assert u[|u| - 1] == '\r';
    assert HasValue(u) by {
      var v := r[start..h + |TERMINATOR|];
      var i :| 0 <= i < |v| && !IsSpace(v[i]);
      assert v[i] == r[start + i];
      assert u[i] == v[i];
    }
    StrtolStops(u, r[h + 1..n], r[h + 1..]);
    assert r[..n][start..] == u + r[h + 1..n];
    assert r[start..] == u + r[h + 1..];
  }

  ghost predicate NoneEmpty(chunks: seq<string>) {
    forall i :: 0 <= i < |chunks| ==> chunks[i] != ""
  }

  lemma {:induction false} ConcatPrefix(chunks: seq<string>, i: nat, k: nat)
    requires i <= k <= |chunks| && NoneEmpty(chunks[..k])
    ensures |Concat(chunks[..i])| <= |Concat(chunks[..k])|
    ensures Concat(chunks[..i]) == Concat(chunks[..k])[..|Concat(chunks[..i])|]
    ensures |Concat(chunks[..i])| == |Concat(chunks[..k])| <==> i == k
  {
    if i < k {
      assert chunks[..k][k - 1] == chunks[k - 1];
      assert NoneEmpty(chunks[..k - 1]) by {
        assert forall j :: 0 <= j < k - 1 ==> chunks[..k - 1][j] == chunks[..k][j];
      }
      ConcatPrefix(chunks, i, k - 1);
      NextChunk(chunks, k - 1);
    }
  }

  /** Once the total is right, the second loop reads on exactly to the end of the response. */
  lemma {:induction false} BodyLoopReaches(chunks: seq<string>, i: nat, k: nat)
    requires i <= k <= |chunks| && NoneEmpty(chunks[..k])
    ensures BodyLoop(chunks, i, |Concat(chunks[..k])|) == k
    decreases k - i
  {
    ConcatPrefix(chunks, i, k);
    if i < k {
      assert chunks[..k][i] == chunks[i];
      BodyLoopReaches(chunks, i + 1, k);
    }
  }

  /** After a read that completes the header, the first loop has the total. */
  lemma TotalOfPrefix(r: string, h: nat, c: nat, n: nat)
    requires IsResponse(r, h, c) && h + |TERMINATOR| <= n <= |r|
    requires ValueInHeader(r, h, c) || |r| == h + |TERMINATOR|
    ensures Find(r[..n], TERMINATOR, false) == h && Find(r[..n], CONTENT_LENGTH, true) == c
    ensures Total(LengthAt(r[..n], c), h + |TERMINATOR|) == |r|
  {
    PrefixOfResponse(r, h, c, n);
    if n == |r| {
      assert r[..n] == r;
    }
  }

  lemma {:induction false} HeaderLoopReaches(chunks: seq<string>, i: nat, k: nat, headerEnd: int, h: nat, c: nat)
    requires i < k <= |chunks| && NoneEmpty(chunks[..k]) && IsResponse(Concat(chunks[..k]), h, c)
    requires |Concat(chunks[..i])| < h + |TERMINATOR|
    requires ValueInHeader(Concat(chunks[..k]), h, c) || |Concat(chunks[..k])| == h + |TERMINATOR|
    ensures var (n, total) := HeaderLoop(chunks, i, headerEnd);
            n <= k && total == |Concat(chunks[..k])|
    decreases k - i
  {
    var r := Concat(chunks[..k]);
    var n := |Concat(chunks[..i + 1])|;
    assert chunks[..k][i] == chunks[i];
    ConcatPrefix(chunks, i + 1, k);
    if n < h + |TERMINATOR| {
      PrefixOfResponse(r, h, c, n);
      HeaderLoopReaches(chunks, i + 1, k, -1, h, c);
    } else {
      TotalOfPrefix(r, h, c, n);
    }
  }

  /**
    However the response is cut into non-empty reads, and whatever would be read after it,
    exactly its own reads are made and exactly it is returned, with one zero byte.
   */
  lemma SegmentationIndependence(chunks: seq<string>, k: nat, h: nat, c: nat)
    requires k <= |chunks| && NoneEmpty(chunks[..k]) && IsResponse(Concat(chunks[..k]), h, c)
    requires ValueInHeader(Concat(chunks[..k]), h, c) || |Concat(chunks[..k])| == h + |TERMINATOR|
    ensures Consumed(chunks) == k
  {
    assert chunks[..0] == [];
    assert k > 0;
    HeaderLoopReaches(chunks, 0, k, 0, h, c);
    BodyLoopReaches(chunks, HeaderLoop(chunks, 0, 0).0, k);
  }

  // ---------- Which reads are made ----------

  /** The reads after which at least `n` bytes are there, counting from `i`; all of them if they never are. */
  function ReadsFrom(chunks: seq<string>, i: nat, n: nat): (r: nat)
    requires i <= |chunks|
    ensures i <= r <= |chunks| && (r < |chunks| ==> |Concat(chunks[..r])| >= n)
    decreases |chunks| - i
  {
    if i == |chunks| || |Concat(chunks[..i])| >= n then i else ReadsFrom(chunks, i + 1, n)
  }

  /** How far the stream must be read for both the terminator and the label to be seen. */
  function BothSeen(h: nat, c: nat): nat {
    if h + |TERMINATOR| < c + |CONTENT_LENGTH| then c + |CONTENT_LENGTH| else h + |TERMINATOR|
  }

  /** What is found in the bytes of one more read. */
  lemma FoundSoFar(chunks: seq<string>, i: nat, h: nat, c: nat) returns (n: nat)
    requires i <= |chunks| && NoneEmpty(chunks) && |Concat(chunks[..i])| < BothSeen(h, c)
    requires Find(Concat(chunks), TERMINATOR, false) == h && Find(Concat(chunks), CONTENT_LENGTH, true) == c
    ensures i < |chunks| && n == |Concat(chunks[..i + 1])|
    ensures Find(Concat(chunks[..i + 1]), TERMINATOR, false) == if h + |TERMINATOR| <= n then h else -1
    ensures Find(Concat(chunks[..i + 1]), CONTENT_LENGTH, true) == if c + |CONTENT_LENGTH| <= n then c else -1
  {
    var r := Concat(chunks);
    assert chunks[..|chunks|] == chunks;
    FoundInside(r, TERMINATOR, false);
    FoundInside(r, CONTENT_LENGTH, true);
    assert i < |chunks|;
    n := |Concat(chunks[..i + 1])|;
    ConcatPrefix(chunks, i + 1, |chunks|);
    FindInPrefix(r, TERMINATOR, false, n);
    FindInPrefix(r, CONTENT_LENGTH, true, n);
  }

  /** The first loop stops at the first read that completes both, with the value as far as it has been read. */
  lemma {:induction false} HeaderLoopStops(chunks: seq<string>, i: nat, headerEnd: int, h: nat, c: nat)
    requires i <= |chunks| && NoneEmpty(chunks) && |Concat(chunks[..i])| < BothSeen(h, c)
    requires Find(Concat(chunks), TERMINATOR, false) == h && Find(Concat(chunks), CONTENT_LENGTH, true) == c
    ensures var n := ReadsFrom(chunks, i, BothSeen(h, c));
            && c + |CONTENT_LENGTH| <= |Concat(chunks[..n])|
            && HeaderLoop(chunks, i, headerEnd) == (n, Total(LengthAt(Concat(chunks[..n]), c), h + |TERMINATOR|))
    decreases |chunks| - i
  {
    var n := FoundSoFar(chunks, i, h, c);
    if n < BothSeen(h, c) {
      HeaderLoopStops(chunks, i + 1, -1, h, c);
      HeaderLoopStops(chunks, i + 1, h + |TERMINATOR|, h, c);
    }
  }

  lemma {:induction false} BodyLoopReadsAll(chunks: seq<string>, i: nat, total: nat)
    requires i <= |chunks| && NoneEmpty(chunks)
    ensures BodyLoop(chunks, i, total) == |chunks| <==>
            i == |chunks| || |Concat(chunks[..|chunks| - 1])| < total
    decreases |chunks| - i
  {
    assert chunks[..|chunks|] == chunks;
    if i < |chunks| {
      assert NoneEmpty(chunks[..|chunks| - 1]);
      ConcatPrefix(chunks, i, |chunks| - 1);
      BodyLoopReadsAll(chunks, i + 1, total);
    }
  }

  /**
    For any stream with a terminator and a label anywhere: everything is read to the peer's
    closing exactly when the read that completes both is the last, or what precedes the last
    read is still short of the total.
   */
  lemma ReadsAllIff(chunks: seq<string>, h: nat, c: nat)
    requires NoneEmpty(chunks)
    requires Find(Concat(chunks), TERMINATOR, false) == h && Find(Concat(chunks), CONTENT_LENGTH, true) == c
    ensures var n := ReadsFrom(chunks, 0, BothSeen(h, c));
            && c + |CONTENT_LENGTH| <= |Concat(chunks[..n])|
            && var total := Total(LengthAt(Concat(chunks[..n]), c), h + |TERMINATOR|);
            && (Consumed(chunks) == |chunks| <==> n == |chunks| || |Concat(chunks[..|chunks| - 1])| < total)
            && (|Concat(chunks[..n])| >= total ==> Consumed(chunks) == n)
  {
    assert chunks[..0] == [];
    HeaderLoopStops(chunks, 0, 0, h, c);
    var (n, total) := HeaderLoop(chunks, 0, 0);
    BodyLoopReadsAll(chunks, n, total);
  }

  /** Without a terminator, or without a label, the first loop only ends when the peer closes. */
  lemma {:induction false} NothingFound(chunks: seq<string>, i: nat, headerEnd: int)
    requires i <= |chunks| && NoneEmpty(chunks)
    requires Find(Concat(chunks), TERMINATOR, false) == -1 || Find(Concat(chunks), CONTENT_LENGTH, true) == -1
    ensures HeaderLoop(chunks, i, headerEnd).0 == |chunks|
    decreases |chunks| - i
  {
    if i < |chunks| {
      var r, data := Concat(chunks), Concat(chunks[..i + 1]);
      assert chunks[..|chunks|] == chunks;
      ConcatPrefix(chunks, i + 1, |chunks|);
      if Find(r, CONTENT_LENGTH, true) == -1 {
        NoneInPrefix(r, CONTENT_LENGTH, true, |data|);
      } else {
        NoneInPrefix(r, TERMINATOR, false, |data|);
        FindMeans(data, TERMINATOR, false, 0);
      }
      NothingFound(chunks, i + 1, -1);
      NothingFound(chunks, i + 1, Find(data, TERMINATOR, false) + |TERMINATOR|);
    }
  }

  /** The last read is the first to complete terminator and label. */
  predicate LabelTooLate(chunks: seq<string>, h: nat, c: nat) {
    ReadsFrom(chunks, 0, BothSeen(h, c)) == |chunks|
  }

  /** The value read with the label puts the total beyond what precedes the last read. */
  predicate LabelSaysEnough(chunks: seq<string>, h: nat, c: nat) {
    var data := Concat(chunks[..ReadsFrom(chunks, 0, BothSeen(h, c))]);
    && chunks != [] && c + |CONTENT_LENGTH| <= |data|
    && |Concat(chunks[..|chunks| - 1])| < Total(LengthAt(data, c), h + |TERMINATOR|)
  }

  lemma ReadWholeWithLabel(chunks: seq<string>, h: nat, c: nat)
    requires NoneEmpty(chunks)
    requires Find(Concat(chunks), TERMINATOR, false) == h && Find(Concat(chunks), CONTENT_LENGTH, true) == c
    ensures Consumed(chunks) == |chunks| <==> LabelTooLate(chunks, h, c) || LabelSaysEnough(chunks, h, c)
  {
    ReadsAllIff(chunks, h, c);
  }

  /**
    Any stream at all is read and returned whole exactly when it has no terminator, or no
    label anywhere, or the label is completed too late to stop the reading early, or the
    value read with it is too large to. A label in the body of a response whose header has
    none is taken for the header's.
   */
  lemma ReadWholeIff(chunks: seq<string>)
    requires NoneEmpty(chunks)
    ensures var (h, c) := (Find(Concat(chunks), TERMINATOR, false), Find(Concat(chunks), CONTENT_LENGTH, true));
            Consumed(chunks) == |chunks| <==>
              h < 0 || c < 0 || LabelTooLate(chunks, h, c) || LabelSaysEnough(chunks, h, c)
  {
    var r := Concat(chunks);
    var h, c := Find(r, TERMINATOR, false), Find(r, CONTENT_LENGTH, true);
    FindMeans(r, TERMINATOR, false, 0);
    FindMeans(r, CONTENT_LENGTH, true, 0);
    if h < 0 || c < 0 {
      NothingFound(chunks, 0, 0);
    } else {
      ReadWholeWithLabel(chunks, h, c);
    }
  }

  // ---------- Streams that end early ----------

  lemma ReadsOfPrefix(chunks: seq<string>, i: nat, r: string)
    requires i <= |chunks| && NoneEmpty(chunks) && Concat(chunks) <= r
    ensures |Concat(chunks[..i])| <= |r| && Concat(chunks[..i]) == r[..|Concat(chunks[..i])|]
  {
    assert chunks[..|chunks|] == chunks;
    ConcatPrefix(chunks, i, |chunks|);
  }

  /** What one more read shows of a response. */
  lemma SeenOfPrefix(chunks: seq<string>, i: nat, r: string, h: nat, c: nat)
    requires i < |chunks| && NoneEmpty(chunks) && IsResponse(r, h, c) && Concat(chunks) <= r
    requires ValueInHeader(r, h, c) || |r| == h + |TERMINATOR|
    ensures var data := Concat(chunks[..i + 1]);
            if Find(data, TERMINATOR, false) < 0 then |data| < h + |TERMINATOR|
            else
              && Find(data, TERMINATOR, false) == h && Find(data, CONTENT_LENGTH, true) == c
              && c + |CONTENT_LENGTH| <= |data| && Total(LengthAt(data, c), h + |TERMINATOR|) == |r|
  {
    ReadsOfPrefix(chunks, i + 1, r);
    var n := |Concat(chunks[..i + 1])|;
    if n < h + |TERMINATOR| {
      PrefixOfResponse(r, h, c, n);
    } else {
      TotalOfPrefix(r, h, c, n);
    }
  }

  lemma {:induction false} HeaderLoopOfPrefix(chunks: seq<string>, i: nat, headerEnd: int, r: string, h: nat, c: nat)
    requires i <= |chunks| && NoneEmpty(chunks) && IsResponse(r, h, c) && Concat(chunks) <= r
    requires ValueInHeader(r, h, c) || |r| == h + |TERMINATOR|
    ensures var (n, total) := HeaderLoop(chunks, i, headerEnd); n == |chunks| || total == |r|
    decreases |chunks| - i
  {
    if i < |chunks| {
      SeenOfPrefix(chunks, i, r, h, c);
      HeaderLoopOfPrefix(chunks, i + 1, -1, r, h, c);
    }
  }

  /**
    When the peer closes after any part of a response, however that part is cut, exactly
    what was sent is returned, with one zero byte.
   */
  lemma PrefixReadWhole(chunks: seq<string>, r: string, h: nat, c: nat)
    requires NoneEmpty(chunks) && Concat(chunks) <= r && IsResponse(r, h, c)
    requires ValueInHeader(r, h, c) || |r| == h + |TERMINATOR|
    ensures Consumed(chunks) == |chunks|
  {
    assert chunks[..|chunks|] == chunks && chunks[..0] == [];
    HeaderLoopOfPrefix(chunks, 0, 0, r, h, c);
    var (n, total) := HeaderLoop(chunks, 0, 0);
    if n < |chunks| {
      ConcatPrefix(chunks, |chunks| - 1, |chunks|);
      BodyLoopReadsAll(chunks, n, total);
    }
  }

  lemma BlankLength(r: string, h: nat, c: nat)
    requires IsResponse(r, h, c) && !ValueInHeader(r, h, c)
    ensures LengthAt(r[..h + |TERMINATOR|], c) == 0
  {
    var e := h + |TERMINATOR|;
    assert r[..e][c + |CONTENT_LENGTH|..] == r[c + |CONTENT_LENGTH|..e];
    AllSpaceIsZero(r[c + |CONTENT_LENGTH|..e]);
  }

  /** A response cut in two. */
  lemma TwoReads(r: string, e: nat)
    requires e <= |r|
    ensures var chunks := [r[..e], r[e..]];
            Concat(chunks[..1]) == r[..e] && Concat(chunks) == r
  {
  }

  /** Cutting right after the header loses the body when the value is only white space. */
  lemma BlankValueLosesBody(r: string, h: nat, c: nat)
    requires IsResponse(r, h, c) && !ValueInHeader(r, h, c) && |r| > h + |TERMINATOR|
    ensures var e := h + |TERMINATOR|; Consumed([r[..e], r[e..]]) == 1
  {
    var e := h + |TERMINATOR|;
    var chunks := [r[..e], r[e..]];
    TwoReads(r, e);
    PrefixOfResponse(r, h, c, e);
    BlankLength(r, h, c);
    StopsAfterFirst(chunks, h, c);
  }

  lemma StopsAfterFirst(chunks: seq<string>, h: nat, c: nat)
    requires |chunks| > 0 && chunks[0] != "" && h < 0x8000_0000
    requires var data := Concat(chunks[..1]);
             && Find(data, TERMINATOR, false) == h && Find(data, CONTENT_LENGTH, true) == c
             && c + |CONTENT_LENGTH| <= |data| == h + |TERMINATOR| && LengthAt(data, c) == 0
    ensures Consumed(chunks) == 1
  {
  }

  ghost predicate AnyCutFramed(r: string) {
    forall chunks :: CutFramed(chunks, r)
  }

  ghost predicate CutFramed(chunks: seq<string>, r: string) {
    NoneEmpty(chunks) && Concat(chunks) == r ==> Consumed(chunks) == |chunks|
  }

  lemma FailsOn(r: string, chunks: seq<string>)
    requires NoneEmpty(chunks) && Concat(chunks) == r && Consumed(chunks) != |chunks|
    ensures !AnyCutFramed(r)
  {
    assert !CutFramed(chunks, r);
  }

  lemma SomeCutFails(r: string, h: nat, c: nat)
    requires IsResponse(r, h, c) && !ValueInHeader(r, h, c) && |r| > h + |TERMINATOR|
    ensures !AnyCutFramed(r)
  {
    var e := h + |TERMINATOR|;
    BlankValueLosesBody(r, h, c);
    TwoReads(r, e);
    FailsOn(r, [r[..e], r[e..]]);
  }

  /** Framing is independent of the segmentation exactly when the value is in the header, or there is no body. */
  lemma SegmentationIff(r: string, h: nat, c: nat)
    requires IsResponse(r, h, c)
    ensures AnyCutFramed(r) <==> ValueInHeader(r, h, c) || |r| == h + |TERMINATOR|
  {
    if ValueInHeader(r, h, c) || |r| == h + |TERMINATOR| {
      forall chunks
        ensures CutFramed(chunks, r)
      {
        if NoneEmpty(chunks) && Concat(chunks) == r {
          assert chunks[..|chunks|] == chunks;
          SegmentationIndependence(chunks, |chunks|, h, c);
        }
      }
    } else {
      SomeCutFails(r, h, c);
    }
  }

  const BLANK := "Content-Length: \r\n\r\n1"

  lemma BlankFound()
    ensures Find(BLANK, CONTENT_LENGTH, true) == 0 && Find(BLANK, TERMINATOR, false) == 16
  {
    assert MatchesAt(BLANK, CONTENT_LENGTH, true, 0);
    FindMeans(BLANK, CONTENT_LENGTH, true, 0);
    assert MatchesAt(BLANK, TERMINATOR, false, 16);
    forall k | 0 <= k < 16
      ensures !MatchesAt(BLANK, TERMINATOR, false, k)
    {
      assert BLANK[k + 0] == CONTENT_LENGTH[k];
      assert MatchesAt(BLANK, TERMINATOR, false, k) ==> Same(BLANK[k + 0], TERMINATOR[0], false);
      LabelHasNoBreaks(k);
    }
    FindMeans(BLANK, TERMINATOR, false, 16);
  }

  lemma BlankParsed()
    ensures ToInt(Strtol("\r\n\r\n1")) == 1
  {
  }

  lemma BlankIsResponse()
    ensures IsResponse(BLANK, 16, 0)
  {
    BlankFound();
    BlankParsed();
    assert BLANK[0 + |CONTENT_LENGTH|..] == "\r\n\r\n1";
  }

  lemma BlankHasNoValue()
    ensures |BLANK| == 21 && !ValueInHeader(BLANK, 16, 0)
  {
  }

  /** A response with a blank value exists: its body starts with the digits its header lacks. */
  lemma BlankValueExists()
    ensures IsResponse(BLANK, 16, 0) && !AnyCutFramed(BLANK)
  {
    BlankIsResponse();
    BlankHasNoValue();
    SomeCutFails(BLANK, 16, 0);
  }

  lemma LabelledFound(r: string)
    requires r == "Content-Length: 1\r\n\r\nX"
    ensures Find(r, CONTENT_LENGTH, true) == 0 && Find(r, TERMINATOR, false) == 17
  {
    assert MatchesAt(r, CONTENT_LENGTH, true, 0);
    FindMeans(r, CONTENT_LENGTH, true, 0);
    assert MatchesAt(r, TERMINATOR, false, 17);
    forall k | 0 <= k < 17
      ensures !MatchesAt(r, TERMINATOR, false, k)
    {
      assert r[k + 0] != TERMINATOR[0];
      assert MatchesAt(r, TERMINATOR, false, k) ==> Same(r[k + 0], TERMINATOR[0], false);
    }
    FindMeans(r, TERMINATOR, false, 17);
  }

  lemma LabelledIsResponse(r: string)
    requires r == "Content-Length: 1\r\n\r\nX"
    ensures IsResponse(r, 17, 0) && ValueInHeader(r, 17, 0)
  {
    LabelledFound(r);
    assert r[16..] == "" + ("" + ("1" + "\r\n\r\nX"));
    StrtolMeans("", "", "1", "\r\n\r\nX");
    assert PlaceValue("1") == 1 * Pow10(0) + PlaceValue("");
    assert r[16..21][0] == '1';
  }

  lemma TwoChunks(a: string, b: string, later: seq<string>)
    ensures var chunks := [a, b] + later; |chunks| >= 2 && chunks[..2] == [a, b] && Concat(chunks[..2]) == a + b
  {
    assert ([a, b] + later)[..2] == [a, b] && [a, b][..1] == [a] && [a][..0] == [];
    assert Concat([a]) == a;
  }

  lemma TwoRead(a: string, b: string, later: seq<string>, h: nat, c: nat)
    requires a != "" && b != "" && IsResponse(a + b, h, c) && ValueInHeader(a + b, h, c)
    ensures Consumed([a, b] + later) == 2
  {
    TwoChunks(a, b, later);
    SegmentationIndependence([a, b] + later, 2, h, c);
  }

  lemma LabelledRead(first: string, later: seq<string>)
    requires first == "Content-Length: 1\r\n\r\n"
    ensures Consumed([first, "X"] + later) == 2
  {
    assert first + "X" == "Content-Length: 1\r\n\r\nX";
    LabelledIsResponse(first + "X");
    TwoRead(first, "X", later, 17, 0);
  }

  /** A label in small letters is found: the reading stops after the one byte announced, whatever follows. */
  lemma SmallLettersFound(later: seq<string>)
    ensures Consumed(["content-length: 1\r\n\r\n", "X"] + later) == 2
  {
    var first, small := "Content-Length: 1\r\n\r\n", "content-length: 1\r\n\r\n";
    assert Respelled(first, small);
    LabelledRead(first, later);
    SpellingNeverMatters([first, "X"] + later, [small, "X"] + later);
  }
}
