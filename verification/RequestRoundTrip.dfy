/** Printing a request and parsing it gives the request back (sections 3 and 5.4 of RFC 7230). */
module RequestRoundTrip {
  import opened Words
  import opened CStrings
  import opened Requests

  datatype Header = Header(name: string, blanks: string, value: string)

  /** What a header needs for the parser to find its name and value again. */
  predicate ValidHeader(h: Header) {
    && ':' !in h.name && (forall c | c in h.blanks :: IsBlank(c))
    && '\r' !in h.value && '\0' !in h.value && (h.value == "" || !IsBlank(h.value[0]))
  }

  function PrintHeader(h: Header): string {
    h.name + ":" + h.blanks + h.value + CRLF
  }

  function PrintHeaders(hs: seq<Header>): string {
    if hs == [] then "" else PrintHeader(hs[0]) + PrintHeaders(hs[1..])
  }

  function PrintLine(verb: string, url: string, proto: string): string {
    verb + " " + url + " " + proto
  }

  function PrintRequest(verb: string, url: string, proto: string, hs: seq<Header>): string {
    PrintLine(verb, url, proto) + CRLF + PrintHeaders(hs) + CRLF
  }

  predicate Recognised(h: Header, key: string) {
    h.value != "" && HasPrefix(h.name, key)
  }

  /** The value of the last header that is taken for `key`. */
  function LastValue(hs: seq<Header>, key: string): Option<string> {
    if hs == [] then None
    else if Recognised(hs[|hs| - 1], key) then Some(hs[|hs| - 1].value)
    else LastValue(hs[..|hs| - 1], key)
  }

  /** What the last Connection header with a known value says. */
  function LastConnection(hs: seq<Header>): Connection {
    if hs == [] then Unset
    else
      var h := hs[|hs| - 1];
      if Recognised(h, CONNECTION_KEY) && HasPrefix(h.value, "keep-alive") then KeepAlive
      else if Recognised(h, CONNECTION_KEY) && HasPrefix(h.value, "close") then Close
      else LastConnection(hs[..|hs| - 1])
  }

  /** `t` stands at position `from` of `s`. */
  predicate Stands(s: seq<char>, from: nat, t: seq<char>) {
    from + |t| <= |s| && forall i | 0 <= i < |t| :: s[from + i] == t[i]
  }

  lemma StandsSplit(s: seq<char>, from: nat, t: seq<char>, u: seq<char>)
    requires Stands(s, from, t + u)
    ensures Stands(s, from, t) && Stands(s, from + |t|, u)
  {
    forall i | 0 <= i < |t|
      ensures s[from + i] == t[i]
    {
      assert (t + u)[i] == t[i];
    }
    forall i | 0 <= i < |u|
      ensures s[from + |t| + i] == u[i]
    {
      assert s[from + (|t| + i)] == (t + u)[|t| + i] == u[i];
    }
  }

  lemma StandsSlice(s: seq<char>, from: nat, t: seq<char>)
    requires Stands(s, from, t)
    ensures s[from..from + |t|] == t
  {
  }

  lemma StandsLacks(s: seq<char>, from: nat, t: seq<char>, c: char)
    requires Stands(s, from, t) && c !in t
    ensures Lacks(s, c, from, from + |t|)
  {
    forall j | from <= j < from + |t|
      ensures s[j] != c
    {
      assert s[from + (j - from)] == t[j - from];
    }
  }

  /** A line's name decides what it is taken for: the keys have no colon. */
  lemma PrefixOfName(name: seq<char>, rest: seq<char>, key: seq<char>)
    requires ':' !in key
    ensures HasPrefix(name + (":" + rest), key) <==> HasPrefix(name, key)
  {
    var line := name + (":" + rest);
    assert forall i | 0 <= i < |name| :: line[i] == name[i];
    assert line[|name|] == ':';
    if |key| > |name| {
      assert key[|name|] in key;
    }
  }

  function ApplyHeader(o: Options, h: Header): Options {
    Apply(o, h.name + (":" + (h.blanks + h.value)), h.value)
  }

  function ApplyHeaders(o: Options, hs: seq<Header>): Options
    decreases |hs|
  {
    if hs == [] then o else ApplyHeader(ApplyHeaders(o, hs[..|hs| - 1]), hs[|hs| - 1])
  }

  lemma StandsAt(s: seq<char>, from: nat, t: seq<char>, i: nat)
    requires Stands(s, from, t) && i < |t|
    ensures from + i < |s| && s[from + i] == t[i]
  {
  }

  /** The parts of a printed header, where the parser looks for them. */
  lemma HeaderParts(s: seq<char>, from: nat, h: Header)
    requires Stands(s, from, PrintHeader(h))
    ensures var p := from + |h.name|;
            var q := p + 1 + |h.blanks| + |h.value|;
            && Stands(s, from, h.name) && Stands(s, p + 1, h.blanks) && Stands(s, p + 1 + |h.blanks|, h.value)
            && Stands(s, from, h.name + ":" + h.blanks + h.value)
            && p < |s| && s[p] == ':' && CrlfAt(s, q) && from + |PrintHeader(h)| == q + 2
  {
    hide Stands;
    StandsSplit(s, from, h.name + ":" + h.blanks + h.value, CRLF);
    StandsSplit(s, from, h.name + ":" + h.blanks, h.value);
    StandsSplit(s, from, h.name + ":", h.blanks);
    StandsSplit(s, from, h.name, ":");
    StandsAt(s, from + |h.name|, ":", 0);
    StandsAt(s, from + |h.name| + 1 + |h.blanks| + |h.value|, CRLF, 0);
    StandsAt(s, from + |h.name| + 1 + |h.blanks| + |h.value|, CRLF, 1);
  }

  /** Reading one printed header applies it and goes on behind it. */
  lemma ReadHeader(s: seq<char>, from: nat, h: Header, o: Options)
    requires ValidHeader(h) && Stands(s, from, PrintHeader(h))
    ensures from + |PrintHeader(h)| <= |s|
    ensures ReadOptions(s, from, o) == ReadOptions(s, from + |PrintHeader(h)|, ApplyHeader(o, h))
  {
    hide Apply, HasPrefix, Stands, PrintHeader, Lacks, ReadOptions, SkipBlanks, IndexOf;
    HeaderParts(s, from, h);
    var p := from + |h.name|;
    var q := p + 1 + |h.blanks| + |h.value|;
    StandsLacks(s, from, h.name, ':');
    IndexOfIs(s, ':', from, p);
    HeaderValue(s, p + 1, h);
    IndexOfIs(s, '\r', p + 1, q);
    SkipBlanksOf(h.blanks, h.value);
    HeaderLine(s, from, h);
    ReadOptionsStep(s, from, p, q, o);
  }

  /** One line of the options, when its colon and its CR are known. */
  lemma ReadOptionsStep(s: seq<char>, from: nat, p: nat, q: nat, o: Options)
    requires from <= p < q < |s| && IndexOf(s, ':', from) == p && IndexOf(s, '\r', p + 1) == q && CrlfAt(s, q)
    ensures ReadOptions(s, from, o) == ReadOptions(s, q + 2, Apply(o, s[from..q], SkipBlanks(s[p + 1..q])))
  {
    hide Apply, SkipBlanks, IndexOf;
  }

  lemma HeaderValue(s: seq<char>, from: nat, h: Header)
    requires Stands(s, from, h.blanks) && Stands(s, from + |h.blanks|, h.value) && ValidHeader(h)
    ensures Lacks(s, '\r', from, from + |h.blanks| + |h.value|)
    ensures s[from..from + |h.blanks| + |h.value|] == h.blanks + h.value
  {
    StandsLacks(s, from, h.blanks, '\r');
    StandsLacks(s, from + |h.blanks|, h.value, '\r');
    StandsSlice(s, from, h.blanks);
    StandsSlice(s, from + |h.blanks|, h.value);
  }

  lemma HeaderLine(s: seq<char>, from: nat, h: Header)
    requires Stands(s, from, h.name + ":" + h.blanks + h.value)
    ensures var line := h.name + (":" + (h.blanks + h.value));
            from + |line| <= |s| && s[from..from + |line|] == line
  {
    var line := h.name + ":" + h.blanks + h.value;
    StandsSlice(s, from, line);
    assert line == h.name + (":" + (h.blanks + h.value));
  }

  lemma ApplyOneMore(o: Options, done: seq<Header>, hs: seq<Header>)
    requires hs != []
    ensures ApplyHeaders(o, done + [hs[0]]) == ApplyHeader(ApplyHeaders(o, done), hs[0])
    ensures (done + [hs[0]]) + hs[1..] == done + hs
  {
    hide ApplyHeader;
    var more := done + [hs[0]];
    assert more[..|done|] == done && more[|done|] == hs[0];
  }

  lemma StandsIn(s: seq<char>, from: nat, t: seq<char>)
    requires Stands(s, from, t)
    ensures from + |t| <= |s|
  {
  }

  lemma {:induction false} ReadHeaders(s: seq<char>, from: nat, done: seq<Header>, hs: seq<Header>, o: Options)
    requires (forall h | h in hs :: ValidHeader(h)) && Stands(s, from, PrintHeaders(hs))
    ensures from + |PrintHeaders(hs)| <= |s|
    ensures ReadOptions(s, from, ApplyHeaders(o, done)) ==
              ReadOptions(s, from + |PrintHeaders(hs)|, ApplyHeaders(o, done + hs))
    decreases |hs|
  {
    hide Stands, PrintHeader, ReadOptions, ApplyHeader, ApplyHeaders, ValidHeader;
    StandsIn(s, from, PrintHeaders(hs));
    if hs == [] {
      assert done + hs == done;
    } else {
      StandsSplit(s, from, PrintHeader(hs[0]), PrintHeaders(hs[1..]));
      ReadHeader(s, from, hs[0], ApplyHeaders(o, done));
      ApplyOneMore(o, done, hs);
      ReadHeaders(s, from + |PrintHeader(hs[0])|, done + [hs[0]], hs[1..], o);
    }
  }

  /** Applying the headers in order leaves what the last of each kind says. */
  lemma {:induction false} LastWins(hs: seq<Header>)
    requires forall h | h in hs :: ValidHeader(h)
    ensures ApplyHeaders(Options(Unset, None, None), hs)
         == Options(LastConnection(hs), LastValue(hs, "Host"), LastValue(hs, "Range"))
  {
    if hs != [] {
      var h := hs[|hs| - 1];
      LastWins(hs[..|hs| - 1]);
      assert h in hs;
      PrefixOfName(h.name, h.blanks + h.value, CONNECTION_KEY);
      PrefixOfName(h.name, h.blanks + h.value, "Host");
      PrefixOfName(h.name, h.blanks + h.value, "Range");
      CStringOfWhole(h.value);
      OneKey(h.name);
    }
  }

  /** No name is taken for two keys: their first letters differ. */
  lemma OneKey(name: string)
    ensures !(HasPrefix(name, CONNECTION_KEY) && HasPrefix(name, "Host"))
    ensures !(HasPrefix(name, CONNECTION_KEY) && HasPrefix(name, "Range"))
    ensures !(HasPrefix(name, "Host") && HasPrefix(name, "Range"))
  {
    assert Lower(CONNECTION_KEY[0]) == 'c' && Lower("Host"[0]) == 'h' && Lower("Range"[0]) == 'r';
  }

  /** A request line without blanks, CRs or NULs in its words is split into them again. */
  lemma SplitPrintedLine(verb: string, url: string, proto: string)
    requires ' ' !in verb && ' ' !in url && ' ' !in proto
    ensures SplitLine(PrintLine(verb, url, proto)) == Some(RequestLine(verb, url, proto))
  {
    hide SplitLine;
    SplitWords(PrintLine(verb, url, proto), verb, url, proto);
  }

  lemma SplitWords(line: string, verb: string, url: string, proto: string)
    requires line == verb + " " + url + " " + proto
    requires ' ' !in verb && ' ' !in url && ' ' !in proto
    ensures SplitLine(line) == Some(RequestLine(verb, url, proto))
  {
    hide *;
    var a := |verb|;
    var b := a + 1 + |url|;
    var front := verb + " " + url;
    CutAtBlank(line, front, proto);
    CutAtBlank(front, verb, url);
    assert line[..a] == front[..a] && line[a + 1..b] == front[a + 1..];
    BlankAfter(line, 0, verb);
    BlankAfter(line, a + 1, url);
    LacksIn(line, ' ', b + 1, proto);
    IndexOfIs(line, ' ', b + 1, |line|);
    SplitLineIs(line, a, b);
  }

  lemma CutAtBlank(s: seq<char>, front: seq<char>, rest: seq<char>)
    requires s == front + " " + rest
    ensures |s| == |front| + 1 + |rest|
    ensures s[..|front|] == front && s[|front|] == ' ' && s[|front| + 1..] == rest
  {
  }

  lemma LacksIn(s: seq<char>, c: char, from: nat, word: seq<char>)
    requires from + |word| <= |s| && s[from..from + |word|] == word && c !in word
    ensures Lacks(s, c, from, from + |word|)
  {
    forall j | from <= j < from + |word|
      ensures s[j] != c
    {
      assert word[j - from] == s[j];
    }
  }

  /** The first blank at or after a word is the one behind it. */
  lemma BlankAfter(s: seq<char>, from: nat, word: seq<char>)
    requires from + |word| < |s| && s[from..from + |word|] == word && ' ' !in word && s[from + |word|] == ' '
    ensures IndexOf(s, ' ', from) == from + |word|
  {
    hide Lacks;
    LacksIn(s, ' ', from, word);
    IndexOfIs(s, ' ', from, from + |word|);
  }

  lemma SplitLineIs(line: string, a: nat, b: nat)
    requires a < b < |line| && IndexOf(line, ' ', 0) == a && IndexOf(line, ' ', a + 1) == b
    requires IndexOf(line, ' ', b + 1) == |line|
    ensures SplitLine(line) == Some(RequestLine(line[..a], line[a + 1..b], line[b + 1..]))
  {
  }

  lemma StandsWhole(s: seq<char>)
    ensures Stands(s, 0, s)
  {
  }

  /** No CR LF is on the line; a CR alone may be. */
  ghost predicate OneLine(line: seq<char>) {
    forall i: nat :: !CrlfAt(line, i)
  }

  /** The first CR LF of a text that starts with a line ends that line. */
  lemma LineEnds(line: seq<char>, rest: seq<char>)
    requires OneLine(line)
    ensures FirstCrlf(line + CRLF + rest, 0) == |line|
  {
    var s := line + CRLF + rest;
    assert CrlfAt(s, |line|);
    forall j | 0 <= j < |line|
      ensures !CrlfAt(s, j)
    {
      assert s[j] == line[j] && (j + 1 < |line| ==> s[j + 1] == line[j + 1]);
      assert !CrlfAt(line, j);
    }
  }

  /** A URL without CR LF leaves the request line without one. */
  lemma PrintedOnOneLine(verb: string, url: string, proto: string)
    requires '\r' !in verb && OneLine(url) && '\r' !in proto
    ensures OneLine(PrintLine(verb, url, proto))
  {
    var line, n := PrintLine(verb, url, proto), |verb| + 1;
    forall i: nat
      ensures !CrlfAt(line, i)
    {
      if i < |verb| {
        assert line[i] == verb[i];
      } else if n <= i && i + 1 < n + |url| {
        assert line[i] == url[i - n] && line[i + 1] == url[i - n + 1];
        assert !CrlfAt(url, i - n);
      } else if n + |url| < i < |line| {
        assert line[i] == proto[i - n - |url| - 1];
      }
    }
  }

  /** strtol() takes all of a row of digits. */
  lemma StrtolOfDigits(s: string)
    requires s != "" && forall i | 0 <= i < |s| :: IsDigit(s[i])
    ensures Strtol(s) == (Min(Number(s), LONG_MAX), |s|)
  {
    assert IsDigit(s[0]) && SkipSpace(s) == 0 && s[0..] == s;
    AllDigits(s);
    assert s[..|s|] == s;
  }

  lemma {:induction false} AllDigits(s: string)
    requires forall i | 0 <= i < |s| :: IsDigit(s[i])
    ensures DigitRun(s) == |s|
  {
    if s != "" {
      AllDigits(s[1..]);
    }
  }

  /**
   A version of two numbers is accepted when they are 1 and 1, or 1 and 0, as far as 32 bits tell: HTTP/2.0
   is refused, and HTTP/01.1 is not.
   */
  lemma VersionOfNumbers(major: string, minor: string, support11: bool)
    requires major != "" && forall i | 0 <= i < |major| :: IsDigit(major[i])
    requires minor != "" && forall i | 0 <= i < |minor| :: IsDigit(minor[i])
    ensures ReadVersion("HTTP/" + major + "." + minor, support11) ==
              (var a, b := ToInt32(Min(Number(major), LONG_MAX)), ToInt32(Min(Number(minor), LONG_MAX));
               if a == 1 && b == 1 then Some(if support11 then Http11 else Http10)
               else if a == 1 && b == 0 then Some(Http10)
               else None)
  {
    hide Strtol, ToInt32, Number;
    var proto := "HTTP/" + major + "." + minor;
    VersionWord(proto, major, minor);
    StrtolOfDigits(major);
    StrtolOfDigits(minor);
  }

  lemma VersionWord(proto: string, major: string, minor: string)
    requires major != "" && forall i | 0 <= i < |major| :: IsDigit(major[i])
    requires minor != "" && forall i | 0 <= i < |minor| :: IsDigit(minor[i])
    requires proto == "HTTP/" + major + "." + minor
    ensures CString(proto) == proto && |proto| >= 5 && proto[..5] == "HTTP/"
    ensures var number := proto[5..];
            && IndexOf(number, '.', 0) == |major| && |number| == |major| + 1 + |minor|
            && number[..|major|] == major && number[|major| + 1..] == minor
  {
    forall i | 0 <= i < |proto|
      ensures proto[i] != '\0'
    {
      if 5 <= i < 5 + |major| {
        assert proto[i] == major[i - 5];
      } else if 6 + |major| <= i {
        assert proto[i] == minor[i - 6 - |major|];
      }
    }
    CStringOfWhole(proto);
    var number := proto[5..];
    assert number == major + "." + minor;
    assert forall i | 0 <= i < |major| :: number[i] == major[i];
    IndexOfIs(number, '.', 0, |major|);
  }

  /** Another protocol word is refused. */
  lemma OtherProtocol(proto: string, support11: bool)
    requires !("HTTP/" <= proto)
    ensures ReadVersion(proto, support11).None?
  {
    var p := CString(proto);
    if |p| >= 5 && p[..5] == "HTTP/" {
      assert p <= proto;
    }
  }

  /** A request with a version that is refused is answered 400, whatever its headers say. */
  lemma VersionRefused(verb: string, url: string, proto: string, hs: seq<Header>, support11: bool)
    requires verb == "GET" || verb == "POST"
    requires ' ' !in url && '\0' !in url && OneLine(url) && ' ' !in proto && '\r' !in proto
    requires ReadVersion(proto, support11).None?
    ensures var p := Parse(PrintRequest(verb, url, proto, hs), support11, Unset);
            !p.ok && p.status == 400 && !p.keepAlive && p.version == VersionUnset
  {
    hide ReadVersion, ReadOptions, SplitLine, FirstCrlf, PrintHeaders;
    var line := PrintLine(verb, url, proto);
    var rest := PrintHeaders(hs) + CRLF;
    assert PrintRequest(verb, url, proto, hs) == line + CRLF + rest;
    PrintedOnOneLine(verb, url, proto);
    LineEnds(line, rest);
    assert (line + CRLF + rest)[..|line|] == line;
    SplitPrintedLine(verb, url, proto);
    CStringOfWhole(verb);
  }

  /** A CR in a header's value that no LF follows makes the request one to refuse, whatever comes behind. */
  lemma BareCrRefused(verb: string, url: string, proto: string, hs: seq<Header>, name: string, value: string,
                      rest: string, support11: bool)
    requires verb == "GET" || verb == "POST"
    requires proto == "HTTP/1.0" || proto == "HTTP/1.1"
    requires ' ' !in url && '\0' !in url && OneLine(url) && forall h | h in hs :: ValidHeader(h)
    requires ':' !in name && '\r' !in value && (rest == "" || rest[0] != '\n')
    ensures var s := PrintLine(verb, url, proto) + CRLF + (PrintHeaders(hs) + (name + ":" + value + "\r" + rest));
            var p := Parse(s, support11, Unset);
            !p.ok && p.status == 400 && !p.keepAlive
  {
    hide ReadVersion, ReadOptions, SplitLine, FirstCrlf, PrintHeaders, ValidHeader, Stands, ApplyHeaders;
    var line, last := PrintLine(verb, url, proto), name + ":" + value + "\r" + rest;
    var s := line + CRLF + (PrintHeaders(hs) + last);
    PrintedOnOneLine(verb, url, proto);
    LineEnds(line, PrintHeaders(hs) + last);
    assert s[..|line|] == line;
    SplitPrintedLine(verb, url, proto);
    CStringOfWhole(verb);
    PlainVersions(support11);
    BareCrStops(line, hs, last, name, value, rest);
  }

  lemma BareCrStops(line: string, hs: seq<Header>, last: string, name: string, value: string, rest: string)
    requires last == name + ":" + value + "\r" + rest && forall h | h in hs :: ValidHeader(h)
    requires ':' !in name && '\r' !in value && (rest == "" || rest[0] != '\n')
    ensures !ReadOptions(line + CRLF + (PrintHeaders(hs) + last), |line| + 2, Options(Unset, None, None)).0
  {
    hide Stands, PrintHeaders, ApplyHeaders, ValidHeader, ReadOptions, Lacks, IndexOf;
    var none := Options(Unset, None, None);
    var s := line + CRLF + (PrintHeaders(hs) + last);
    StandsWhole(s);
    StandsSplit(s, 0, line + CRLF, PrintHeaders(hs) + last);
    StandsSplit(s, |line| + 2, PrintHeaders(hs), last);
    ApplyNone(none);
    assert [] + hs == hs;
    ReadHeaders(s, |line| + 2, [], hs, none);
    var from := |line| + 2 + |PrintHeaders(hs)|;
    StandsSlice(s, from, last);
    assert from + |last| == |s|;
    BareCrAt(s, from, name, value, rest, ApplyHeaders(none, hs));
  }

  lemma BareCrAt(s: string, from: nat, name: string, value: string, rest: string, o: Options)
    requires from <= |s| && s[from..] == name + ":" + value + "\r" + rest
    requires ':' !in name && '\r' !in value && (rest == "" || rest[0] != '\n')
    ensures ReadOptions(s, from, o) == (false, o)
  {
    var p := from + |name|;
    var q := p + 1 + |value|;
    var t := name + ":" + value + "\r" + rest;
    assert forall i | 0 <= i < |t| :: s[from + i] == t[i];
    forall j | from <= j < p
      ensures s[j] != ':'
    {
      assert s[from + (j - from)] == name[j - from];
    }
    IndexOfIs(s, ':', from, p);
    forall j | p + 1 <= j < q
      ensures s[j] != '\r'
    {
      assert s[from + (j - from)] == value[j - p - 1];
    }
    IndexOfIs(s, '\r', p + 1, q);
    assert q + 1 < |s| ==> s[from + (q + 1 - from)] == rest[0];
  }

  /** A request line is split exactly into three words without blanks. */
  lemma SplitLineWhen(line: string, words: RequestLine)
    ensures SplitLine(line) == Some(words) <==>
              && line == words.verb + " " + words.url + " " + words.proto
              && ' ' !in words.verb && ' ' !in words.url && ' ' !in words.proto
  {
    if SplitLine(line) == Some(words) {
      var a := IndexOf(line, ' ', 0);
      var b := IndexOf(line, ' ', a + 1);
      assert line == line[..a] + [line[a]] + line[a + 1..b] + [line[b]] + line[b + 1..];
    } else if line == words.verb + " " + words.url + " " + words.proto
              && ' ' !in words.verb && ' ' !in words.url && ' ' !in words.proto {
      SplitPrintedLine(words.verb, words.url, words.proto);
    }
  }

  /** The two protocol words that the server accepts as they are usually written. */
  lemma PlainVersions(support11: bool)
    ensures ReadVersion("HTTP/1.1", support11) == Some(if support11 then Http11 else Http10)
    ensures ReadVersion("HTTP/1.0", support11) == Some(Http10)
  {
    PlainVersion("HTTP/1.1", "1", 1);
    PlainVersion("HTTP/1.0", "0", 0);
  }

  lemma PlainVersion(proto: string, minor: string, value: nat)
    requires proto == "HTTP/1." + minor && |minor| == 1 && '0' <= minor[0] <= '9'
    requires value == minor[0] as int - '0' as int
    ensures CString(proto) == proto && proto[..5] == "HTTP/" && IndexOf(proto[5..], '.', 0) == 1
    ensures Strtol(proto[5..][..1]) == (1, 1) && Strtol(proto[5..][2..]) == (value, 1)
  {
    CStringOfWhole(proto);
    assert proto[5..] == "1." + minor;
    IndexOfIs(proto[5..], '.', 0, 1);
    OneDigit("1");
    OneDigit(minor);
    assert proto[5..][..1] == "1" && proto[5..][2..] == minor;
  }

  lemma OneDigit(s: string)
    requires |s| == 1 && IsDigit(s[0])
    ensures Strtol(s) == (s[0] as int - '0' as int, 1)
  {
    assert SkipSpace(s) == 0 && s[0..] == s;
    assert DigitRun(s) == 1 + DigitRun(s[1..]);
    assert s[0..0 + 1] == s && Number(s[..0]) == 0;
  }

  /**
   The round trip: a printed GET or POST request comes back as its method, URL and version, the
   last Host and Range values without their leading blanks, and the last known Connection value.
   HTTP/1.1 asks for a Host, and keeps the connection alive unless it was told to close it.
   */
  lemma RequestRoundTrips(verb: string, url: string, proto: string, hs: seq<Header>, support11: bool)
    requires verb == "GET" || verb == "POST"
    requires proto == "HTTP/1.0" || proto == "HTTP/1.1"
    requires ' ' !in url && '\0' !in url && OneLine(url)
    requires forall h | h in hs :: ValidHeader(h)
    ensures var v := if proto == "HTTP/1.1" && support11 then Http11 else Http10;
            var host, connection := LastValue(hs, "Host"), LastConnection(hs);
            var ok := v == Http10 || host.Some?;
            var keepAlive := ok && (if v == Http11 then connection != Close else connection == KeepAlive);
            var o := Options(connection, host, LastValue(hs, "Range"));
            var p := Parse(PrintRequest(verb, url, proto, hs), support11, Unset);
            p == Parsed(ok, if ok then 0 else 400, keepAlive, Some(verb), Some(url), v, o)
  {
    hide ReadVersion, ReadOptions, SplitLine, FirstCrlf, Stands, PrintHeaders, LastValue, LastConnection;
    hide ApplyHeaders, ValidHeader;
    var line, none := PrintLine(verb, url, proto), Options(Unset, None, None);
    var s := PrintRequest(verb, url, proto, hs);
    var rest := PrintHeaders(hs) + CRLF;
    assert s == line + CRLF + rest;
    PrintedOnOneLine(verb, url, proto);
    LineEnds(line, rest);
    assert s[..|line|] == line;
    SplitPrintedLine(verb, url, proto);
    CStringOfWhole(verb);
    CStringOfWhole(url);
    PlainVersions(support11);
    ReadPrintedOptions(line, hs);
    LastWins(hs);
  }

  /** The options of a printed request are its headers. */
  lemma ReadPrintedOptions(line: string, hs: seq<Header>)
    requires forall h | h in hs :: ValidHeader(h)
    ensures ReadOptions(line + CRLF + (PrintHeaders(hs) + CRLF), |line| + 2, Options(Unset, None, None))
         == (true, ApplyHeaders(Options(Unset, None, None), hs))
  {
    hide Stands, PrintHeaders, ApplyHeaders, ValidHeader, ReadOptions, Lacks;
    var none := Options(Unset, None, None);
    var s := line + CRLF + (PrintHeaders(hs) + CRLF);
    StandsWhole(s);
    StandsSplit(s, 0, line + CRLF, PrintHeaders(hs) + CRLF);
    StandsSplit(s, |line| + 2, PrintHeaders(hs), CRLF);
    ApplyNone(none);
    assert [] + hs == hs;
    ReadHeaders(s, |line| + 2, [], hs, none);
    var end := |line| + 2 + |PrintHeaders(hs)|;
    StandsLacks(s, end, CRLF, ':');
    NoMoreOptions(s, end, ApplyHeaders(none, hs));
  }

  lemma NoMoreOptions(s: seq<char>, from: nat, o: Options)
    requires from <= |s| && Lacks(s, ':', from, |s|)
    ensures ReadOptions(s, from, o) == (true, o)
  {
    IndexOfIs(s, ':', from, |s|);
  }

  lemma ApplyNone(o: Options)
    ensures ApplyHeaders(o, []) == o
  {
  }

  /** The header is taken for the key: its name starts with it, in whatever case, and it has a value. */
  predicate Named(h: Header, key: string) {
    h.value != "" && |key| <= |h.name| && SameText(h.name[..|key|], key)
  }

  /** A Connection header, told by eight letters, whose value starts with the word, in whatever case. */
  predicate Says(h: Header, word: string) {
    Named(h, "Connecti") && |word| <= |h.value| && SameText(h.value[..|word|], word)
  }

  /** What a header counts for the key is its value, when nothing behind it is taken for the key as well. */
  lemma {:induction false} LastValueIs(hs: seq<Header>, key: string)
    ensures LastValue(hs, key).None? <==> forall h | h in hs :: !Named(h, key)
    ensures forall i | 0 <= i < |hs| && Named(hs[i], key) && (forall j | i < j < |hs| :: !Named(hs[j], key)) ::
              LastValue(hs, key) == Some(hs[i].value)
  {
    hide Named, HasPrefix;
    if hs != [] {
      var n := |hs| - 1;
      LastValueIs(hs[..n], key);
      NamedIs(hs[n], key);
      assert hs == hs[..n] + [hs[n]];
    }
  }

  lemma NamedIs(h: Header, key: string)
    ensures Recognised(h, key) <==> Named(h, key)
  {
    hide HasPrefix, SameText;
    HasPrefixIs(h.name, key);
  }

  lemma SaysIs(h: Header)
    ensures Says(h, "keep-alive") <==> Recognised(h, CONNECTION_KEY) && HasPrefix(h.value, "keep-alive")
    ensures Says(h, "close") <==> Recognised(h, CONNECTION_KEY) && HasPrefix(h.value, "close")
    ensures !(Says(h, "keep-alive") && Says(h, "close"))
  {
    hide SameText;
    NamedIs(h, CONNECTION_KEY);
    HasPrefixIs(h.value, "keep-alive");
    HasPrefixIs(h.value, "close");
    assert Lower("keep-alive"[0]) != Lower("close"[0]);
  }

  /** The last header that says keep-alive or close decides. */
  lemma {:induction false} LastConnectionIs(hs: seq<Header>)
    ensures LastConnection(hs) == Unset <==> forall h | h in hs :: !Says(h, "keep-alive") && !Says(h, "close")
    ensures forall i | 0 <= i < |hs| && (Says(hs[i], "keep-alive") || Says(hs[i], "close")) &&
                       (forall j | i < j < |hs| :: !Says(hs[j], "keep-alive") && !Says(hs[j], "close")) ::
              LastConnection(hs) == if Says(hs[i], "keep-alive") then KeepAlive else Close
  {
    hide Says, HasPrefix, Recognised;
    if hs != [] {
      var n := |hs| - 1;
      LastConnectionIs(hs[..n]);
      SaysIs(hs[n]);
      assert hs == hs[..n] + [hs[n]];
    }
  }

  /** The same header but for case: of the name, and of the value when it is a Connection header. */
  predicate SameHeader(a: Header, b: Header) {
    && SameText(a.name, b.name)
    && (a.value == b.value || (Named(a, "Connecti") && SameText(a.value, b.value)))
  }

  /** Nothing that the parser looks at tells the two headers apart. */
  lemma SameHeaderCounts(a: Header, b: Header)
    requires SameHeader(a, b)
    ensures Named(a, "Host") == Named(b, "Host") && Named(a, "Range") == Named(b, "Range")
    ensures Says(a, "keep-alive") == Says(b, "keep-alive") && Says(a, "close") == Says(b, "close")
    ensures Named(a, "Host") || Named(a, "Range") ==> a.value == b.value
  {
    SameKey(a, b, "Host");
    SameKey(a, b, "Range");
    SameKey(a, b, "Connecti");
    NamedIs(a, CONNECTION_KEY);
    NamedIs(a, "Host");
    NamedIs(a, "Range");
    OneKey(a.name);
    SameStart(a.value, b.value, "keep-alive");
    SameStart(a.value, b.value, "close");
  }

  lemma SameKey(a: Header, b: Header, key: string)
    requires SameText(a.name, b.name) && |a.value| == |b.value|
    ensures Named(a, key) == Named(b, key)
  {
    SameStart(a.name, b.name, key);
  }

  /** Texts that are the same but for case start with the same words. */
  lemma SameStart(s: string, t: string, word: string)
    ensures SameText(s, t) && |word| <= |s| ==> (SameText(s[..|word|], word) <==> SameText(t[..|word|], word))
    ensures s == t && |word| <= |s| ==> (SameText(s[..|word|], word) <==> SameText(t[..|word|], word))
  {
    hide SameLetter, Lower;
    if SameText(s, t) && |word| <= |s| {
      forall i | 0 <= i < |word|
        ensures SameLetter(s[..|word|][i], word[i]) <==> SameLetter(t[..|word|][i], word[i])
      {
        LowerIs(s[i], t[i]);
        LowerIs(s[i], word[i]);
        LowerIs(t[i], word[i]);
      }
    }
  }

  lemma {:induction false} SameHeadersCount(hs: seq<Header>, ks: seq<Header>)
    requires |hs| == |ks| && forall i | 0 <= i < |hs| :: SameHeader(hs[i], ks[i])
    ensures LastValue(hs, "Host") == LastValue(ks, "Host") && LastValue(hs, "Range") == LastValue(ks, "Range")
    ensures LastConnection(hs) == LastConnection(ks)
  {
    hide Named, Says, SameHeader, HasPrefix, Recognised;
    if hs != [] {
      var n := |hs| - 1;
      SameHeadersCount(hs[..n], ks[..n]);
      SameHeaderCounts(hs[n], ks[n]);
      NamedIs(hs[n], "Host");
      NamedIs(ks[n], "Host");
      NamedIs(hs[n], "Range");
      NamedIs(ks[n], "Range");
      SaysIs(hs[n]);
      SaysIs(ks[n]);
    }
  }

  /** The case of header names, and of what Connection headers say, does not matter. */
  lemma CaseDoesNotMatter(
    verb: string, url: string, proto: string, hs: seq<Header>, ks: seq<Header>, support11: bool)
    requires verb == "GET" || verb == "POST"
    requires proto == "HTTP/1.0" || proto == "HTTP/1.1"
    requires ' ' !in url && '\0' !in url && OneLine(url)
    requires (forall h | h in hs :: ValidHeader(h)) && forall h | h in ks :: ValidHeader(h)
    requires |hs| == |ks| && forall i | 0 <= i < |hs| :: SameHeader(hs[i], ks[i])
    ensures Parse(PrintRequest(verb, url, proto, hs), support11, Unset)
         == Parse(PrintRequest(verb, url, proto, ks), support11, Unset)
  {
    hide Parse, PrintRequest, SameHeader, LastValue, LastConnection, ValidHeader;
    RequestRoundTrips(verb, url, proto, hs, support11);
    RequestRoundTrips(verb, url, proto, ks, support11);
    SameHeadersCount(hs, ks);
  }

  /**
   HTTP/1.1 is accepted exactly with a Host header that is not empty, in whatever case, and is kept alive
   unless the last Connection header that says something says close; HTTP/1.0 is kept alive only when it
   says keep-alive.
   */
  lemma HeadersDecide(verb: string, url: string, proto: string, hs: seq<Header>, support11: bool)
    requires verb == "GET" || verb == "POST"
    requires proto == "HTTP/1.0" || proto == "HTTP/1.1"
    requires ' ' !in url && '\0' !in url && OneLine(url)
    requires forall h | h in hs :: ValidHeader(h)
    ensures var p := Parse(PrintRequest(verb, url, proto, hs), support11, Unset);
            var eleven := proto == "HTTP/1.1" && support11;
            && (p.ok <==> !eleven || exists h :: h in hs && Named(h, "Host"))
            && p.status == (if p.ok then 0 else 400)
            && (p.ok && (forall h | h in hs :: !Says(h, "keep-alive") && !Says(h, "close")) ==> p.keepAlive == eleven)
            && forall i | 0 <= i < |hs| && p.ok && (Says(hs[i], "keep-alive") || Says(hs[i], "close")) &&
                          (forall j | i < j < |hs| :: !Says(hs[j], "keep-alive") && !Says(hs[j], "close")) ::
                 p.keepAlive == Says(hs[i], "keep-alive")
  {
    hide Parse, PrintRequest, LastValue, LastConnection, ValidHeader, Named, Says;
    RequestRoundTrips(verb, url, proto, hs, support11);
    LastValueIs(hs, "Host");
    LastConnectionIs(hs);
    forall i | 0 <= i < |hs|
      ensures !(Says(hs[i], "keep-alive") && Says(hs[i], "close"))
    {
      SaysIs(hs[i]);
    }
  }

  /** A complete request line whose method is another than GET and POST. */
  predicate OtherVerb(s: seq<char>) {
    var e := FirstCrlf(s, 0);
    var line := SplitLine(s[..e]);
    e < |s| && line.Some? && CString(line.value.verb) != "GET" && CString(line.value.verb) != "POST"
  }

  /**
   Whatever the request is: a refused one is answered 400 or 501 and closes the connection, 501
   exactly when its request line is complete and its method is another than GET and POST; and an
   accepted HTTP/1.1 request names its host.
   */
  lemma ParseRules(s: seq<char>, support11: bool, connection: Connection)
    ensures var p := Parse(s, support11, connection);
            && (!p.ok ==> p.status in {400, 501} && !p.keepAlive)
            && (p.status == 501 <==> OtherVerb(s))
            && (p.ok ==> p.status == 0 && p.url.Some? && p.version != VersionUnset)
            && (p.ok && p.version == Http11 ==> p.options.host.Some?)
            && (p.version == Http11 && p.options.host.None? ==> p.status == 400)
  {
    hide ReadOptions, SplitLine, FirstCrlf, CString;
    hide ReadVersion;
  }

  /**
   The parser cannot look at a head exactly when its line has three words and the first of them is
   empty as a C string: the head starts with a blank or a NUL.
   */
  lemma VerbMissingWhen(s: seq<char>)
    ensures VerbMissing(s) <==>
              var e := FirstCrlf(s, 0);
              e < |s| && SplitLine(s[..e]).Some? && (s[0] == ' ' || s[0] == '\0')
  {
    var e := FirstCrlf(s, 0);
    var line := SplitLine(s[..e]);
    if e < |s| && line.Some? {
      var a := IndexOf(s[..e], ' ', 0);
      assert s[..e][..a] == s[..a];
      assert a == 0 <==> s[0] == ' ';
      if a > 0 {
        assert IndexOf(s[..a], '\0', 0) == 0 <==> s[0] == '\0';
      }
    }
  }

  /** A blank in front of two words makes an empty method; in front of three, it makes no request line. */
  lemma BlankInFront(support11: bool, connection: Connection)
    ensures VerbMissing(" GET HTTP/1.1" + CRLF + CRLF)
    ensures !VerbMissing(" GET / HTTP/1.1" + CRLF + CRLF)
    ensures Parse(" GET / HTTP/1.1" + CRLF + CRLF, support11, connection).status == 400
  {
    hide FirstCrlf, SplitLine, ParseWords;
    var three, four := " GET HTTP/1.1", " GET / HTTP/1.1";
    LineEnds(three, CRLF);
    TakeLine(three);
    assert three == PrintLine("", "GET", "HTTP/1.1");
    SplitPrintedLine("", "GET", "HTTP/1.1");
    LineEnds(four, CRLF);
    TakeLine(four);
    FourWords(four);
  }

  lemma TakeLine(line: string)
    ensures (line + CRLF + CRLF)[..|line|] == line
  {
  }

  lemma FourWords(line: string)
    requires |line| > 6 && line[0] == ' ' && line[4] == ' ' && line[6] == ' ' && ' ' !in line[1..4] && line[5] != ' '
    ensures SplitLine(line).None?
  {
    LacksIn(line, ' ', 1, line[1..4]);
    IndexOfIs(line, ' ', 0, 0);
    IndexOfIs(line, ' ', 1, 4);
    IndexOfIs(line, ' ', 5, 6);
  }
}
