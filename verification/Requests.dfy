/**
 What http_reuqest_parse() in src/request.cpp makes of a request head, said line by line. The
 in-place scanner that computes it is in RequestParser.dfy.
 */
module Requests {
  import opened Words
  import opened CStrings

  datatype Version = VersionUnset | Http10 | Http11

  /** The request's own Connection option. */
  datatype Connection = Unset | KeepAlive | Close

  /** The header fields the server looks at; a field that was never stored is None. */
  datatype Options = Options(connection: Connection, host: Option<string>, range: Option<string>)

  /** The parser's result: 0 or -1, the status and keep-alive choice, and the request fields it set. */
  datatype Parsed = Parsed(
    ok: bool, status: nat, keepAlive: bool,
    verb: Option<string>, url: Option<string>, version: Version, options: Options)

  const CRLF := "\r\n"

  /** The first position of CR LF at or after `from`, or the length of `s`. */
  function FirstCrlf(s: seq<char>, from: nat): (i: nat)
    requires from <= |s|
    ensures from <= i <= |s| && (i < |s| ==> CrlfAt(s, i)) && forall j | from <= j < i :: !CrlfAt(s, j)
    decreases |s| - from
  {
    if from == |s| || CrlfAt(s, from) then from else FirstCrlf(s, from + 1)
  }

  predicate CrlfAt(s: seq<char>, i: nat) {
    i + 1 < |s| && s[i] == '\r' && s[i + 1] == '\n'
  }

  datatype RequestLine = RequestLine(verb: string, url: string, proto: string)

  /** A request line is three words with a single blank between them. */
  function SplitLine(line: seq<char>): Option<RequestLine> {
    var a := IndexOf(line, ' ', 0);
    if a == |line| then None else
    var b := IndexOf(line, ' ', a + 1);
    if b == |line| || IndexOf(line, ' ', b + 1) != |line| then None
    else Some(RequestLine(line[..a], line[a + 1..b], line[b + 1..]))
  }

  /** The HTTP version of a protocol word, None when the server does not accept it. */
  function ReadVersion(proto: seq<char>, support11: bool): (v: Option<Version>)
    ensures v.Some? ==> v.value != VersionUnset
  {
    var p := CString(proto);
    if |p| < 5 || p[..5] != "HTTP/" then None else
    var number := p[5..];
    var dot := IndexOf(number, '.', 0);
    if dot == |number| || dot == 0 || dot + 1 == |number| then None else
    var major, minor := Strtol(number[..dot]), Strtol(number[dot + 1..]);
    if major.1 != dot || minor.1 != |number| - dot - 1 || ToInt32(major.0) != 1 then None
    else if ToInt32(minor.0) == 1 then Some(if support11 then Http11 else Http10)
    else if ToInt32(minor.0) == 0 then Some(Http10)
    else None
  }

  /** The names are told by their first letters only, Connection by its first eight. */
  const CONNECTION_KEY := "Connecti"

  /** One option line, from its name to before its CR LF, and its value without leading blanks. */
  function Apply(o: Options, line: seq<char>, value: seq<char>): Options {
    if value == [] then o
    else if HasPrefix(line, CONNECTION_KEY) then
      if HasPrefix(value, "keep-alive") then o.(connection := KeepAlive)
      else if HasPrefix(value, "close") then o.(connection := Close)
      else o
    else if HasPrefix(line, "Host") then o.(host := Some(CString(value)))
    else if HasPrefix(line, "Range") then o.(range := Some(CString(value)))
    else o
  }

  /**
   The option lines from `from` on. A line's name goes to the next colon, its value to the next CR,
   which LF has to follow; what has no colon or no CR any more is passed over.
   */
  function ReadOptions(s: seq<char>, from: nat, o: Options): (bool, Options)
    requires from <= |s|
    decreases |s| - from
  {
    var p := IndexOf(s, ':', from);
    if p == |s| then (true, o) else
    var q := IndexOf(s, '\r', p + 1);
    if q == |s| then (true, o)
    else if !CrlfAt(s, q) then (false, o)
    else ReadOptions(s, q + 2, Apply(o, s[from..q], SkipBlanks(s[p + 1..q])))
  }

  function Failed(status: nat, verb: Option<string>, url: Option<string>, v: Version, o: Options): Parsed {
    Parsed(false, status, false, verb, url, v, o)
  }

  /** The rules that need the version: HTTP/1.1 keeps alive unless told to close, and needs a Host. */
  function Conclude(ok: bool, verb: Option<string>, url: Option<string>, v: Version, o: Options): Parsed {
    if !ok || (v == Http11 && o.host.None?) then Failed(400, verb, url, v, o)
    else Parsed(true, 0, if v == Http11 then o.connection != Close else o.connection == KeepAlive, verb, url, v, o)
  }

  /** A request whose line has its three words, with the option lines at position `from`. */
  function ParseWords(s: seq<char>, from: nat, line: RequestLine, support11: bool, none: Options): Parsed
    requires from <= |s|
  {
    var verb := CString(line.verb);
    if verb != "GET" && verb != "POST" then Failed(501, None, None, VersionUnset, none) else
    var url := Some(CString(line.url));
    var version := ReadVersion(line.proto, support11);
    if version.None? then Failed(400, Some(verb), url, VersionUnset, none) else
    var (ok, o) := ReadOptions(s, from, none);
    Conclude(ok, Some(verb), url, version.value, o)
  }

  /** The whole request; without a request line it is answered 400. */
  function Parse(s: seq<char>, support11: bool, connection: Connection): Parsed {
    var none := Options(connection, None, None);
    var e := FirstCrlf(s, 0);
    var line := SplitLine(s[..e]);
    if e == |s| || line.None? then Failed(400, None, None, VersionUnset, none)
    else ParseWords(s, e + 2, line.value, support11, none)
  }

  /** The one head the parser cannot look at: its verb is empty, and there is no string to compare. */
  predicate VerbMissing(s: seq<char>) {
    var e := FirstCrlf(s, 0);
    var line := SplitLine(s[..e]);
    e < |s| && line.Some? && CString(line.value.verb) == []
  }
}
