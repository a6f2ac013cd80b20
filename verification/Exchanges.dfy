/**
 What a connection owes its peer, said over bytes alone: which response answers which received bytes,
 and how the exchanges of a connection add up.
 */
module Exchanges {
  import opened Words
  import opened Pieces
  import opened CStrings
  import opened Requests
  import opened Terminators
  import opened Fragments
  import opened KeyMaps
  import opened ResponseHeads
  import opened ResponsePrinters
  import opened Mimes

  /** The service name and the MIME types are shorter. */
  const MAX_NAME := 0x2000_0000

  /** A directory listing is assumed to be shorter. */
  const MAX_LISTING := 0x4000_0000

  /** The largest head limit with which one more read cannot make a byte count wrap. */
  const MAX_HEAD: Uint32 := 0x7FFF_FFBE

  /** The server's configuration; what it prints in a head stays on a line and is of a sensible length. */
  datatype Config = Config(
    support11: bool, maxHead: Uint32, maxReadIdle: Uint32, maxWriteIdle: Uint32,
    serviceName: string, rootDir: string, table: seq<Entry>)
  {
    predicate Valid() {
      && maxHead <= MAX_HEAD && '\r' !in serviceName && |serviceName| < MAX_NAME
      && forall e | e in table :: '\r' !in e.mimeType && |e.mimeType| < MAX_NAME
    }
  }

  /** connection_request, but for the bytes of the head. */
  datatype Request = Request(verb: Option<string>, url: Option<string>, version: Version, options: Options)

  const NO_REQUEST := Request(None, None, VersionUnset, Options(Unset, None, None))

  /** connection_response. */
  datatype Response = Response(fullpath: string, contentLength: Uint32, contentType: Option<string>)

  const NO_RESPONSE := Response("", 0, None)

  /** What stat() finds. */
  datatype Stat = NoAccess | Missing | StatFailed | Special | Directory | Regular(size: nat)

  /** What the file system was asked for a request, and its answers: stat(), and the page of a directory. */
  datatype Lookup = Lookup(path: string, answer: Stat, page: Option<seq<char>>)

  /** The URL up to its fragment, and then up to its query. */
  function PathOfUrl(url: string): string {
    var path := url[..IndexOf(url, '#', 0)];
    path[..IndexOf(path, '?', 0)]
  }

  /** Where a path of a URL is looked for. */
  function FullPath(rootDir: string, path: string): string {
    rootDir + "/" + if path != [] && path[0] == '/' then path[1..] else path
  }

  /** The path is the URL up to the first '#' or '?', or all of it. */
  lemma PathOfUrlIs(url: string)
    ensures var path := PathOfUrl(url);
            && path <= url && '#' !in path && '?' !in path
            && (|path| < |url| ==> url[|path|] == '#' || url[|path|] == '?')
  {
    var e := IndexOf(url, '#', 0);
    var path := url[..e];
    assert path[..IndexOf(path, '?', 0)] == url[..IndexOf(path, '?', 0)];
  }

  /** A path is looked for below the root directory; one slash in front of it makes no difference. */
  lemma FullPathIs(rootDir: string, path: string)
    ensures FullPath(rootDir, "/" + path) == rootDir + "/" + path
    ensures path == "" || path[0] != '/' ==> FullPath(rootDir, path) == rootDir + "/" + path
  {
    assert ("/" + path)[1..] == path;
  }

  /** A query and a fragment, in either order, do not change which file is served. */
  lemma QueryAndFragmentIgnored(path: string, mark: char, tail: string)
    requires '#' !in path && '?' !in path && (mark == '#' || mark == '?')
    ensures PathOfUrl(path + [mark] + tail) == path
  {
    var url := path + [mark] + tail;
    assert forall i | 0 <= i < |path| :: url[i] == path[i];
    assert url[|path|] == mark;
    if mark == '#' {
      IndexOfIs(url, '#', 0, |path|);
      assert url[..|path|] == path;
      IndexOfIs(path, '?', 0, |path|);
    } else {
      var e := IndexOf(url, '#', 0);
      assert e > |path|;
      IndexOfIs(url[..e], '?', 0, |path|);
      assert url[..e][..|path|] == path;
    }
  }

  /** The type of the first entry whose extension ends the path; None when there is none. */
  ghost predicate TypeOfPath(table: seq<Entry>, path: string, contentType: Option<string>) {
    || (exists i: nat :: FirstMatch(table, path, i) && contentType == Some(table[i].mimeType))
    || (contentType == None && forall k | 0 <= k < |table| :: !Matches(table[k], path))
  }

  /** What is sent of a file: as many bytes as its size is in 32 bits. */
  function CutSize(bytes: seq<char>): seq<char> {
    bytes[..Wrap(|bytes|)]
  }

  /** What answers a readable request, by what its path was found to be. */
  ghost predicate Handled(
    found: Lookup, files: Files, config: Config, url: string, httpStatus: nat, body: seq<char>,
    contentType: Option<string>)
  {
    && found.path == FullPath(config.rootDir, PathOfUrl(url))
    && match found.answer
       case NoAccess => httpStatus == 403 && body == []
       case Missing => httpStatus == 404 && body == []
       case StatFailed => httpStatus == 500 && body == []
       case Special => httpStatus == 403 && body == []
       case Directory =>
         && httpStatus == 200 && found.page == Some(body) && 0 < |body| < MAX_LISTING
         && contentType == Some("text/html")
       case Regular(size) =>
         && httpStatus == 200 && size == |files(found.path)| && body == CutSize(files(found.path))
         && TypeOfPath(config.table, found.path, contentType)
  }

  lemma HandledStatus(
    found: Lookup, files: Files, config: Config, url: string, httpStatus: nat, body: seq<char>,
    contentType: Option<string>)
    requires Handled(found, files, config, url, httpStatus, body, contentType)
    ensures httpStatus == match found.answer
                          case NoAccess => 403
                          case Missing => 404
                          case StatFailed => 500
                          case Special => 403
                          case Directory => 200
                          case Regular(_) => 200
  {
  }

  /** The request was parsed, or it was too long to be read. */
  ghost predicate Understood(
    received: seq<char>, config: Config, httpStatus: nat, keepAlive: bool, request: Request)
  {
    match Judge(received, config.maxHead)
    case Waiting => false
    case TooLong => httpStatus == 414 && !keepAlive && request.version == VersionUnset
    case Complete(head) =>
      var p := Parse(head, config.support11, Unset);
      httpStatus == p.status && keepAlive == p.keepAlive && request == Request(p.verb, p.url, p.version, p.options)
  }

  /**
   The status, the choices and the body that the received bytes are to be answered with, `looked` being
   what the file system answered; it is not asked for a request that could not be read.
   */
  ghost predicate Due(
    received: seq<char>, config: Config, files: Files, looked: Option<Lookup>, version: Version,
    httpStatus: nat, keepAlive: bool, body: seq<char>, contentType: Option<string>)
  {
    match Judge(received, config.maxHead)
    case Waiting => false
    case TooLong => httpStatus == 414 && !keepAlive && version == VersionUnset && body == [] && looked.None?
    case Complete(head) =>
      var p := Parse(head, config.support11, Unset);
      && version == p.version && keepAlive == p.keepAlive
      && if p.status != 0 then httpStatus == p.status && body == [] && looked.None?
         else p.url.Some? && looked.Some? &&
              Handled(looked.value, files, config, p.url.value, httpStatus, body, contentType)
  }

  lemma DueRefused(
    received: seq<char>, config: Config, files: Files, httpStatus: nat, keepAlive: bool, request: Request,
    contentType: Option<string>)
    requires Understood(received, config, httpStatus, keepAlive, request) && httpStatus != 0
    ensures Due(received, config, files, None, request.version, httpStatus, keepAlive, [], contentType)
  {
  }

  lemma DueFound(
    received: seq<char>, config: Config, files: Files, keepAlive: bool, request: Request, found: Lookup,
    httpStatus: nat, body: seq<char>, contentType: Option<string>)
    requires Understood(received, config, 0, keepAlive, request) && request.url.Some?
    requires Handled(found, files, config, request.url.value, httpStatus, body, contentType)
    ensures Due(received, config, files, Some(found), request.version, httpStatus, keepAlive, body, contentType)
  {
    hide Handled, Parse, Judge;
  }

  /** The page shows the status and a text that the table gives for it. */
  ghost predicate Explains(page: seq<char>, status: nat) {
    exists title: LineText :: HasText(status, title) && page == ErrorPage(status, title)
  }

  /** A response as a client reads it: where its head ends, and what the head says. */
  ghost predicate WellFormedResponse(response: seq<char>, h: Head, body: seq<char>) {
    && h.Valid() && h.contentLength == |body|
    && response == PrintHead(h) + body && FirstEnd(response, |PrintHead(h)|)
    && SaysHead(response, h) && (SaysKeepAlive(response) <==> h.keepAlive)
    && SaidLength(response) == (if body == [] then None else Some(Decimal(ToInt32(|body|))))
  }

  lemma ResponseIsWellFormed(h: Head, body: seq<char>)
    requires h.Valid() && h.contentLength == |body|
    ensures WellFormedResponse(PrintHead(h) + body, h, body)
  {
    hide PrintHead, FirstEnd, SaysHead, SaysKeepAlive, SaidLength, Decimal;
    HeadIsSplit(h, body);
    HeadReadsBack(h, body);
    HeadSaysWhatWasMeant(h, body);
  }

  /**
   The response is a whole one of this server, and what is due for the received bytes; an error gets a page
   as its body.
   */
  ghost predicate RepliesWith(
    received: seq<char>, config: Config, files: Files, looked: Option<Lookup>, response: seq<char>, h: Head,
    body: seq<char>, due: seq<char>, contentType: Option<string>)
  {
    && WellFormedResponse(response, h, body)
    && Due(received, config, files, looked, h.version, h.status, h.keepAlive, due, contentType)
    && HasText(h.status, h.text) && h.service == config.serviceName
    && if h.status == 200 then body == due && h.contentType == contentType
       else Explains(body, h.status) && h.contentType == Some("text/html")
  }

  ghost predicate Replies(
    received: seq<char>, config: Config, files: Files, looked: Option<Lookup>, response: seq<char>)
  {
    exists h: Head, body: seq<char>, due: seq<char>, contentType: Option<string> ::
      RepliesWith(received, config, files, looked, response, h, body, due, contentType)
  }

  /**
   A request's bytes, with all that was read after its head, what the file system was asked for it, its
   response, and what was sent of that.
   */
  datatype Exchange = Exchange(request: seq<char>, looked: Option<Lookup>, response: seq<char>, sent: seq<char>)

  /** The bytes read for all exchanges. */
  ghost function Asked(history: seq<Exchange>): seq<char> {
    if history == [] then [] else Asked(history[..|history| - 1]) + history[|history| - 1].request
  }

  /** The bytes sent for all exchanges. */
  ghost function Said(history: seq<Exchange>): seq<char> {
    if history == [] then [] else Said(history[..|history| - 1]) + history[|history| - 1].sent
  }

  lemma OneMore(history: seq<Exchange>, x: Exchange)
    ensures Asked(history + [x]) == Asked(history) + x.request && Said(history + [x]) == Said(history) + x.sent
  {
    assert (history + [x])[..|history|] == history;
  }

  /** The peer got what was sent for the exchanges and a front part of the response being sent, nothing else. */
  ghost predicate Delivered(accepted: seq<char>, history: seq<Exchange>, current: seq<char>, taken: seq<char>) {
    accepted == Said(history) + taken && taken <= current
  }

  /** Every byte read belongs to one exchange, or to the request at hand; when that is over, more may come. */
  ghost predicate Heard(received: seq<char>, history: seq<Exchange>, rest: seq<char>, over: bool) {
    if over then Asked(history) + rest <= received else received == Asked(history) + rest
  }

  /** The request was answered with what was due for it, and all of that was sent; of 2^32 bytes, nothing was. */
  ghost predicate Fits(x: Exchange, config: Config, files: Files) {
    && Replies(x.request, config, files, x.looked, x.response)
    && x.sent == if |x.response| == TWO_TO_THE_32 then [] else x.response
  }

  /** Every response said that the connection goes on; when it is over, the last one need not. */
  ghost predicate Kept(history: seq<Exchange>, config: Config, files: Files, over: bool) {
    forall i | 0 <= i < |history| ::
      Fits(history[i], config, files) && (SaysKeepAlive(history[i].response) || (over && i == |history| - 1))
  }

  /** A finished response joins the history. */
  lemma ExchangeEnds(
    config: Config, files: Files, accepted: seq<char>, received: seq<char>, history: seq<Exchange>, x: Exchange,
        over: bool)
    requires Delivered(accepted, history, x.response, x.sent) && Heard(received, history, x.request, false)
    requires Kept(history, config, files, false) && Fits(x, config, files) && (over || SaysKeepAlive(x.response))
    ensures Delivered(accepted, history + [x], [], []) && Heard(received, history + [x], [], over)
    ensures Kept(history + [x], config, files, over)
  {
    hide Fits, SaysKeepAlive;
    OneMore(history, x);
    assert Asked(history + [x]) + [] == Asked(history + [x]);
  }

  /** The type stays on a line of the head. */
  predicate TypeFits(contentType: Option<string>) {
    contentType.Some? ==> '\r' !in contentType.value && |contentType.value| < MAX_NAME
  }

  /** The statuses of requests that could not be read. */
  predicate Refused(httpStatus: nat) {
    httpStatus in {400, 414, 501}
  }

  /**
   Where a client takes the first response of a stream to end: after the length that its head says,
   and with the stream when it says none (section 3.3.3 of RFC 7230).
   */
  ghost function FirstResponseEnd(s: seq<char>): (n: nat)
    requires !NoEnd(s)
    ensures 0 < n <= |s|
  {
    var t := EndOf(s);
    FirstEndIsEnd(s, t);
    match SaidLength(s)
    case None => |s|
    case Some(digits) => if IsNumber(digits) then Min(t + Number(digits), |s|) else |s|
  }

  /** The responses a client reads from a stream, one after the other. */
  ghost function ReadResponses(s: seq<char>): seq<seq<char>>
    decreases |s|
  {
    if NoEnd(s) then [] else [s[..FirstResponseEnd(s)]] + ReadResponses(s[FirstResponseEnd(s)..])
  }

  /** A head and a body that go together. */
  ghost predicate IsResponse(response: seq<char>) {
    exists h: Head, body: seq<char> :: WellFormedResponse(response, h, body)
  }

  /** There is a body, and the head can say its length. */
  ghost predicate Delimited(response: seq<char>) {
    !NoEnd(response) && 0 < |response| - EndOf(response) < 0x8000_0000
  }

  /** What follows the head of a response does not change where the head ends and what it says. */
  lemma HeadIsRead(response: seq<char>, h: Head, body: seq<char>, other: seq<char>)
    requires WellFormedResponse(response, h, body)
    ensures var s := PrintHead(h) + other;
            !NoEnd(s) && EndOf(s) == |PrintHead(h)| && SaidLength(s) == SaidLength(response)
    ensures Delimited(response) <==> 0 < |body| < 0x8000_0000
    ensures var said := SaidLength(response);
            && (said.Some? && IsNumber(said.value) <==> Delimited(response))
            && (Delimited(response) ==> Number(said.value) == |body|)
  {
    hide PrintHead, FirstEnd, SaysKeepAlive, SaidLength, Decimal, NoEnd, EndOf, IsNumber, Number;
    EndOfHead(h, other);
    EndOfHead(h, body);
    HeadSaysWhatWasMeant(h, body);
    HeadSaysWhatWasMeant(h, other);
    LengthReadsBack(h.contentLength);
  }

  lemma EndOfHead(h: Head, other: seq<char>)
    requires h.Valid()
    ensures var s := PrintHead(h) + other; !NoEnd(s) && EndOf(s) == |PrintHead(h)|
  {
    hide PrintHead, FirstEnd, NoEnd, EndOf;
    var s := PrintHead(h) + other;
    HeadIsSplit(h, other);
    FirstEndIsEnd(s, |PrintHead(h)|);
    FirstEndUnique(s, |PrintHead(h)|, EndOf(s));
  }

  /**
   A client reads a response up to its end when the head says the length of the body, and else takes
   everything that follows for the body as well.
   */
  lemma ResponseIsRead(response: seq<char>, tail: seq<char>)
    requires IsResponse(response)
    ensures response != [] && !NoEnd(response + tail)
    ensures FirstResponseEnd(response + tail) == |response| + if Delimited(response) then 0 else |tail|
  {
    var h: Head, body: seq<char> :| WellFormedResponse(response, h, body);
    hide PrintHead, FirstEnd, SaysKeepAlive, SaidLength, Decimal, NoEnd, EndOf, IsNumber, Number, Delimited;
    Associative(PrintHead(h), body, tail);
    HeadIsRead(response, h, body, body + tail);
    FirstEndIsEnd(response, |PrintHead(h)|);
  }

  /** Of a response that is cut off, a client reads what there is, once its head is complete. */
  lemma FrontIsRead(response: seq<char>, front: seq<char>)
    requires IsResponse(response) && front <= response
    ensures ReadResponses(front) == if NoEnd(front) then [] else [front]
  {
    hide IsResponse, FirstResponseEnd, NoEnd;
    if !NoEnd(front) {
      FrontEnds(response, front);
      assert front[..|front|] == front && front[|front|..] == [];
      NothingSaid();
    }
  }

  lemma FrontEnds(response: seq<char>, front: seq<char>)
    requires IsResponse(response) && front <= response && !NoEnd(front)
    ensures FirstResponseEnd(front) == |front|
  {
    var h: Head, body: seq<char> :| WellFormedResponse(response, h, body);
    hide PrintHead, FirstEnd, SaysKeepAlive, SaidLength, Decimal, NoEnd, EndOf, IsNumber, Number, Delimited;
    var t := EndOf(front);
    FrontOfResponse(response, front, t);
    FirstEndUnique(response, t, |PrintHead(h)|);
    assert front == PrintHead(h) + body[..|front| - t];
    HeadIsRead(response, h, body, body[..|front| - t]);
  }

  lemma FrontOfResponse(response: seq<char>, front: seq<char>, t: nat)
    requires front <= response && FirstEnd(front, t)
    ensures t <= |front| && FirstEnd(response, t)
  {
    FirstEndIsEnd(front, t);
    assert response == front + response[|front|..];
    FirstEndPrefix(front, response[|front|..], t);
  }

  function Responses(history: seq<Exchange>): (r: seq<seq<char>>)
    ensures |r| == |history|
  {
    if history == [] then [] else [history[0].response] + Responses(history[1..])
  }

  /** The first exchange's bytes come first. */
  lemma {:induction false} SaidCons(history: seq<Exchange>)
    requires history != []
    ensures Said(history) == history[0].sent + Said(history[1..])
    decreases |history|
  {
    var n := |history| - 1;
    if n > 0 {
      SaidCons(history[..n]);
      assert history[..n][1..] == history[1..][..n - 1];
      Associative(history[0].sent, Said(history[1..][..n - 1]), history[n].sent);
    }
  }

  /** The response was sent, and says where it ends; the last one, with nothing behind it, need not. */
  ghost predicate Ends(x: Exchange, last: bool) {
    x.sent == x.response && (Delimited(x.response) || last)
  }

  ghost predicate AllEnd(history: seq<Exchange>, tail: seq<char>) {
    forall i | 0 <= i < |history| :: Ends(history[i], i == |history| - 1 && tail == [])
  }

  lemma AllEndCons(history: seq<Exchange>, tail: seq<char>)
    requires history != []
    ensures AllEnd(history, tail) <==> Ends(history[0], |history| == 1 && tail == []) && AllEnd(history[1..], tail)
  {
    hide Ends;
    var rest := history[1..];
    if AllEnd(history, tail) {
      forall i | 0 <= i < |rest|
        ensures Ends(rest[i], i == |rest| - 1 && tail == [])
      {
        assert rest[i] == history[i + 1];
      }
    }
    if AllEnd(rest, tail) && Ends(history[0], |history| == 1 && tail == []) {
      forall i | 0 <= i < |history|
        ensures Ends(history[i], i == |history| - 1 && tail == [])
      {
        assert i > 0 ==> history[i] == rest[i - 1];
      }
    }
  }

  /** What a client reads first, and what is left to read. */
  lemma ReadFirst(first: seq<char>, rest: seq<char>)
    requires IsResponse(first)
    ensures first != [] && ReadResponses(first + rest) ==
              if Delimited(first) || rest == [] then [first] + ReadResponses(rest) else [first + rest]
  {
    hide IsResponse, FirstResponseEnd, Delimited;
    ResponseIsRead(first, rest);
    var s := first + rest;
    assert s[..|first|] == first && s[|first|..] == rest;
    assert s[..|s|] == s && s[|s|..] == [];
    NothingSaid();
  }

  /** Each response was sent as a whole, or not at all. */
  ghost predicate SentOrNot(history: seq<Exchange>) {
    forall x | x in history :: IsResponse(x.response) && (x.sent == x.response || x.sent == [])
  }

  lemma SentOrNotCons(history: seq<Exchange>)
    requires SentOrNot(history) && history != []
    ensures var x := history[0];
            SentOrNot(history[1..]) && IsResponse(x.response) && (x.sent == x.response || x.sent == [])
  {
    hide IsResponse;
    assert history[0] in history;
  }

  /**
   A client that goes by the heads alone reads from what was sent on a connection exactly its responses,
   and then what it reads from the rest, if and only if all of them were sent and end by themselves: when a
   head says no length, or none that can be read, a client takes what follows for the body. It never reads
   more responses than there are.
   */
  lemma {:induction false} ClientReadsHistory(history: seq<Exchange>, tail: seq<char>)
    requires SentOrNot(history)
    ensures ReadResponses(Said(history) + tail) == Responses(history) + ReadResponses(tail) <==> AllEnd(history, tail)
    ensures |ReadResponses(Said(history) + tail)| <= |history| + |ReadResponses(tail)|
    decreases |history|
  {
    hide IsResponse, SentOrNot, Said, Delimited, AllEnd, ReadResponses;
    if history == [] {
      NothingSaid();
      NoneEnd(tail);
      assert [] + tail == tail;
    } else {
      var first, rest := history[0], history[1..];
      var after := Said(rest) + tail;
      SentOrNotCons(history);
      SaidCons(history);
      Associative(first.sent, Said(rest), tail);
      ReadFirst(first.response, after);
      ClientReadsHistory(rest, tail);
      AllEndCons(history, tail);
      if first.sent == [] {
        assert [] + after == after;
      } else {
        OneByOne(first, rest, tail);
      }
    }
  }

  /** The first response is read, when it ends, and else everything is one response. */
  lemma OneByOne(first: Exchange, rest: seq<Exchange>, tail: seq<char>)
    requires SentOrNot(rest) && first.sent == first.response
    requires var after := Said(rest) + tail;
             && ReadResponses(first.response + after) ==
                  (if Delimited(first.response) || after == [] then [first.response] + ReadResponses(after)
                   else [first.response + after])
             && (ReadResponses(after) == Responses(rest) + ReadResponses(tail) <==> AllEnd(rest, tail))
    ensures ReadResponses(first.response + (Said(rest) + tail)) ==
              [first.response] + Responses(rest) + ReadResponses(tail) <==>
            Ends(first, rest == [] && tail == []) && AllEnd(rest, tail)
  {
    hide IsResponse, SentOrNot, Said, Delimited, AllEnd, ReadResponses;
    var after := Said(rest) + tail;
    Associative([first.response], Responses(rest), ReadResponses(tail));
    SameRest(first.response, ReadResponses(after), Responses(rest) + ReadResponses(tail));
    NothingSaid();
    if after == [] {
      if rest != [] {
        SaidNothing(rest, tail);
      }
    } else if !Delimited(first.response) {
      OtherFirst(first.response, after, Responses(rest) + ReadResponses(tail));
    }
  }

  /** A longer first response is another one. */
  lemma OtherFirst(a: seq<char>, after: seq<char>, x: seq<seq<char>>)
    requires after != []
    ensures [a + after] != [a] + x
  {
    assert |a + after| != |a|;
    assert [a + after][0] == a + after && ([a] + x)[0] == a;
  }

  /** When nothing was sent, not all was. */
  lemma SaidNothing(history: seq<Exchange>, tail: seq<char>)
    requires SentOrNot(history) && history != [] && Said(history) == []
    ensures !AllEnd(history, tail)
  {
    hide IsResponse, SentOrNot, Said, Delimited, AllEnd;
    SentOrNotCons(history);
    SaidCons(history);
    AllEndCons(history, tail);
    ResponseIsRead(history[0].response, []);
  }

  lemma SameRest<T>(a: T, x: seq<T>, y: seq<T>)
    ensures [a] + x == [a] + y <==> x == y
  {
    assert ([a] + x)[1..] == x && ([a] + y)[1..] == y;
  }

  lemma NoneEnd(tail: seq<char>)
    ensures AllEnd([], tail)
  {
  }

  lemma NothingSaid()
    ensures Said([]) == [] && NoEnd([]) && ReadResponses([]) == []
  {
  }
}
