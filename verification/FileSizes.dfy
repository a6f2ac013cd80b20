/** What the size of a file does to the response that serves it, and requests that show it. */
module FileSizes {
  import opened Words
  import opened Pieces
  import opened CStrings
  import opened Requests
  import opened RequestRoundTrip
  import opened Terminators
  import opened Fragments
  import opened KeyMaps
  import opened ResponseHeads
  import opened ResponsePrinters
  import opened Mimes
  import opened Exchanges

  /** What stands behind the head. */
  ghost function BodyOf(response: seq<char>): seq<char>
    requires !NoEnd(response)
  {
    response[EndOf(response)..]
  }

  lemma BodyIs(response: seq<char>, h: Head, body: seq<char>)
    requires WellFormedResponse(response, h, body)
    ensures !NoEnd(response) && BodyOf(response) == body
  {
    hide PrintHead, NoEnd, FirstEnd, EndOf;
    EndOfHead(h, body);
  }

  /** A file is sent up to its size in 32 bits. */
  lemma FileBody(received: seq<char>, config: Config, files: Files, found: Lookup, response: seq<char>)
    requires Replies(received, config, files, Some(found), response) && found.answer.Regular?
    ensures !NoEnd(response) && BodyOf(response) == CutSize(files(found.path))
  {
    hide WellFormedResponse, Due, CutSize, BodyOf, NoEnd, Explains, HasText;
    var h: Head, body: seq<char>, due: seq<char>, contentType: Option<string> :|
      RepliesWith(received, config, files, Some(found), response, h, body, due, contentType);
    BodyIs(response, h, body);
    DueFile(received, config, files, found, h, due, contentType);
  }

  lemma DueFile(
    received: seq<char>, config: Config, files: Files, found: Lookup, h: Head, due: seq<char>,
    contentType: Option<string>)
    requires Due(received, config, files, Some(found), h.version, h.status, h.keepAlive, due, contentType)
    requires found.answer.Regular?
    ensures h.status == 200 && due == CutSize(files(found.path))
  {
    hide Judge, Parse, FullPath, PathOfUrl, TypeOfPath, CutSize;
  }

  /** The whole file is served exactly when its size fits 32 bits. */
  lemma WholeFile(received: seq<char>, config: Config, files: Files, found: Lookup, response: seq<char>)
    requires Replies(received, config, files, Some(found), response) && found.answer.Regular?
    ensures !NoEnd(response) && (BodyOf(response) == files(found.path) <==> |files(found.path)| < TWO_TO_THE_32)
  {
    hide Replies, BodyOf, NoEnd;
    FileBody(received, config, files, found, response);
  }

  /** A regular file was found. */
  predicate FileFound(looked: Option<Lookup>) {
    looked.Some? && looked.value.answer.Regular?
  }

  /** The length of a body: of a file, its size in 32 bits; of a page, something the head can say. */
  lemma LengthOfBody(
    received: seq<char>, config: Config, files: Files, looked: Option<Lookup>, response: seq<char>)
    requires Replies(received, config, files, looked, response)
    ensures !NoEnd(response)
    ensures if FileFound(looked) then |BodyOf(response)| == |files(looked.value.path)| % TWO_TO_THE_32
            else 0 < |BodyOf(response)| < 0x8000_0000
  {
    hide WellFormedResponse, Due, BodyOf, NoEnd, Explains, HasText;
    var h: Head, body: seq<char>, due: seq<char>, contentType: Option<string> :|
      RepliesWith(received, config, files, looked, response, h, body, due, contentType);
    BodyIs(response, h, body);
    DueLength(received, config, files, looked, h, due, contentType);
    if h.status != 200 {
      PageShort(body, h.status);
    }
  }

  lemma DueLength(
    received: seq<char>, config: Config, files: Files, looked: Option<Lookup>, h: Head, due: seq<char>,
    contentType: Option<string>)
    requires Due(received, config, files, looked, h.version, h.status, h.keepAlive, due, contentType)
    ensures FileFound(looked) ==> h.status == 200 && |due| == |files(looked.value.path)| % TWO_TO_THE_32
    ensures !FileFound(looked) && h.status == 200 ==> 0 < |due| < 0x8000_0000
    ensures h.status < 600
  {
    hide Judge, Parse, FullPath, PathOfUrl, TypeOfPath;
    StatusOfHead(received, config);
  }

  lemma PageShort(page: seq<char>, status: nat)
    requires Explains(page, status) && status < TWO_TO_THE_32
    ensures 0 < |page| < 0x8000_0000
  {
    hide HasText, Decimal;
    PageLength();
    DecimalShort(status);
  }

  /** The only responses without a body are those for files whose size is a multiple of 2^32, as 0 is. */
  lemma NoBodyWhen(
    received: seq<char>, config: Config, files: Files, looked: Option<Lookup>, response: seq<char>)
    requires Replies(received, config, files, looked, response)
    ensures !NoEnd(response)
    ensures BodyOf(response) == [] <==> FileFound(looked) && |files(looked.value.path)| % TWO_TO_THE_32 == 0
  {
    hide Replies, BodyOf, NoEnd;
    LengthOfBody(received, config, files, looked, response);
  }

  /** What is sent of a file, if one was found, has a length that the head can say. */
  predicate SizeSaid(looked: Option<Lookup>, files: Files) {
    FileFound(looked) ==> 0 < |files(looked.value.path)| % TWO_TO_THE_32 < 0x8000_0000
  }

  /** The responses that say where they end are those that are not for a file, or for one of such a size. */
  lemma DelimitedWhen(
    received: seq<char>, config: Config, files: Files, looked: Option<Lookup>, response: seq<char>)
    requires Replies(received, config, files, looked, response)
    ensures IsResponse(response) && (Delimited(response) <==> SizeSaid(looked, files))
  {
    hide WellFormedResponse, Due, NoEnd, Explains, HasText, EndOf;
    LengthOfBody(received, config, files, looked, response);
  }

  /** What the parser says of the status. */
  lemma StatusOfHead(received: seq<char>, config: Config)
    ensures Judge(received, config.maxHead).Complete? ==>
              Parse(Judge(received, config.maxHead).head, config.support11, Unset).status in {0, 400, 501}
  {
    hide Judge, Parse;
    if Judge(received, config.maxHead).Complete? {
      ParseRules(Judge(received, config.maxHead).head, config.support11, Unset);
    }
  }

  /**
   The status that a client reads: 403, 404 or 500 for what stat() could not find, 403 for what is neither
   file nor directory, 200 for those; and when the file system was not asked, 414 for a head that did not end
   in time, 501 for a method other than GET and POST, 400 for the rest, and the connection is not kept.
   */
  lemma StatusOnTheWire(
    received: seq<char>, config: Config, files: Files, looked: Option<Lookup>, response: seq<char>)
    requires Replies(received, config, files, looked, response)
    ensures SaidStatus(response) == Some(
      match looked
      case Some(found) =>
        (match found.answer
         case NoAccess => 403
         case Missing => 404
         case StatFailed => 500
         case Special => 403
         case Directory => 200
         case Regular(_) => 200)
      case None =>
        if NoEnd(received) then 414 else if OtherVerb(received[..EndOf(received)]) then 501 else 400)
    ensures looked.None? ==> !SaysKeepAlive(response)
  {
    hide Due, Explains, HasText, PrintHead, SaidStatus, SaysKeepAlive, SaidLength, OtherVerb, NoEnd, EndOf, SaidField;
    hide SaidLine, FirstEnd, Decimal;
    var h: Head, body: seq<char>, due: seq<char>, contentType: Option<string> :|
      RepliesWith(received, config, files, looked, response, h, body, due, contentType);
    DueStatus(received, config, files, looked, h, due, contentType);
  }

  lemma DueStatus(
    received: seq<char>, config: Config, files: Files, looked: Option<Lookup>, h: Head, due: seq<char>,
    contentType: Option<string>)
    requires Due(received, config, files, looked, h.version, h.status, h.keepAlive, due, contentType)
    ensures h.status ==
      match looked
      case Some(found) =>
        (match found.answer
         case NoAccess => 403
         case Missing => 404
         case StatFailed => 500
         case Special => 403
         case Directory => 200
         case Regular(_) => 200)
      case None =>
        if NoEnd(received) then 414 else if OtherVerb(received[..EndOf(received)]) then 501 else 400
    ensures looked.None? ==> !h.keepAlive
  {
    hide Parse, FullPath, PathOfUrl, TypeOfPath, CutSize, NoEnd, OtherVerb;
    if !NoEnd(received) {
      ParseRules(received[..EndOf(received)], config.support11, Unset);
      StatusOfHead(received, config);
    }
  }

  /** The type of a file: that of the first entry whose extension ends its path, in whatever case. */
  ghost predicate FileType(table: seq<Entry>, path: string, said: string) {
    || (exists i: nat ::
          && i < |table| && HasExtension(path, table[i].extension) && said == table[i].mimeType
          && forall k | 0 <= k < i :: !HasExtension(path, table[k].extension))
    || (said == "application/octet-stream" && forall k | 0 <= k < |table| :: !HasExtension(path, table[k].extension))
  }

  lemma FileTypeIs(table: seq<Entry>, path: string, contentType: Option<string>)
    requires TypeOfPath(table, path, contentType)
    ensures FileType(table, path, if contentType.Some? then contentType.value else "application/octet-stream")
  {
    hide Matches, HasExtension;
    forall k | 0 <= k < |table|
      ensures Matches(table[k], path) <==> HasExtension(path, table[k].extension)
    {
      MatchesIs(table[k], path);
    }
  }

  /** What a client reads of type and server: files have the type of their name, and everything else is HTML. */
  lemma TypeOnTheWire(
    received: seq<char>, config: Config, files: Files, looked: Option<Lookup>, response: seq<char>)
    requires Replies(received, config, files, looked, response)
    ensures SaidField(response, "Server: ") == Some(config.serviceName)
    ensures var said := SaidField(response, "Content-Type: ");
            said.Some? && if FileFound(looked) then FileType(config.table, looked.value.path, said.value)
                          else said.value == "text/html"
  {
    hide Due, Explains, HasText, PrintHead, SaidStatus, SaysKeepAlive, SaidLength, NoEnd, SaidField, SaidLine, FirstEnd;
    hide Decimal, FileType;
    var h: Head, body: seq<char>, due: seq<char>, contentType: Option<string> :|
      RepliesWith(received, config, files, looked, response, h, body, due, contentType);
    DueType(received, config, files, looked, h, due, contentType);
  }

  lemma DueType(
    received: seq<char>, config: Config, files: Files, looked: Option<Lookup>, h: Head, due: seq<char>,
    contentType: Option<string>)
    requires Due(received, config, files, looked, h.version, h.status, h.keepAlive, due, contentType)
    ensures FileFound(looked) ==>
              && h.status == 200
              && FileType(config.table, looked.value.path,
                          if contentType.Some? then contentType.value else "application/octet-stream")
    ensures !FileFound(looked) && h.status == 200 ==> contentType == Some("text/html")
  {
    hide Judge, Parse, FullPath, PathOfUrl, CutSize, TypeOfPath, FileType;
    StatusOfHead(received, config);
    if FileFound(looked) {
      FileTypeIs(config.table, looked.value.path, contentType);
    }
  }

  /** The body that goes with what was found, the status and the reason. */
  ghost predicate BodyIsFor(looked: Option<Lookup>, files: Files, status: nat, reason: string, body: seq<char>) {
    if FileFound(looked) then
      reason == "OK" && body == files(looked.value.path)[..|files(looked.value.path)| % TWO_TO_THE_32]
    else if looked.Some? && looked.value.answer.Directory? then
      reason == "OK" && looked.value.page == Some(body)
    else Contains(body, "<h1>" + (Decimal(status) + " - " + reason) + "</h1>")
  }

  /**
   The body that a client reads: the file up to its size in 32 bits, the page of the directory, or a page
   that shows the status and the reason of the status line.
   */
  lemma BodyOnTheWire(
    received: seq<char>, config: Config, files: Files, looked: Option<Lookup>, response: seq<char>)
    requires Replies(received, config, files, looked, response)
    ensures !NoEnd(response) && SaidStatus(response).Some? && SaidLine(response).Some?
    ensures BodyIsFor(looked, files, SaidStatus(response).value, SaidLine(response).value.2, BodyOf(response))
  {
    hide WellFormedResponse, Due, BodyOf, NoEnd, Explains, HasText, SaidStatus, SaidLine, BodyIsFor;
    var h: Head, body: seq<char>, due: seq<char>, contentType: Option<string> :|
      RepliesWith(received, config, files, looked, response, h, body, due, contentType);
    BodyIs(response, h, body);
    LineIs(response, h, body);
    DueBody(received, config, files, looked, h, due, contentType);
    BodyWith(looked, files, h.status, h.text, body, due);
  }

  lemma BodyWith(looked: Option<Lookup>, files: Files, status: nat, text: LineText, body: seq<char>, due: seq<char>)
    requires if FileFound(looked) then status == 200 && due == CutSize(files(looked.value.path))
             else if looked.Some? && looked.value.answer.Directory? then status == 200 && looked.value.page == Some(due)
             else status in {400, 403, 404, 414, 500, 501}
    requires HasText(status, text) && if status == 200 then body == due else Explains(body, status)
    ensures BodyIsFor(looked, files, status, text, body)
  {
    hide Explains, HasText, Decimal, Contains;
    TextsOfAnswers(status, text);
    if status != 200 {
      PageIs(body, status, text);
    }
  }

  lemma LineIs(response: seq<char>, h: Head, body: seq<char>)
    requires WellFormedResponse(response, h, body)
    ensures SaidStatus(response) == Some(h.status) && SaidLine(response).Some?
    ensures SaidLine(response).value.2 == h.text
  {
    hide PrintHead, FirstEnd, SaidField, SaysKeepAlive, SaidLength;
  }

  lemma DueBody(
    received: seq<char>, config: Config, files: Files, looked: Option<Lookup>, h: Head, due: seq<char>,
    contentType: Option<string>)
    requires Due(received, config, files, looked, h.version, h.status, h.keepAlive, due, contentType)
    ensures if FileFound(looked) then h.status == 200 && due == CutSize(files(looked.value.path))
            else if looked.Some? && looked.value.answer.Directory? then
              h.status == 200 && looked.value.page == Some(due)
            else h.status in {400, 403, 404, 414, 500, 501}
  {
    hide Judge, Parse, FullPath, PathOfUrl, CutSize, TypeOfPath;
    StatusOfHead(received, config);
  }

  lemma PageIs(page: seq<char>, status: nat, text: LineText)
    requires Explains(page, status) && HasText(status, text) && status in {400, 403, 404, 414, 500, 501}
    ensures Contains(page, "<h1>" + (Decimal(status) + " - " + text) + "</h1>")
  {
    hide HasText, Decimal, Contains, ErrorPage;
    var title: LineText :| HasText(status, title) && page == ErrorPage(status, title);
    TextsOfAnswers(status, title);
    TextsOfAnswers(status, text);
    PageShows(status, text);
  }

  /**
   The version that a client reads and whether the connection goes on are what the parser said of the
   request's head; a head that did not end in time gets HTTP/1.0 and the connection is not kept.
   */
  lemma VersionOnTheWire(
    received: seq<char>, config: Config, files: Files, looked: Option<Lookup>, response: seq<char>)
    requires Replies(received, config, files, looked, response)
    ensures SaidLine(response).Some?
    ensures var word := SaidLine(response).value.0;
            if NoEnd(received) then word == "HTTP/1.0" && !SaysKeepAlive(response)
            else
              var p := Parse(received[..EndOf(received)], config.support11, Unset);
              && word == (if p.version == Http11 then "HTTP/1.1" else "HTTP/1.0")
              && (SaysKeepAlive(response) <==> p.keepAlive)
  {
    hide Handled, Explains, HasText, PrintHead, SaysKeepAlive, SaidLength, NoEnd, EndOf, SaidField;
    hide SaidLine, FirstEnd, Decimal, Parse;
    var h: Head, body: seq<char>, due: seq<char>, contentType: Option<string> :|
      RepliesWith(received, config, files, looked, response, h, body, due, contentType);
  }

  /** A request with nothing but a host. */
  function PlainRequest(url: string): string {
    PrintRequest("GET", url, "HTTP/1.1", [Header("Host", "", "h")])
  }

  predicate PlainUrl(url: string) {
    ' ' !in url && '\0' !in url && '\r' !in url
  }

  lemma PlainIsComplete(url: string, max: nat)
    requires PlainUrl(url)
    ensures Judge(PlainRequest(url), max) == Complete(PlainRequest(url))
  {
    hide Judge, FirstEnd;
    var lines := [PrintLine("GET", url, "HTTP/1.1"), "Host:h"];
    PlainLines(url, lines);
    HeadEnds(lines, "");
    JudgeComplete(PlainRequest(url), max, |PrintLines(lines)| + 2);
    assert PlainRequest(url)[..|PrintLines(lines)| + 2] == PlainRequest(url);
  }

  lemma PlainLines(url: string, lines: seq<string>)
    requires lines == [PrintLine("GET", url, "HTTP/1.1"), "Host:h"] && PlainUrl(url)
    ensures PrintLines(lines) + (CRLF + "") == PlainRequest(url) && forall l | l in lines :: HeadLine(l)
  {
    var h := Header("Host", "", "h");
    assert PrintHeader(h) == "Host:h" + CRLF;
    assert PrintHeaders([h]) == PrintHeader(h) + PrintHeaders([h][1..]) == PrintHeader(h);
    assert PrintLines(lines[1..]) == "Host:h" + CRLF + PrintLines(lines[1..][1..]) == "Host:h" + CRLF;
    assert PrintLines(lines) == lines[0] + CRLF + ("Host:h" + CRLF);
  }

  lemma PlainIsParsed(url: string)
    requires PlainUrl(url)
    ensures Parse(PlainRequest(url), true, Unset) ==
              Parsed(true, 0, true, Some("GET"), Some(url), Http11, Options(Unset, Some("h"), None))
  {
    hide Parse, PrintRequest;
    var hs := [Header("Host", "", "h")];
    assert hs[..0] == [];
    assert Lower("Host"[0]) == 'h' && Lower(CONNECTION_KEY[0]) == 'c' && Lower("Range"[0]) == 'r';
    RequestRoundTrips("GET", url, "HTTP/1.1", hs, true);
  }

  /**
   A plain request for a path, with or without a query or a fragment behind it: what is looked for is the
   path below the root directory, and the connection is kept.
   */
  lemma PlainIsLookedFor(
    path: string, tail: string, config: Config, files: Files, looked: Option<Lookup>, response: seq<char>)
    requires config.support11 && PlainUrl(path) && PlainUrl(tail) && '#' !in path && '?' !in path
    requires tail == "" || tail[0] == '#' || tail[0] == '?'
    requires Replies(PlainRequest("/" + path + tail), config, files, looked, response)
    ensures looked.Some? && looked.value.path == config.rootDir + "/" + path
    ensures SaysKeepAlive(response) && SaidLine(response).Some? && SaidLine(response).value.0 == "HTTP/1.1"
  {
    hide Parse, FullPath, PathOfUrl, PlainRequest, SaysKeepAlive, SaidLine, NoEnd, EndOf, Replies;
    var url := "/" + path + tail;
    PlainIsComplete(url, config.maxHead);
    PlainIsParsed(url);
    PathLookedFor(path, tail, config.rootDir);
    VersionOnTheWire(PlainRequest(url), config, files, looked, response);
    LookedFor(PlainRequest(url), config, files, looked, response);
  }

  lemma PathLookedFor(path: string, tail: string, rootDir: string)
    requires '#' !in path && '?' !in path && (tail == "" || tail[0] == '#' || tail[0] == '?')
    ensures FullPath(rootDir, PathOfUrl("/" + path + tail)) == rootDir + "/" + path
  {
    hide PathOfUrl, FullPath;
    var whole := "/" + path;
    FullPathIs(rootDir, path);
    if tail == "" {
      assert whole + tail == whole;
      PathOfUrlIs(whole);
      var cut := PathOfUrl(whole);
      assert '#' !in whole && '?' !in whole;
      assert whole[..|cut|] == cut && whole[..|whole|] == whole;
    } else {
      assert whole + tail == whole + [tail[0]] + tail[1..];
      QueryAndFragmentIgnored(whole, tail[0], tail[1..]);
    }
  }

  /** What the file system is asked for a request that could be read. */
  lemma LookedFor(
    received: seq<char>, config: Config, files: Files, looked: Option<Lookup>, response: seq<char>)
    requires Replies(received, config, files, looked, response) && Judge(received, config.maxHead).Complete?
    requires var p := Parse(Judge(received, config.maxHead).head, config.support11, Unset);
             p.status == 0 && p.url.Some?
    ensures var p := Parse(Judge(received, config.maxHead).head, config.support11, Unset);
            looked.Some? && looked.value.path == FullPath(config.rootDir, PathOfUrl(p.url.value))
  {
    hide WellFormedResponse, Explains, HasText, Judge, Parse, FullPath, PathOfUrl, TypeOfPath, CutSize;
  }

  /** What stat() says of a file. */
  function FoundFile(config: Config, url: string, size: nat): Lookup {
    Lookup(FullPath(config.rootDir, PathOfUrl(url)), Regular(size), None)
  }

  /** The head of the response to a plain request for a file. */
  function FileHead(config: Config, size: nat, contentType: Option<string>, date: string): Head {
    Head(Http11, 200, "OK", true, Wrap(size), contentType, date, config.serviceName)
  }

  /** The response to a plain request for a file. */
  function FileResponse(config: Config, bytes: seq<char>, contentType: Option<string>, date: string): seq<char> {
    PrintHead(FileHead(config, |bytes|, contentType, date)) + CutSize(bytes)
  }

  ghost predicate Servable(config: Config, files: Files, url: string, contentType: Option<string>, date: string) {
    && config.Valid() && config.support11 && PlainUrl(url) && '\r' !in date
    && TypeOfPath(config.table, FullPath(config.rootDir, PathOfUrl(url)), contentType)
  }

  lemma PlainIsDue(config: Config, files: Files, url: string, contentType: Option<string>, date: string)
    requires Servable(config, files, url, contentType, date)
    ensures var bytes := files(FullPath(config.rootDir, PathOfUrl(url)));
            Due(PlainRequest(url), config, files, Some(FoundFile(config, url, |bytes|)), Http11, 200, true,
                CutSize(bytes), contentType)
  {
    hide Judge, Parse, FullPath, PathOfUrl, TypeOfPath, PlainRequest, PlainUrl, CutSize;
    PlainIsComplete(url, config.maxHead);
    PlainIsParsed(url);
  }

  /** Whatever the size of the file, this is how a plain request for it is answered. */
  lemma FileIsReplied(config: Config, files: Files, url: string, contentType: Option<string>, date: string)
    requires Servable(config, files, url, contentType, date)
    ensures var bytes := files(FullPath(config.rootDir, PathOfUrl(url)));
            var response := FileResponse(config, bytes, contentType, date);
            && Replies(PlainRequest(url), config, files, Some(FoundFile(config, url, |bytes|)), response)
            && SaysKeepAlive(response) && WellFormedResponse(response, FileHead(config, |bytes|, contentType, date),
                                                             CutSize(bytes))
  {
    hide PrintHead, WellFormedResponse, FullPath, PathOfUrl, TypeOfPath, PlainRequest, Due, SaysKeepAlive, Parse, Judge;
    hide HasText, CutSize, Servable, Head.Valid;
    var bytes := files(FullPath(config.rootDir, PathOfUrl(url)));
    var body := CutSize(bytes);
    var h, response := FileHead(config, |bytes|, contentType, date), FileResponse(config, bytes, contentType, date);
    FileHeadValid(config, files, url, contentType, date);
    TextOfSuccess();
    PlainIsDue(config, files, url, contentType, date);
    ResponseIsWellFormed(h, body);
    assert RepliesWith(PlainRequest(url), config, files, Some(FoundFile(config, url, |bytes|)), response, h, body, body,
                       contentType);
    HeadSaysWhatWasMeant(h, body);
  }

  lemma FileHeadValid(config: Config, files: Files, url: string, contentType: Option<string>, date: string)
    requires Servable(config, files, url, contentType, date)
    ensures var bytes := files(FullPath(config.rootDir, PathOfUrl(url)));
            FileHead(config, |bytes|, contentType, date).Valid() && |CutSize(bytes)| == Wrap(|bytes|)
  {
    hide FullPath, PathOfUrl, TypeOfPath;
    TypeStays(config, FullPath(config.rootDir, PathOfUrl(url)), contentType);
  }

  lemma TextOfSuccess()
    ensures HasText(200, "OK")
  {
    assert SUCCESSFUL[0] == Status(200, "OK");
  }

  lemma TypeStays(config: Config, path: string, contentType: Option<string>)
    requires config.Valid() && TypeOfPath(config.table, path, contentType)
    ensures contentType.Some? ==> '\r' !in contentType.value
  {
    if contentType.Some? {
      var i: nat :| FirstMatch(config.table, path, i) && contentType == Some(config.table[i].mimeType);
      assert i < |config.table| && config.table[i] in config.table;
    }
  }

  /**
   A file whose size the head cannot say: the connection is kept, and a client takes all that is sent next
   for the body as well.
   */
  lemma RunsOn(
    config: Config, files: Files, url: string, contentType: Option<string>, date: string, next: seq<char>)
    requires Servable(config, files, url, contentType, date)
    requires !(0 < |files(FullPath(config.rootDir, PathOfUrl(url)))| % TWO_TO_THE_32 < 0x8000_0000)
    ensures var bytes := files(FullPath(config.rootDir, PathOfUrl(url)));
            var response := FileResponse(config, bytes, contentType, date);
            && Replies(PlainRequest(url), config, files, Some(FoundFile(config, url, |bytes|)), response)
            && SaysKeepAlive(response) && !NoEnd(response + next)
            && FirstResponseEnd(response + next) == |response + next|
  {
    hide PrintHead, FullPath, PathOfUrl, TypeOfPath, PlainRequest, Replies, SaysKeepAlive, Parse, Judge, NoEnd, EndOf;
    hide SaidLength, FirstEnd, Config.Valid, FirstResponseEnd, Delimited, IsResponse;
    var bytes := files(FullPath(config.rootDir, PathOfUrl(url)));
    var response := FileResponse(config, bytes, contentType, date);
    FileIsReplied(config, files, url, contentType, date);
    DelimitedWhen(PlainRequest(url), config, files, Some(FoundFile(config, url, |bytes|)), response);
    ResponseIsRead(response, next);
  }

  /** What the head of a file response says of the length. */
  lemma LengthSaid(config: Config, files: Files, url: string, contentType: Option<string>, date: string)
    requires Servable(config, files, url, contentType, date)
    ensures var bytes := files(FullPath(config.rootDir, PathOfUrl(url)));
            SaidLength(FileResponse(config, bytes, contentType, date)) ==
              if Wrap(|bytes|) == 0 then None else Some(Decimal(ToInt32(Wrap(|bytes|))))
  {
    hide PrintHead, FullPath, PathOfUrl, TypeOfPath, PlainRequest, Replies, SaysKeepAlive, Parse, Judge, NoEnd, EndOf;
    hide SaidLength, FirstEnd, Config.Valid, Decimal;
    FileIsReplied(config, files, url, contentType, date);
  }

  /** The empty file runs on: its head says no length. */
  lemma EmptyFileRunsOn(
    config: Config, files: Files, url: string, contentType: Option<string>, date: string, next: seq<char>)
    requires Servable(config, files, url, contentType, date) && next != []
    requires files(FullPath(config.rootDir, PathOfUrl(url))) == []
    ensures var response := FileResponse(config, [], contentType, date);
            && Replies(PlainRequest(url), config, files, Some(FoundFile(config, url, 0)), response)
            && SaysKeepAlive(response) && SaidLength(response).None? && !NoEnd(response + next)
            && FirstResponseEnd(response + next) == |response + next| > |response|
  {
    hide FileResponse, FullPath, PathOfUrl, PlainRequest, Replies, SaysKeepAlive, NoEnd, SaidLength, Servable;
    hide FirstResponseEnd, Decimal;
    RunsOn(config, files, url, contentType, date, next);
    LengthSaid(config, files, url, contentType, date);
  }

  /** A file of 2 GiB runs on: its head says a negative number. */
  lemma HugeFileRunsOn(
    config: Config, files: Files, url: string, contentType: Option<string>, date: string, next: seq<char>)
    requires Servable(config, files, url, contentType, date) && next != []
    requires |files(FullPath(config.rootDir, PathOfUrl(url)))| == 0x8000_0000
    ensures var bytes := files(FullPath(config.rootDir, PathOfUrl(url)));
            var response := FileResponse(config, bytes, contentType, date);
            && Replies(PlainRequest(url), config, files, Some(FoundFile(config, url, 0x8000_0000)), response)
            && SaysKeepAlive(response) && SaidLength(response) == Some("-2147483648") && !NoEnd(response + next)
            && FirstResponseEnd(response + next) == |response + next| > |response|
  {
    hide FileResponse, FullPath, PathOfUrl, PlainRequest, Replies, SaysKeepAlive, NoEnd, SaidLength, Servable;
    hide FirstResponseEnd, Decimal;
    RunsOn(config, files, url, contentType, date, next);
    LengthSaid(config, files, url, contentType, date);
    MinusTwoGiB();
  }

  lemma MinusTwoGiB()
    ensures Decimal(ToInt32(0x8000_0000)) == "-2147483648"
  {
    hide DecimalNat;
    SixDigits();
    OneMoreDigit(2147483, "214748", "2147483");
    OneMoreDigit(21474836, "2147483", "21474836");
    OneMoreDigit(214748364, "21474836", "214748364");
    OneMoreDigit(2147483648, "214748364", "2147483648");
    assert ToInt32(0x8000_0000) + 0x8000_0000 == 0;
  }

  lemma SixDigits()
    ensures DecimalNat(214748) == "214748"
  {
    hide DecimalNat;
    TwoDigits();
    OneMoreDigit(214, "21", "214");
    OneMoreDigit(2147, "214", "2147");
    OneMoreDigit(21474, "2147", "21474");
    OneMoreDigit(214748, "21474", "214748");
  }

  lemma TwoDigits()
    ensures DecimalNat(21) == "21"
  {
    assert DecimalNat(2) == "2";
  }

  lemma OneMoreDigit(n: nat, init: string, s: string)
    requires n >= 10 && DecimalNat(n / 10) == init && s == init + [Digit(n % 10)]
    ensures DecimalNat(n) == s
  {
  }

  /** A file of 2^32 bytes is served without any of them. */
  lemma BigFileIsCut(config: Config, files: Files, url: string, contentType: Option<string>, date: string)
    requires Servable(config, files, url, contentType, date)
    requires |files(FullPath(config.rootDir, PathOfUrl(url)))| == TWO_TO_THE_32
    ensures var bytes := files(FullPath(config.rootDir, PathOfUrl(url)));
            var response := FileResponse(config, bytes, contentType, date);
            && Replies(PlainRequest(url), config, files, Some(FoundFile(config, url, |bytes|)), response)
            && !NoEnd(response) && BodyOf(response) == []
  {
    hide PrintHead, FullPath, PathOfUrl, TypeOfPath, PlainRequest, Replies, SaysKeepAlive, Parse, Judge, NoEnd, BodyOf;
    hide WellFormedResponse, Config.Valid;
    var bytes := files(FullPath(config.rootDir, PathOfUrl(url)));
    FileIsReplied(config, files, url, contentType, date);
    BodyIs(FileResponse(config, bytes, contentType, date), FileHead(config, |bytes|, contentType, date), []);
  }

  /** The length of a head whose Content-Length is a negative number of three digits. */
  lemma NegativeHead(h: Head, n: nat)
    requires h.version == Http11 && h.status == 200 && h.text == "OK" && h.keepAlive && h.contentType.None?
    requires 100 <= n < 1000 && h.contentLength == TWO_TO_THE_32 - n
    ensures |PrintHead(h)| == 99 + |h.date| + |h.service|
  {
    hide PrintLines;
    assert ToInt32(h.contentLength) + n == 0;
    ThreeDigits(n);
    ThreeDigits(200);
    var lines := [StatusLine(h)] + FieldLines(h);
    assert lines == [StatusLine(h), LengthLines(h)[0], TailLines(h)[0], TailLines(h)[1], TailLines(h)[2]];
    FiveLines(lines);
  }

  lemma ThreeDigits(n: nat)
    requires 100 <= n < 1000
    ensures |DecimalNat(n)| == 3
  {
    assert |DecimalNat(n / 10 / 10)| == 1;
    assert |DecimalNat(n / 10)| == 2;
  }

  lemma FiveLines(lines: seq<string>)
    requires |lines| == 5
    ensures |PrintLines(lines)| == |lines[0]| + |lines[1]| + |lines[2]| + |lines[3]| + |lines[4]| + 10
  {
    LineAndMore(lines);
    LineAndMore(lines[1..]);
    LineAndMore(lines[2..]);
    LineAndMore(lines[3..]);
    LineAndMore(lines[4..]);
  }

  lemma LineAndMore(lines: seq<string>)
    requires lines != []
    ensures |PrintLines(lines)| == |lines[0]| + 2 + |PrintLines(lines[1..])|
    ensures |lines| == 1 ==> |PrintLines(lines[1..])| == 0
    ensures |lines| > 1 ==> lines[1..][1..] == lines[2..]
  {
  }

  /**
   The response whose length 32 bits take for 0, for every date and server name of ordinary length: that to
   a file without a known type that has 2^32 bytes less than the head.
   */
  lemma UnsentResponse(config: Config, files: Files, url: string, date: string)
    requires Servable(config, files, url, None, date)
    requires 1 <= |date| + |config.serviceName| <= 900
    requires var path := FullPath(config.rootDir, PathOfUrl(url));
             |files(path)| == TWO_TO_THE_32 - (99 + |date| + |config.serviceName|)
    ensures var bytes := files(FullPath(config.rootDir, PathOfUrl(url)));
            var response := FileResponse(config, bytes, None, date);
            && Replies(PlainRequest(url), config, files, Some(FoundFile(config, url, |bytes|)), response)
            && |response| == TWO_TO_THE_32
  {
    hide PrintHead, FullPath, PathOfUrl, TypeOfPath, PlainRequest, Replies, SaysKeepAlive, Parse, Judge;
    hide WellFormedResponse, Config.Valid;
    var bytes := files(FullPath(config.rootDir, PathOfUrl(url)));
    FileIsReplied(config, files, url, None, date);
    NegativeHead(FileHead(config, |bytes|, None, date), 99 + |date| + |config.serviceName|);
  }

  /**
   No response is 2^32 bytes long, and only the last of the exchanges, with nothing behind it, may be about
   a file whose size the head cannot say.
   */
  ghost predicate AllServed(history: seq<Exchange>, files: Files, tail: seq<char>) {
    forall i | 0 <= i < |history| ::
      && |history[i].response| != TWO_TO_THE_32
      && (SizeSaid(history[i].looked, files) || (i == |history| - 1 && tail == []))
  }

  /**
   What a client reads from all that was sent: the responses of the exchanges, and the front part of the
   one being sent once its head is complete. It does if and only if no response is 2^32 bytes long and
   none but the last is for a file whose size, in 32 bits, is 0 or 2^31 or more.
   */
  lemma PeerReads(
    config: Config, files: Files, accepted: seq<char>, history: seq<Exchange>, over: bool, current: seq<char>,
    taken: seq<char>)
    requires Delivered(accepted, history, current, taken) && Kept(history, config, files, over)
    requires current == [] || IsResponse(current)
    ensures ReadResponses(accepted) == Responses(history) + (if NoEnd(taken) then [] else [taken]) <==>
              AllServed(history, files, taken)
  {
    hide IsResponse, Replies, SaysKeepAlive, Delimited, ReadResponses, Said, Responses, NoEnd, SizeSaid;
    forall i | 0 <= i < |history|
      ensures history[i].sent == history[i].response || history[i].sent == []
      ensures history[i].sent == history[i].response <==> |history[i].response| != TWO_TO_THE_32
      ensures IsResponse(history[i].response)
      ensures Delimited(history[i].response) <==> SizeSaid(history[i].looked, files)
    {
      var x := history[i];
      DelimitedWhen(x.request, config, files, x.looked, x.response);
    }
    ClientReadsHistory(history, taken);
    if current != [] {
      FrontIsRead(current, taken);
    } else {
      NothingSaid();
    }
  }
}
