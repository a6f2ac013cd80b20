/** Building the response head and the error page in buffers, one append after the other. */
module ResponsePrinters {
  import opened Words
  import opened Buffers
  import opened CStrings
  import opened Requests
  import opened KeyMaps
  import opened ResponseHeads

  /** A decimal of 32 bits takes at most eleven characters. */
  lemma DecimalShort(n: int)
    requires -TWO_TO_THE_32 < n < TWO_TO_THE_32
    ensures |Decimal(n)| <= 11
  {
    assert Power10(10) == 10000000000;
    DecimalLength(if n < 0 then -n else n, 10);
  }

  lemma {:induction false} PrintLinesSnoc(lines: seq<string>, line: string)
    ensures PrintLines(lines + [line]) == PrintLines(lines) + (line + CRLF)
  {
    if lines == [] {
      assert PrintLines([line]) == line + CRLF + PrintLines([line][1..]);
    } else {
      PrintLinesSnoc(lines[1..], line);
      assert (lines + [line])[1..] == lines[1..] + [line];
    }
  }

  /** More lines are longer. */
  lemma {:induction false} PrintLinesGrow(lines: seq<string>, all: seq<string>)
    requires lines <= all
    ensures |PrintLines(lines)| <= |PrintLines(all)|
    decreases |all|
  {
    if lines != [] {
      PrintLinesGrow(lines[1..], all[1..]);
    }
  }

  /** The buffer holds these lines, the CR LF of the last one missing. */
  ghost predicate HoldsLines(b: Buffer, lines: seq<string>)
    reads b, b.ptr
  {
    b.Valid() && b.Contents() + CRLF == PrintLines(lines)
  }

  /** Starts a new line with a field. */
  method AppendLine(b: Buffer, field: string, value: string, ghost lines: seq<string>, ghost all: seq<string>)
    requires HoldsLines(b, lines) && lines + [field + value] <= all && |PrintLines(all)| <= MAX_ALIGNED
    modifies b.Repr()
    ensures HoldsLines(b, lines + [field + value]) && fresh(b.Repr() - old(b.Repr()))
  {
    hide PrintLines;
    PrintLinesSnoc(lines, field + value);
    PrintLinesGrow(lines + [field + value], all);
    b.AppendStringLength(CRLF + field);
    b.AppendStringLength(value);
    assert old(b.Contents()) + (CRLF + field) + value + CRLF == (old(b.Contents()) + CRLF) + (field + value + CRLF);
  }

  method AppendThree(b: Buffer, first: string, second: string, third: string)
    requires b.Valid() && b.usedBytes == 0 && |first| + |second| + |third| <= 100
    modifies b.Repr()
    ensures b.Valid() && fresh(b.Repr() - old(b.Repr())) && b.Contents() == first + second + third
  {
    b.AppendStringLength(first);
    assert b.Contents() == first;
    b.AppendStringLength(second);
    b.AppendStringLength(third);
  }

  /** The status line. */
  method StartHead(version: Version, status: Uint32, text: LineText) returns (b: Buffer, ghost line: string)
    ensures fresh(b) && fresh(b.Repr()) && HoldsLines(b, [line])
    ensures line == ProtoWord(version) + " " + Decimal(status) + " " + text
  {
    hide Decimal;
    line := ProtoWord(version) + " " + Decimal(status) + " " + text;
    DecimalShort(status);
    b := new Buffer();
    AppendThree(b, if version == Http11 then "HTTP/1.1 " else "HTTP/1.0 ", Decimal(status) + " ", text);
    assert b.Contents() == line;
    assert PrintLines([line]) == line + CRLF + PrintLines([line][1..]);
  }

  /** The lines that end every head. */
  method AppendTail(b: Buffer, h: Head, ghost lines: seq<string>)
    requires HoldsLines(b, lines) && |PrintLines(lines + TailLines(h))| <= MAX_ALIGNED
    modifies b.Repr()
    ensures HoldsLines(b, lines + TailLines(h)) && fresh(b.Repr() - old(b.Repr()))
  {
    hide HoldsLines, PrintLines;
    ghost var all := lines + TailLines(h);
    var contentType := if h.contentType.Some? then h.contentType.value else "application/octet-stream";
    AppendLine(b, TYPE_FIELD, contentType, lines, all);
    AppendLine(b, DATE_FIELD, h.date, lines + [TYPE_FIELD + contentType], all);
    AppendLine(b, SERVER_FIELD, h.service, lines + [TYPE_FIELD + contentType] + [DATE_FIELD + h.date], all);
    assert lines + [TYPE_FIELD + contentType] + [DATE_FIELD + h.date] + [SERVER_FIELD + h.service] == all;
  }

  /** connection_write_response_head() up to the finished buffer, for a head whose length does not wrap. */
  method WriteResponseHead(h: Head) returns (b: Buffer)
    requires h.status < TWO_TO_THE_32 && |PrintHead(h)| + 2 <= MAX_ALIGNED
    ensures fresh(b) && fresh(b.Repr()) && b.Valid() && b.Contents() == PrintHead(h)
  {
    hide PrintLines, HoldsLines, Decimal, TailLines;
    ghost var line;
    b, line := StartHead(h.version, h.status, h.text);
    ghost var lines, all := [line], [StatusLine(h)] + FieldLines(h);
    if h.version != Http11 || !h.keepAlive {
      AppendLine(b, CONNECTION_FIELD, if h.keepAlive then "keep-alive" else "close", lines, all);
      lines := lines + ConnectionLines(h);
    }
    assert lines == [StatusLine(h)] + ConnectionLines(h);
    if h.contentLength > 0 {
      AppendLine(b, LENGTH_FIELD, Decimal(ToInt32(h.contentLength)), lines, all);
      lines := lines + LengthLines(h);
    }
    assert lines == [StatusLine(h)] + ConnectionLines(h) + LengthLines(h);
    assert lines + TailLines(h) == all;
    AppendTail(b, h, lines);
    EndHead(b, all);
  }

  /** The empty line. */
  method EndHead(b: Buffer, ghost lines: seq<string>)
    requires HoldsLines(b, lines) && |PrintLines(lines)| + 4 <= MAX_ALIGNED
    modifies b.Repr()
    ensures b.Valid() && b.Contents() == PrintLines(lines) + CRLF && fresh(b.Repr() - old(b.Repr()))
  {
    hide PrintLines;
    b.AppendStringLength(CRLF + CRLF);
    assert old(b.Contents()) + (CRLF + CRLF) == (old(b.Contents()) + CRLF) + CRLF;
  }

  /** A head is hardly longer than its service name, type and date. */
  lemma HeadLength(h: Head)
    requires h.status < TWO_TO_THE_32
    ensures 0 < |PrintHead(h)| < 300 + |h.service| + |h.date| + if h.contentType.Some? then |h.contentType.value| else 0
  {
    hide PrintLines, Decimal;
    DecimalShort(h.status);
    DecimalShort(ToInt32(h.contentLength));
    var front := [StatusLine(h)] + ConnectionLines(h) + LengthLines(h);
    FrontLength(h);
    var lines := TailLines(h);
    PrintLinesSnoc(front, lines[0]);
    PrintLinesSnoc(front + [lines[0]], lines[1]);
    PrintLinesSnoc(front + [lines[0]] + [lines[1]], lines[2]);
    assert [StatusLine(h)] + FieldLines(h) == front + [lines[0]] + [lines[1]] + [lines[2]];
  }

  lemma FrontLength(h: Head)
    requires |Decimal(h.status)| <= 11 && |Decimal(ToInt32(h.contentLength))| <= 11
    ensures |PrintLines([StatusLine(h)] + ConnectionLines(h) + LengthLines(h))| <= 200
  {
    hide PrintLines, Decimal;
    NoLines();
    var lines := [StatusLine(h)];
    PrintLinesSnoc([], StatusLine(h));
    assert [] + lines == lines;
    AtMostOne(lines, ConnectionLines(h));
    AtMostOne(lines + ConnectionLines(h), LengthLines(h));
  }

  lemma AtMostOne(lines: seq<string>, more: seq<string>)
    requires |more| <= 1
    ensures |PrintLines(lines + more)| == |PrintLines(lines)| + if more == [] then 0 else |more[0]| + 2
  {
    if more == [] {
      assert lines + more == lines;
    } else {
      assert more == [more[0]];
      PrintLinesSnoc(lines, more[0]);
    }
  }

  lemma NoLines()
    ensures PrintLines([]) == ""
  {
  }

  const PAGE_START :=
    "<?xml version=\"1.0\" encoding=\"iso-8859-1\"?>\n" +
    "<!DOCTYPE html PUBLIC \"-//W3C//DTD XHTML 1.0 Transitional//EN\"\n" +
    "         \"http://www.w3.org/TR/xhtml1/DTD/xhtml1-transitional.dtd\">\n" +
    "<html xmlns=\"http://www.w3.org/1999/xhtml\" xml:lang=\"en\" lang=\"en\">\n" +
    " <head>\n" +
    "  <title>"

  const PAGE_MIDDLE := "</title>\n" + " </head>\n" + " <body>\n" + "  <h1>"

  const PAGE_END := "</h1>\n" + " </body>\n" + "</html>\n"

  /** The page that explains an error status. */
  function ErrorPage(status: nat, text: string): string {
    PAGE_START + (Decimal(status) + " - " + text) + PAGE_MIDDLE + (Decimal(status) + " - " + text) + PAGE_END
  }

  ghost predicate Contains(s: string, t: string) {
    exists front: string, back: string :: s == front + t + back
  }

  /** The title and the heading of the page are the status, which reads back as a number, and its text. */
  lemma PageShows(status: nat, text: string)
    ensures var title := Decimal(status) + " - " + text;
            && Contains(ErrorPage(status, text), "<title>" + title + "</title>")
            && Contains(ErrorPage(status, text), "<h1>" + title + "</h1>")
    ensures IsNumber(Decimal(status)) && Number(Decimal(status)) == status
  {
    hide Decimal, Contains;
    DecimalIsNumber(status);
    PageParts();
    ShowsTwice(PAGE_START, PAGE_MIDDLE, PAGE_END, Decimal(status) + " - " + text);
  }

  lemma ShowsTwice(start: string, middle: string, end: string, title: string)
    requires |start| >= 7 && start == start[..|start| - 7] + "<title>"
    requires |middle| >= 12 && middle == "</title>" + middle[8..] && middle == middle[..|middle| - 4] + "<h1>"
    requires |end| >= 5 && end == "</h1>" + end[5..]
    ensures Contains(start + title + middle + title + end, "<title>" + title + "</title>")
    ensures Contains(start + title + middle + title + end, "<h1>" + title + "</h1>")
  {
    var page := start + title + middle + title + end;
    Inside(page, start[..|start| - 7], "<title>" + title + "</title>", middle[8..] + title + end);
    Inside(page, start + title + middle[..|middle| - 4], "<h1>" + title + "</h1>", end[5..]);
  }

  lemma PageParts()
    ensures |PAGE_START| >= 7 && PAGE_START == PAGE_START[..|PAGE_START| - 7] + "<title>"
    ensures |PAGE_MIDDLE| >= 12 && PAGE_MIDDLE == "</title>" + PAGE_MIDDLE[8..]
    ensures PAGE_MIDDLE == PAGE_MIDDLE[..|PAGE_MIDDLE| - 4] + "<h1>"
    ensures |PAGE_END| >= 5 && PAGE_END == "</h1>" + PAGE_END[5..]
  {
  }

  lemma Inside(s: string, front: string, t: string, back: string)
    requires s == front + t + back
    ensures Contains(s, t)
  {
  }

  lemma DecimalIsNumber(n: nat)
    ensures IsNumber(Decimal(n)) && Number(Decimal(n)) == n
  {
  }

  lemma PageLength()
    ensures 0 < |PAGE_START| < 0x1000 && |PAGE_MIDDLE| < 0x1000 && |PAGE_END| < 0x1000
  {
  }

  /** The appends of the page; its title stands in it twice. */
  method AppendPage(b: Buffer, start: string, title: string, middle: string, end: string)
    requires b.Valid() && b.usedBytes == 0
    requires 0 < |start| < 0x1000 && |title| < 0x1000 && |middle| < 0x1000 && |end| < 0x1000
    modifies b.Repr()
    ensures b.Valid() && fresh(b.Repr() - old(b.Repr()))
    ensures b.Contents() == start + title + middle + title + end && 0 < |b.Contents()| < 0x1_0000
  {
    b.AppendStringLength(start);
    assert b.Contents() == start;
    b.AppendStringLength(title);
    b.AppendStringLength(middle);
    b.AppendStringLength(title);
    b.AppendStringLength(end);
  }

  method WriteErrorPage(status: Uint32, text: LineText) returns (b: Buffer)
    ensures fresh(b) && fresh(b.Repr()) && b.Valid() && b.Contents() == ErrorPage(status, text)
    ensures 0 < |b.Contents()| < 0x1_0000
  {
    DecimalShort(status);
    PageLength();
    b := new Buffer();
    AppendPage(b, PAGE_START, Decimal(status) + " - " + text, PAGE_MIDDLE, PAGE_END);
  }
}
