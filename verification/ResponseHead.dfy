/** The response head: what is printed, where it ends, and what a client reads in it. */
module ResponseHeads {
  import opened Words
  import opened CStrings
  import opened Requests
  import opened Terminators
  import opened KeyMaps
  import opened RequestRoundTrip

  function Digit(d: nat): char
    requires d < 10
  {
    ('0' as int + d) as char
  }

  function DecimalNat(n: nat): (s: string)
    ensures s != "" && (forall i | 0 <= i < |s| :: IsDigit(s[i])) && Number(s) == n
  {
    if n < 10 then
      assert Number([Digit(n)][..0]) == 0;
      [Digit(n)]
    else
      var init, d := DecimalNat(n / 10), Digit(n % 10);
      assert (init + [d])[..|init|] == init;
      init + [d]
  }

  /** printf("%d"). */
  function Decimal(n: int): (s: string)
    ensures s != "" && '\r' !in s
  {
    if n < 0 then "-" + DecimalNat(-n) else DecimalNat(n)
  }

  /** A decimal below 2^31 has at most ten digits, so the 32-byte buffers of the printer hold it. */
  lemma {:induction false} DecimalLength(n: nat, k: nat)
    requires k >= 1 && n < Power10(k)
    ensures |DecimalNat(n)| <= k
    decreases k
  {
    if n >= 10 {
      DecimalLength(n / 10, k - 1);
    }
  }

  function Power10(k: nat): nat {
    if k == 0 then 1 else 10 * Power10(k - 1)
  }

  /** What the head depends on. */
  datatype Head = Head(
    version: Version, status: nat, text: LineText, keepAlive: bool, contentLength: Uint32,
    contentType: Option<string>, date: string, service: string)
  {
    /** The date, the type and the service name stay on their lines. */
    predicate Valid() {
      '\r' !in date && '\r' !in service && (contentType.Some? ==> '\r' !in contentType.value)
    }
  }

  function ProtoWord(v: Version): string {
    if v == Http11 then "HTTP/1.1" else "HTTP/1.0"
  }

  function StatusLine(h: Head): string {
    ProtoWord(h.version) + " " + Decimal(h.status) + " " + h.text
  }

  const CONNECTION_FIELD := "Connection: "
  const LENGTH_FIELD := "Content-Length: "
  const TYPE_FIELD := "Content-Type: "
  const DATE_FIELD := "Date: "
  const SERVER_FIELD := "Server: "

  function ConnectionLines(h: Head): seq<string> {
    if h.version == Http11 && h.keepAlive then []
    else [CONNECTION_FIELD + if h.keepAlive then "keep-alive" else "close"]
  }

  function LengthLines(h: Head): seq<string> {
    if h.contentLength > 0 then [LENGTH_FIELD + Decimal(ToInt32(h.contentLength))] else []
  }

  function TailLines(h: Head): seq<string> {
    [TYPE_FIELD + (if h.contentType.Some? then h.contentType.value else "application/octet-stream"),
     DATE_FIELD + h.date, SERVER_FIELD + h.service]
  }

  function FieldLines(h: Head): seq<string> {
    ConnectionLines(h) + LengthLines(h) + TailLines(h)
  }

  function PrintLines(lines: seq<string>): string {
    if lines == [] then "" else lines[0] + CRLF + PrintLines(lines[1..])
  }

  function PrintHead(h: Head): string {
    PrintLines([StatusLine(h)] + FieldLines(h)) + CRLF
  }

  /** A line of a head has something on it, and no CR. */
  predicate HeadLine(line: string) {
    line != "" && '\r' !in line
  }

  lemma HeadLines(h: Head)
    requires h.Valid()
    ensures HeadLine(StatusLine(h)) && forall l | l in FieldLines(h) :: HeadLine(l)
  {
    hide Decimal;
    FieldNames();
    forall l | l in FieldLines(h)
      ensures HeadLine(l)
    {
      assert l in ConnectionLines(h) || l in LengthLines(h) || l in TailLines(h);
    }
  }

  lemma FieldNames()
    ensures '\r' !in CONNECTION_FIELD && '\r' !in LENGTH_FIELD && '\r' !in TYPE_FIELD
    ensures '\r' !in DATE_FIELD && '\r' !in SERVER_FIELD
  {
  }

  /** No END starts in a line that CR LF follows, unless CR follows that. */
  lemma NoEndInLine(line: string, s: string, p: nat)
    requires '\r' !in line && s != "" && p < |line| + 2 && MatchAt(line + CRLF + s, p, 4)
    ensures p == |line| && s[0] == '\r'
  {
    var all := line + CRLF + s;
    MatchBytes(all, p);
    assert forall i | 0 <= i < |line| :: all[i] == line[i];
    assert all[|line|] == '\r' && all[|line| + 1] == '\n' && all[|line| + 2] == s[0];
  }

  /** An END does not straddle the line put in front of a text that does not start with CR. */
  lemma FirstEndAfterLine(line: string, s: string, t: nat)
    requires HeadLine(line) && s != "" && s[0] != '\r' && FirstEnd(s, t)
    ensures FirstEnd(line + CRLF + s, |line| + 2 + t)
  {
    hide MatchAt;
    var n := |line| + 2;
    var all := line + CRLF + s;
    MatchShift(line + CRLF, s, t - 4, 4);
    forall u: nat | u < n + t
      ensures !EndsAt(all, u)
    {
      if u >= 4 {
        if u - 4 >= n {
          MatchShift(line + CRLF, s, u - 4 - n, 4);
          assert !EndsAt(s, u - n);
        } else if MatchAt(all, u - 4, 4) {
          NoEndInLine(line, s, u - 4);
        }
      }
    }
  }

  /** The empty line ends the head, whatever follows it. */
  lemma EndAfterLine(line: string, body: string)
    requires HeadLine(line)
    ensures FirstEnd(line + CRLF + (CRLF + body), |line| + 4)
  {
    var all := line + CRLF + (CRLF + body);
    var n := |line|;
    assert all[n] == END[0] && all[n + 1] == END[1] && all[n + 2] == END[2] && all[n + 3] == END[3];
    assert MatchAt(all, n, 4);
    forall u: nat | u < n + 4
      ensures !EndsAt(all, u)
    {
      if u >= 4 && MatchAt(all, u - 4, 4) {
        NoEndInLine(line, CRLF + body, u - 4);
      }
    }
  }

  /** The first END of a head and its body is where the head ends. */
  lemma {:induction false} HeadEnds(lines: seq<string>, body: string)
    requires lines != [] && forall l | l in lines :: HeadLine(l)
    ensures FirstEnd(PrintLines(lines) + (CRLF + body), |PrintLines(lines)| + 2)
  {
    var rest := PrintLines(lines[1..]) + (CRLF + body);
    assert PrintLines(lines) + (CRLF + body) == lines[0] + CRLF + rest;
    if |lines| == 1 {
      assert rest == CRLF + body;
      EndAfterLine(lines[0], body);
    } else {
      HeadEnds(lines[1..], body);
      assert lines[1] in lines && rest[0] == lines[1][0];
      FirstEndAfterLine(lines[0], rest, |PrintLines(lines[1..])| + 2);
    }
  }

  /** A client's reading of a head: the lines up to the empty one. */
  function ReadLines(s: string): seq<string>
    decreases |s|
  {
    var e := FirstCrlf(s, 0);
    if e == |s| || e == 0 then [] else [s[..e]] + ReadLines(s[e + 2..])
  }

  lemma {:induction false} ReadPrintedLines(lines: seq<string>, body: string)
    requires forall l | l in lines :: HeadLine(l)
    ensures ReadLines(PrintLines(lines) + (CRLF + body)) == lines
  {
    var s := PrintLines(lines) + (CRLF + body);
    if lines == [] {
      assert s == CRLF + body && CrlfAt(s, 0);
    } else {
      var rest := PrintLines(lines[1..]) + (CRLF + body);
      assert s == lines[0] + CRLF + rest && lines[0] in lines;
      LineEnds(lines[0], rest);
      assert s[..|lines[0]|] == lines[0] && s[|lines[0]| + 2..] == rest;
      ReadPrintedLines(lines[1..], body);
    }
  }

  /** The value of the first line that starts with the field's name. */
  function Field(lines: seq<string>, name: string): Option<string> {
    if lines == [] then None
    else if name <= lines[0] then Some(lines[0][|name|..])
    else Field(lines[1..], name)
  }

  /** What a client takes from a head (section 6.3 of RFC 7230): does the connection go on? */
  predicate SaysKeepAlive(s: string) {
    var lines := ReadLines(s);
    if lines != [] && "HTTP/1.1" <= lines[0] then Field(lines, "Connection: ") != Some("close")
    else Field(lines, "Connection: ") == Some("keep-alive")
  }

  function SaidLength(s: string): Option<string> {
    SaidField(s, "Content-Length: ")
  }

  function SaidField(s: string, name: string): Option<string> {
    Field(ReadLines(s), name)
  }

  /** The parts of a status line (section 3.1.2 of RFC 7230): the version, the status and the reason. */
  function SaidLine(s: string): Option<(string, string, string)> {
    var lines := ReadLines(s);
    if lines == [] then None else
    var line := lines[0];
    var a := IndexOf(line, ' ', 0);
    if a == |line| then None else
    var b := IndexOf(line, ' ', a + 1);
    if b == |line| then None else Some((line[..a], line[a + 1..b], line[b + 1..]))
  }

  /** The status, when it is a number. */
  function SaidStatus(s: string): Option<nat> {
    var line := SaidLine(s);
    if line.Some? && IsNumber(line.value.1) then Some(Number(line.value.1)) else None
  }

  /** A client reads all of the head. */
  ghost predicate SaysHead(s: string, h: Head) {
    && SaidStatus(s) == Some(h.status)
    && SaidLine(s).value.0 == (if h.version == Http11 then "HTTP/1.1" else "HTTP/1.0")
    && SaidLine(s).value.2 == h.text
    && SaidField(s, "Content-Type: ")
       == Some(if h.contentType.Some? then h.contentType.value else "application/octet-stream")
    && SaidField(s, "Date: ") == Some(h.date) && SaidField(s, "Server: ") == Some(h.service)
  }

  lemma {:induction false} FieldConcat(a: seq<string>, b: seq<string>, name: string)
    ensures Field(a + b, name) == if Field(a, name).Some? then Field(a, name) else Field(b, name)
  {
    if a == [] {
      assert a + b == b;
    } else {
      FieldConcat(a[1..], b, name);
      assert (a + b)[1..] == a[1..] + b;
    }
  }

  lemma FieldOf(name: string, value: string)
    ensures Field([name + value], name) == Some(value)
  {
    assert (name + value)[|name|..] == value;
  }

  lemma FieldNotIn(lines: seq<string>, name: string)
    requires forall l | l in lines :: !(name <= l)
    ensures Field(lines, name).None?
  {
    if lines != [] {
      assert lines[0] in lines && forall l | l in lines[1..] :: l in lines;
      FieldNotIn(lines[1..], name);
    }
  }

  /** Names that differ in a letter both have are not taken for each other. */
  lemma OtherField(line: string, name: string, i: nat)
    requires i < |name| && i < |line| && line[i] != name[i]
    ensures !(name <= line)
  {
  }

  /** The lines at the end of every head are neither Connection nor Content-Length. */
  lemma TailFields(h: Head)
    ensures Field(TailLines(h), CONNECTION_FIELD).None? && Field(TailLines(h), LENGTH_FIELD).None?
  {
    forall l | l in TailLines(h)
      ensures !(CONNECTION_FIELD <= l) && !(LENGTH_FIELD <= l)
    {
      if TYPE_FIELD <= l {
        assert l[3] == TYPE_FIELD[3] && l[8] == TYPE_FIELD[8];
        OtherField(l, CONNECTION_FIELD, 3);
        OtherField(l, LENGTH_FIELD, 8);
      } else {
        assert l[0] == DATE_FIELD[0] || l[0] == SERVER_FIELD[0];
        OtherField(l, CONNECTION_FIELD, 0);
        OtherField(l, LENGTH_FIELD, 0);
      }
    }
    FieldNotIn(TailLines(h), CONNECTION_FIELD);
    FieldNotIn(TailLines(h), LENGTH_FIELD);
  }

  lemma LengthField(h: Head)
    ensures Field(LengthLines(h), CONNECTION_FIELD).None?
    ensures Field(LengthLines(h), LENGTH_FIELD)
         == if h.contentLength > 0 then Some(Decimal(ToInt32(h.contentLength))) else None
  {
    if h.contentLength > 0 {
      var value := Decimal(ToInt32(h.contentLength));
      assert (LENGTH_FIELD + value)[3] == LENGTH_FIELD[3];
      OtherField(LENGTH_FIELD + value, CONNECTION_FIELD, 3);
      FieldNotIn(LengthLines(h), CONNECTION_FIELD);
      FieldOf(LENGTH_FIELD, value);
    }
  }

  lemma ConnectionField(h: Head)
    ensures Field(ConnectionLines(h), LENGTH_FIELD).None?
    ensures Field(ConnectionLines(h), CONNECTION_FIELD)
         == if h.version == Http11 && h.keepAlive then None else Some(if h.keepAlive then "keep-alive" else "close")
  {
    if h.version != Http11 || !h.keepAlive {
      var value := if h.keepAlive then "keep-alive" else "close";
      assert (CONNECTION_FIELD + value)[3] == CONNECTION_FIELD[3];
      OtherField(CONNECTION_FIELD + value, LENGTH_FIELD, 3);
      FieldNotIn(ConnectionLines(h), LENGTH_FIELD);
      FieldOf(CONNECTION_FIELD, value);
    }
  }

  lemma StatusLineField(h: Head)
    ensures Field([StatusLine(h)], CONNECTION_FIELD).None? && Field([StatusLine(h)], LENGTH_FIELD).None?
    ensures "HTTP/1.1" <= StatusLine(h) <==> h.version == Http11
  {
    var line := StatusLine(h);
    assert line[0] == ProtoWord(h.version)[0] && line[7] == ProtoWord(h.version)[7];
    assert line == ProtoWord(h.version) + (" " + Decimal(h.status) + " " + h.text);
    OtherField(line, CONNECTION_FIELD, 0);
    OtherField(line, LENGTH_FIELD, 0);
    FieldNotIn([line], CONNECTION_FIELD);
    FieldNotIn([line], LENGTH_FIELD);
    if h.version != Http11 {
      OtherField(line, "HTTP/1.1", 7);
    }
  }

  /** The fields of all lines together. */
  lemma AllFields(h: Head)
    ensures var lines := [StatusLine(h)] + FieldLines(h);
            && Field(lines, CONNECTION_FIELD) == Field(ConnectionLines(h), CONNECTION_FIELD)
            && Field(lines, LENGTH_FIELD) == Field(LengthLines(h), LENGTH_FIELD)
  {
    hide Field, StatusLine, ConnectionLines, LengthLines, TailLines;
    StatusLineField(h);
    ConnectionField(h);
    LengthField(h);
    TailFields(h);
    FieldConcat(ConnectionLines(h), LengthLines(h), CONNECTION_FIELD);
    FieldConcat(ConnectionLines(h), LengthLines(h), LENGTH_FIELD);
    FieldConcat(ConnectionLines(h) + LengthLines(h), TailLines(h), CONNECTION_FIELD);
    FieldConcat(ConnectionLines(h) + LengthLines(h), TailLines(h), LENGTH_FIELD);
    FieldConcat([StatusLine(h)], FieldLines(h), CONNECTION_FIELD);
    FieldConcat([StatusLine(h)], FieldLines(h), LENGTH_FIELD);
  }

  /** The words of the status line. */
  lemma StatusLineSplits(h: Head)
    ensures var line, proto, digits := StatusLine(h), ProtoWord(h.version), Decimal(h.status);
            var a, b := |proto|, |proto| + 1 + |digits|;
            && b < |line| && IndexOf(line, ' ', 0) == a && IndexOf(line, ' ', a + 1) == b
            && line[..a] == proto && line[a + 1..b] == digits && line[b + 1..] == h.text
            && IsNumber(digits) && Number(digits) == h.status
  {
    var line, proto, digits := StatusLine(h), ProtoWord(h.version), Decimal(h.status);
    var front := proto + " " + digits;
    CutAtBlank(line, front, h.text);
    CutAtBlank(front, proto, digits);
    assert line[..|proto|] == front[..|proto|] && line[|proto| + 1..|front|] == front[|proto| + 1..];
    BlankAfter(line, 0, proto);
    BlankAfter(line, |proto| + 1, digits);
  }

  lemma TypeLine(h: Head)
    ensures Field(TailLines(h), TYPE_FIELD)
         == Some(if h.contentType.Some? then h.contentType.value else "application/octet-stream")
  {
    FieldOf(TYPE_FIELD, if h.contentType.Some? then h.contentType.value else "application/octet-stream");
  }

  lemma DateLine(h: Head)
    ensures Field(TailLines(h), DATE_FIELD) == Some(h.date)
  {
    var lines := TailLines(h);
    assert lines[0][0] == TYPE_FIELD[0];
    OtherField(lines[0], DATE_FIELD, 0);
    assert lines[1..][0] == lines[1];
    FieldOf(DATE_FIELD, h.date);
  }

  lemma ServerLine(h: Head)
    ensures Field(TailLines(h), SERVER_FIELD) == Some(h.service)
  {
    var lines := TailLines(h);
    assert lines[0][0] == TYPE_FIELD[0] && lines[1][0] == DATE_FIELD[0];
    OtherField(lines[0], SERVER_FIELD, 0);
    OtherField(lines[1], SERVER_FIELD, 0);
    assert lines[1..][0] == lines[1] && lines[1..][1..] == lines[2..] && lines[2..][0] == lines[2];
    FieldOf(SERVER_FIELD, h.service);
  }

  /** A field of the last lines is not in the lines before them. */
  lemma FrontLacks(h: Head, name: string)
    requires name == TYPE_FIELD || name == DATE_FIELD || name == SERVER_FIELD
    ensures Field([StatusLine(h)], name).None? && Field(ConnectionLines(h), name).None?
    ensures Field(LengthLines(h), name).None?
  {
    hide Decimal;
    var line := StatusLine(h);
    assert line[0] == ProtoWord(h.version)[0];
    OtherField(line, name, 0);
    FieldNotIn([line], name);
    forall l | l in ConnectionLines(h)
      ensures !(name <= l)
    {
      assert l[0] == CONNECTION_FIELD[0] && l[3] == CONNECTION_FIELD[3];
      OtherField(l, name, if name == TYPE_FIELD then 3 else 0);
    }
    FieldNotIn(ConnectionLines(h), name);
    forall l | l in LengthLines(h)
      ensures !(name <= l)
    {
      assert l[0] == LENGTH_FIELD[0] && l[8] == LENGTH_FIELD[8];
      OtherField(l, name, if name == TYPE_FIELD then 8 else 0);
    }
    FieldNotIn(LengthLines(h), name);
  }

  lemma TailField(h: Head, name: string)
    requires name == TYPE_FIELD || name == DATE_FIELD || name == SERVER_FIELD
    ensures Field([StatusLine(h)] + FieldLines(h), name) == Field(TailLines(h), name)
  {
    hide Field, StatusLine, ConnectionLines, LengthLines, TailLines;
    FrontLacks(h, name);
    FieldConcat(ConnectionLines(h), LengthLines(h), name);
    FieldConcat(ConnectionLines(h) + LengthLines(h), TailLines(h), name);
    FieldConcat([StatusLine(h)], FieldLines(h), name);
  }

  /** All of the head is read back: version, status, reason, type, date and server. */
  lemma HeadReadsBack(h: Head, body: string)
    requires h.Valid()
    ensures SaysHead(PrintHead(h) + body, h)
  {
    hide ReadLines, Field, StatusLine, FieldLines, TailLines, PrintHead, Decimal, IndexOf, Number, IsNumber;
    HeadIsSplit(h, body);
    StatusLineSplits(h);
    assert ([StatusLine(h)] + FieldLines(h))[0] == StatusLine(h);
    TailField(h, TYPE_FIELD);
    TailField(h, DATE_FIELD);
    TailField(h, SERVER_FIELD);
    TypeLine(h);
    DateLine(h);
    ServerLine(h);
  }

  /** The server's own scanner finds the end of the head, and a client finds the lines in it. */
  lemma HeadIsSplit(h: Head, body: string)
    requires h.Valid()
    ensures FirstEnd(PrintHead(h) + body, |PrintHead(h)|)
    ensures ReadLines(PrintHead(h) + body) == [StatusLine(h)] + FieldLines(h)
  {
    hide StatusLine, FieldLines, FirstEnd, ReadLines;
    var lines := [StatusLine(h)] + FieldLines(h);
    HeadLines(h);
    HeadEnds(lines, body);
    ReadPrintedLines(lines, body);
    assert PrintHead(h) + body == PrintLines(lines) + (CRLF + body);
  }

  /**
   What the head says is what was meant: it keeps the connection alive exactly when keep-alive was
   chosen, and it gives a length exactly when there is a body (sections 3.3.2 and 6.3 of RFC 7230).
   */
  lemma HeadSaysWhatWasMeant(h: Head, body: string)
    requires h.Valid()
    ensures SaysKeepAlive(PrintHead(h) + body) <==> h.keepAlive
    ensures SaidLength(PrintHead(h) + body)
         == if h.contentLength > 0 then Some(Decimal(ToInt32(h.contentLength))) else None
  {
    hide ReadLines, Field, StatusLine, FieldLines, PrintHead, Decimal;
    HeadIsSplit(h, body);
    AllFields(h);
    ConnectionField(h);
    LengthField(h);
    StatusLineField(h);
    assert ([StatusLine(h)] + FieldLines(h))[0] == StatusLine(h);
  }

  predicate IsNumber(s: string) {
    s != "" && forall i | 0 <= i < |s| :: IsDigit(s[i])
  }

  /** A length is printed as a number exactly below 2^31, and then reads back as itself. */
  lemma LengthReadsBack(length: Uint32)
    ensures IsNumber(Decimal(ToInt32(length))) <==> length < 0x8000_0000
    ensures length < 0x8000_0000 ==> Number(Decimal(ToInt32(length))) == length
  {
    if length >= 0x8000_0000 {
      assert ToInt32(length) == length - TWO_TO_THE_32 < 0;
      assert Decimal(ToInt32(length))[0] == '-';
    } else {
      assert ToInt32(length) == length;
    }
  }
}
