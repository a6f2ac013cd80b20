/**
 The in-place request scanner of src/request.cpp: it walks the request once, writes a NUL after
 every word it takes, and reads the words as C strings of the same block.
 */
module RequestParsers {
  import opened Words
  import opened Buffers
  import opened CStrings
  import opened Requests

  /** Where the words of the request line are, or that it is no request line. */
  datatype LineScan = NoLine | Words(urlStart: nat, protoStart: nat, end: nat)

  /** What a scan that ended this way says about the text. */
  ghost predicate LineScanned(s: seq<char>, r: LineScan) {
    var e := FirstCrlf(s, 0);
    match r
    case NoLine => e == |s| || SplitLine(s[..e]).None?
    case Words(u, p, end) =>
      && end == e < |s| && 1 <= u < p <= e
      && SplitLine(s[..e]) == Some(RequestLine(s[..u - 1], s[u..p - 1], s[p..e]))
  }

  /** The words of the line that were met before position `index`. */
  ghost predicate LineState(s: seq<char>, index: nat, state: nat, urlStart: nat, offset: nat) {
    && offset <= index <= |s| && state <= 2 && Lacks(s, ' ', offset, index)
    && (forall j | 0 <= j < index :: !CrlfAt(s, j))
    && (state == 0 ==> offset == 0)
    && (state == 1 ==> offset >= 1 && s[offset - 1] == ' ' && Lacks(s, ' ', 0, offset - 1))
    && (state == 2 ==> 1 <= urlStart < offset && s[urlStart - 1] == ' ' && Lacks(s, ' ', 0, urlStart - 1)
                       && s[offset - 1] == ' ' && Lacks(s, ' ', urlStart, offset - 1))
  }

  /** The blanks of a line, from what the scan saw. */
  lemma BlanksOfLine(s: seq<char>, e: nat, index: nat, state: nat, urlStart: nat, offset: nat)
    requires LineState(s, index, state, urlStart, offset) && index <= e <= |s|
    requires index < e ==> s[index] == ' '
    ensures state == 0 ==> IndexOf(s[..e], ' ', 0) == index
    ensures state == 1 ==> IndexOf(s[..e], ' ', 0) == offset - 1 && IndexOf(s[..e], ' ', offset) == index
    ensures state == 2 ==> IndexOf(s[..e], ' ', 0) == urlStart - 1
                           && IndexOf(s[..e], ' ', urlStart) == offset - 1 && IndexOf(s[..e], ' ', offset) == index
  {
    var line := s[..e];
    IndexOfIs(line, ' ', offset, index);
    if state == 1 {
      IndexOfIs(line, ' ', 0, offset - 1);
    } else if state == 2 {
      IndexOfIs(line, ' ', 0, urlStart - 1);
      IndexOfIs(line, ' ', urlStart, offset - 1);
    }
  }

  lemma FirstCrlfIs(s: seq<char>, i: nat)
    requires CrlfAt(s, i) && forall j | 0 <= j < i :: !CrlfAt(s, j)
    ensures FirstCrlf(s, 0) == i
  {
  }

  /** A third blank, or too few of them before the CR LF, makes no request line. */
  lemma BadLine(s: seq<char>, index: nat, state: nat, urlStart: nat, offset: nat)
    requires LineState(s, index, state, urlStart, offset) && index < |s|
    requires (state == 2 && s[index] == ' ') || (state < 2 && CrlfAt(s, index))
    ensures LineScanned(s, NoLine)
  {
    var e := FirstCrlf(s, 0);
    if e < |s| {
      if s[index] == ' ' {
        BlanksOfLine(s, e, index, state, urlStart, offset);
      } else {
        FirstCrlfIs(s, index);
        BlanksOfLine(s, e, index, state, urlStart, offset);
      }
    }
  }

  lemma GoodLine(s: seq<char>, index: nat, urlStart: nat, offset: nat)
    requires LineState(s, index, 2, urlStart, offset) && CrlfAt(s, index)
    ensures LineScanned(s, Words(urlStart, offset, index))
  {
    FirstCrlfIs(s, index);
    BlanksOfLine(s, index, index, 2, urlStart, offset);
    var line := s[..index];
    assert line[..urlStart - 1] == s[..urlStart - 1] && line[urlStart..offset - 1] == s[urlStart..offset - 1];
    assert line[offset..] == s[offset..index];
  }

  /** The scan of the request line, one character at a time. */
  method ScanLine(content: Buffer) returns (r: LineScan)
    requires content.Valid() && content.usedBytes > 0
    ensures LineScanned(content.Contents(), r)
  {
    hide LineScanned;
    ghost var s := content.Contents();
    var length := content.StringLength();
    var state, offset, urlStart, index := 0, 0, 0, 0;
    while index < length
      invariant length == |s| && LineState(s, index, state, urlStart, offset)
    {
      assert content.ptr[index] == s[index];
      assert content.ptr[index + 1] == if index + 1 < length then s[index + 1] else '\0';
      if content.ptr[index] == ' ' {
        if state == 2 {
          BadLine(s, index, state, urlStart, offset);
          return NoLine;
        }
        if state == 1 {
          urlStart := offset;
        }
        offset := index + 1;
        state := state + 1;
      } else if content.ptr[index] == '\r' && content.ptr[index + 1] == '\n' {
        if state != 2 {
          BadLine(s, index, state, urlStart, offset);
          return NoLine;
        }
        GoodLine(s, index, urlStart, offset);
        return Words(urlStart, offset, index);
      }
      index := index + 1;
    }
    NoCrlf(s);
    r := NoLine;
  }

  lemma NoCrlf(s: seq<char>)
    requires forall j | 0 <= j < |s| :: !CrlfAt(s, j)
    ensures LineScanned(s, NoLine)
  {
  }

  /** The version of the protocol word at `start`; its dot is overwritten and put back. */
  method ParseVersion(a: array<char>, start: nat, support11: bool) returns (v: Option<Version>)
    requires start <= a.Length
    modifies a
    ensures a[..] == old(a[..])
    ensures v == ReadVersion(a[start..], support11)
  {
    hide Strtol, IndexOf, CString, ToInt32;
    var p := CString(a[start..]);
    if |p| < 5 || p[..5] != "HTTP/" {
      return None;
    }
    var number := p[5..];
    var dot := IndexOf(number, '.', 0);
    if dot == |number| || dot == 0 || dot + 1 == |number| {
      return None;
    }
    var major, minor := ReadNumbers(a, start, dot);
    if major.1 != dot || minor.1 != |number| - dot - 1 || ToInt32(major.0) != 1 {
      v := None;
    } else if ToInt32(minor.0) == 1 {
      v := Some(if support11 then Http11 else Http10);
    } else if ToInt32(minor.0) == 0 {
      v := Some(Http10);
    } else {
      v := None;
    }
  }

  /** strtol() on both sides of the dot. */
  method ReadNumbers(a: array<char>, start: nat, dot: nat) returns (major: (int, nat), minor: (int, nat))
    requires start <= a.Length && 5 + dot < |CString(a[start..])| && CString(a[start..])[5 + dot] == '.'
    modifies a
    ensures a[..] == old(a[..])
    ensures major == Strtol(CString(a[start..])[5..][..dot])
    ensures minor == Strtol(CString(a[start..])[5..][dot + 1..])
  {
    hide Strtol, CString, IndexOf;
    ghost var before, p := a[start..], CString(a[start..]);
    var at := start + 5 + dot;
    assert a[at] == before[5 + dot] == '.';
    a[at] := '\0';
    assert a[start + 5..] == before[5..][dot := '\0'];
    MajorAt(before, dot);
    major := Strtol(CString(a[start + 5..]));
    a[at] := '.';
    assert a[..] == old(a[..]);
    CStringFrom(before, 5 + dot + 1);
    assert a[at + 1..] == before[5 + dot + 1..];
    minor := Strtol(CString(a[at + 1..]));
  }

  /** With a NUL in place of the dot, the C string after the slash is the major number. */
  lemma MajorAt(t: seq<char>, dot: nat)
    requires 5 + dot < |CString(t)|
    ensures CString(t[5..][dot := '\0']) == CString(t)[5..][..dot]
  {
    var u := t[5..][dot := '\0'];
    CStringUpTo(u, dot);
    assert u[..dot] == CString(t)[5..][..dot];
    CStringOfWhole(u[..dot]);
  }

  /** The option line being scanned: its name goes on, or its value does and its first blanks are skipped. */
  ghost predicate OptionState(s: seq<char>, index: nat, isKey: bool, offset: nat, colon: nat, value: nat) {
    && offset <= index <= |s|
    && (isKey ==> Lacks(s, ':', offset, index))
    && (!isKey ==>
        && offset <= colon < value <= index && s[colon] == ':' && Lacks(s, ':', offset, colon)
        && Lacks(s, '\r', colon + 1, index)
        && (forall i | colon < i < value :: IsBlank(s[i]))
        && (value < index ==> !IsBlank(s[value])))
  }

  /** A complete option line is one round of reading options. */
  lemma OptionLine(s: seq<char>, index: nat, offset: nat, colon: nat, value: nat, o: Options)
    requires OptionState(s, index, false, offset, colon, value) && index < |s| && s[index] == '\r'
    ensures CrlfAt(s, index) ==>
              ReadOptions(s, offset, o) == ReadOptions(s, index + 2, Apply(o, s[offset..index], s[value..index]))
    ensures !CrlfAt(s, index) ==> ReadOptions(s, offset, o) == (false, o)
  {
    hide Apply;
    IndexOfIs(s, ':', offset, colon);
    IndexOfIs(s, '\r', colon + 1, index);
    assert s[colon + 1..index] == s[colon + 1..value] + s[value..index];
    SkipBlanksOf(s[colon + 1..value], s[value..index]);
  }

  /** A line that never ends is passed over. */
  lemma OptionsEnd(s: seq<char>, isKey: bool, offset: nat, colon: nat, value: nat, o: Options)
    requires OptionState(s, |s|, isKey, offset, colon, value)
    ensures ReadOptions(s, offset, o) == (true, o)
  {
    if isKey {
      IndexOfIs(s, ':', offset, |s|);
    } else {
      IndexOfIs(s, ':', offset, colon);
      IndexOfIs(s, '\r', colon + 1, |s|);
    }
  }

  /** From position `from` on, the block still holds the text and its closing NUL. */
  ghost predicate HoldsFrom(a: array<char>, s: seq<char>, from: nat)
    reads a
  {
    |s| < a.Length && a[|s|] == '\0' && forall i | from <= i < |s| :: a[i] == s[i]
  }

  /** One option, read as C strings that end at the NUL written over its CR. */
  method ApplyOption(a: array<char>, offset: nat, value: nat, end: nat, o: Options) returns (r: Options)
    requires offset <= value <= end < a.Length && a[end] == '\0'
    ensures r == Apply(o, a[offset..end], a[value..end])
  {
    ghost var line, text := a[offset..], a[value..];
    assert line[..end - offset] == a[offset..end] && text[..end - value] == a[value..end];
    r := o;
    if end - value > 0 {
      PrefixUpTo(line, end - offset, CONNECTION_KEY);
      PrefixUpTo(line, end - offset, "Host");
      PrefixUpTo(line, end - offset, "Range");
      CStringUpTo(text, end - value);
      if HasPrefix(a[offset..], CONNECTION_KEY) {
        PrefixUpTo(text, end - value, "keep-alive");
        PrefixUpTo(text, end - value, "close");
        if HasPrefix(a[value..], "keep-alive") {
          r := o.(connection := KeepAlive);
        } else if HasPrefix(a[value..], "close") {
          r := o.(connection := Close);
        }
      } else if HasPrefix(a[offset..], "Host") {
        r := o.(host := Some(CString(a[value..])));
      } else if HasPrefix(a[offset..], "Range") {
        r := o.(range := Some(CString(a[value..])));
      }
    }
  }

  /** Ends an option with NULs in place of its CR LF and takes its value. */
  method TakeOption(a: array<char>, offset: nat, value: nat, end: nat, o: Options, ghost s: seq<char>)
    returns (r: Options)
    requires offset <= value <= end && CrlfAt(s, end) && HoldsFrom(a, s, offset)
    modifies a
    ensures r == Apply(o, s[offset..end], s[value..end]) && HoldsFrom(a, s, end + 2)
  {
    hide Apply;
    a[end] := '\0';
    a[end + 1] := '\0';
    assert a[offset..end] == s[offset..end] && a[value..end] == s[value..end];
    r := ApplyOption(a, offset, value, end, o);
  }

  /** The scan of the option lines; false when a CR is not followed by LF. */
  method ScanOptions(a: array<char>, length: nat, start: nat, first: Options, ghost s: seq<char>)
    returns (ok: bool, o: Options)
    requires length == |s| && start <= length && HoldsFrom(a, s, start)
    modifies a
    ensures (ok, o) == ReadOptions(s, start, first)
    ensures HoldsFrom(a, s, length)
  {
    hide Apply, ReadOptions;
    o := first;
    var isKey := true;
    var offset: nat, colon: nat, value: nat, index: nat := start, 0, 0, start;
    while index < length
      invariant offset <= index && OptionState(s, index, isKey, offset, colon, value) && HoldsFrom(a, s, offset)
      invariant ReadOptions(s, start, first) == ReadOptions(s, offset, o)
    {
      var c := a[index];
      if isKey {
        if c == ':' {
          colon, value, isKey := index, index + 1, false;
        }
      } else if c == '\r' {
        OptionLine(s, index, offset, colon, value, o);
        if a[index + 1] != '\n' {
          return false, o;
        }
        o := TakeOption(a, offset, value, index, o, s);
        index := index + 1;
        offset := index + 1;
        isKey := true;
      } else if c == ' ' || c == '\t' {
        if value == index {
          value := index + 1;
        }
      }
      index := index + 1;
    }
    OptionsEnd(s, isKey, offset, colon, value, o);
    ok := true;
  }

  /** The block after NULs were written behind the words of the request line. */
  ghost predicate WordsCut(a: seq<char>, s: seq<char>, urlStart: nat, protoStart: nat, end: nat) {
    && 1 <= urlStart < protoStart <= end && end + 1 < |s| < |a|
    && a[urlStart - 1] == a[protoStart - 1] == a[end] == a[|s|] == '\0'
    && a[..urlStart - 1] == s[..urlStart - 1] && a[urlStart..protoStart - 1] == s[urlStart..protoStart - 1]
    && a[protoStart..end] == s[protoStart..end]
    && forall i | end + 2 <= i < |s| :: a[i] == s[i]
  }

  method CutWords(a: array<char>, urlStart: nat, protoStart: nat, end: nat, ghost s: seq<char>)
    requires HoldsFrom(a, s, 0) && 1 <= urlStart < protoStart <= end && end + 1 < |s|
    modifies a
    ensures WordsCut(a[..], s, urlStart, protoStart, end) && HoldsFrom(a, s, end + 2)
  {
    a[end] := '\0';
    a[end + 1] := '\0';
    a[urlStart - 1] := '\0';
    a[protoStart - 1] := '\0';
  }

  /** The words, read as C strings of the block. */
  lemma WordsRead(a: seq<char>, s: seq<char>, urlStart: nat, protoStart: nat, end: nat, support11: bool)
    requires WordsCut(a, s, urlStart, protoStart, end)
    ensures CString(a) == CString(s[..urlStart - 1]) && CString(a[urlStart..]) == CString(s[urlStart..protoStart - 1])
    ensures ReadVersion(a[protoStart..], support11) == ReadVersion(s[protoStart..end], support11)
  {
    hide CString, ReadVersion;
    assert a[0..] == a && a[0..urlStart - 1] == a[..urlStart - 1];
    WordRead(a, 0, s[..urlStart - 1], support11);
    WordRead(a, urlStart, s[urlStart..protoStart - 1], support11);
    WordRead(a, protoStart, s[protoStart..end], support11);
  }

  /** A word with a NUL behind it is the C string that starts where it starts. */
  lemma WordRead(a: seq<char>, from: nat, word: seq<char>, support11: bool)
    requires from + |word| < |a| && a[from..from + |word|] == word && a[from + |word|] == '\0'
    ensures CString(a[from..]) == CString(word)
    ensures ReadVersion(a[from..], support11) == ReadVersion(word, support11)
  {
    hide CString;
    assert a[from..][|word|] == a[from + |word|];
    assert a[from..][..|word|] == a[from..from + |word|];
    CStringUpTo(a[from..], |word|);
  }

  /** Takes the words that were cut, and scans the options behind them. */
  method TakeWords(a: array<char>, length: nat, urlStart: nat, protoStart: nat, end: nat, support11: bool,
                   none: Options, ghost s: seq<char>)
    returns (p: Parsed)
    requires length == |s| && WordsCut(a[..], s, urlStart, protoStart, end) && HoldsFrom(a, s, end + 2)
    modifies a
    ensures HoldsFrom(a, s, length)
    ensures p == ParseWords(s, end + 2,
                            RequestLine(s[..urlStart - 1], s[urlStart..protoStart - 1], s[protoStart..end]),
                                support11, none)
  {
    hide ReadVersion, ReadOptions, CString, Conclude;
    WordsRead(a[..], s, urlStart, protoStart, end, support11);
    var verb := CString(a[..]);
    if verb != "GET" && verb != "POST" {
      return Failed(501, None, None, VersionUnset, none);
    }
    var url := Some(CString(a[urlStart..]));
    var version := ParseVersion(a, protoStart, support11);
    if version.None? {
      return Failed(400, Some(verb), url, VersionUnset, none);
    }
    var ok, o := ScanOptions(a, length, end + 2, none, s);
    p := Conclude(ok, Some(verb), url, version.value, o);
  }

  /**
   http_reuqest_parse(): scans the request in place and computes what Parse says of the text. It
   leaves the block a C string of the same length.
   */
  method HttpRequestParse(content: Buffer, support11: bool, connection: Connection) returns (p: Parsed)
    requires content.Valid() && content.usedBytes > 0 && !VerbMissing(content.Contents())
    modifies content.ptr
    ensures p == Parse(old(content.Contents()), support11, connection)
    ensures content.Valid()
  {
    hide ParseWords, SplitLine, FirstCrlf, WordsCut;
    ghost var s := content.Contents();
    var none := Options(connection, None, None);
    var words := ScanLine(content);
    match words
    case NoLine =>
      p := Failed(400, None, None, VersionUnset, none);
    case Words(urlStart, protoStart, end) =>
      CutWords(content.ptr, urlStart, protoStart, end, s);
      p := TakeWords(content.ptr, content.StringLength(), urlStart, protoStart, end, support11, none, s);
  }
}
