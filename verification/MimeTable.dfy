/** The MIME table of src/key_map.cpp: reading its lines, and the array of entries that grows. */
module MimeTables {
  import opened Words
  import opened CStrings
  import opened Mimes

  /** The first position of `=>`, or the length of `s`. */
  function Arrow(s: string, from: nat): (i: nat)
    requires from <= |s|
    ensures from <= i <= |s| && (i < |s| ==> ArrowAt(s, i)) && forall j | from <= j < i :: !ArrowAt(s, j)
    decreases |s| - from
  {
    if from == |s| || ArrowAt(s, from) then from else Arrow(s, from + 1)
  }

  predicate ArrowAt(s: string, i: nat) {
    i + 1 < |s| && s[i] == '=' && s[i + 1] == '>'
  }

  /** The word in quotes after the blanks at `from`, when it ends before `end` and is not empty. */
  function Quoted(s: string, from: nat, end: nat): Option<string>
    requires from <= end <= |s|
  {
    var i := from + SkipSpace(s[from..]);
    if i >= |s| || s[i] != '"' then None else
    var j := IndexOf(s, '"', i + 1);
    if j >= end || j == i + 1 then None else Some(s[i + 1..j])
  }

  /** An entry is two words in quotes, an arrow between them; a line that starts with # is a comment. */
  function ReadEntry(s: string): Option<Entry> {
    if s == "" || s[0] == '#' then None else
    var a := Arrow(s, 0);
    if a == |s| || a == 0 then None else
    var extension, mimeType := Quoted(s, 0, a), Quoted(s, a + 2, |s|);
    if extension.None? || mimeType.None? then None else Some(Entry(extension.value, mimeType.value))
  }

  /** What fgets() takes from a text: a line with its newline, but at most 1023 characters. */
  function LineLength(text: string): (n: nat)
    ensures n <= |text| && n <= 1023 && (text != "" ==> n > 0)
    ensures forall j | 0 <= j < n - 1 :: text[j] != '\n'
    ensures n == |text| || n == 1023 || (n > 0 && text[n - 1] == '\n')
  {
    Min(Min(IndexOf(text, '\n', 0) + 1, |text|), 1023)
  }

  function ReadTable(text: string): seq<Entry>
    decreases |text|
  {
    if text == "" then [] else
    var n := LineLength(text);
    var e := ReadEntry(CString(text[..n]));
    (if e.Some? then [e.value] else []) + ReadTable(text[n..])
  }

  /** How many blanks there are from a position on, by the characters. */
  lemma {:induction false} SkipSpaceIs(s: string, from: nat, i: nat)
    requires from <= i <= |s| && (forall j | from <= j < i :: IsSpace(s[j])) && (i < |s| ==> !IsSpace(s[i]))
    ensures from + SkipSpace(s[from..]) == i
    decreases i - from
  {
    if from < i {
      assert s[from..][1..] == s[from + 1..];
      SkipSpaceIs(s, from + 1, i);
    }
  }

  /** The blanks before a word, in a buffer that a NUL ends. */
  method SkipBlanksAt(buf: string, from: nat, ghost n: nat) returns (i: nat)
    requires n < |buf| && buf[n] == '\0' && from <= n
    ensures from <= i <= n && i == from + SkipSpace(buf[..n][from..])
    ensures i < n ==> !IsSpace(buf[i])
  {
    i := from;
    while IsSpace(buf[i])
      invariant from <= i <= n && forall j | from <= j < i :: IsSpace(buf[j])
      decreases n - i
    {
      i := i + 1;
    }
    SkipSpaceIs(buf[..n], from, i);
  }

  /**
   The quoted word before position `end`, where the arrow or the NUL is. The scan stops there at the
   latest: the opening quote is before `end`, so `end` is not passed.
   */
  method ScanQuoted(buf: string, from: nat, end: nat, ghost n: nat) returns (word: Option<string>)
    requires n < |buf| && buf[n] == '\0' && from <= end <= n && '\0' !in buf[..n]
    requires end < n ==> buf[end] == '='
    ensures word == Quoted(buf[..n], from, end)
  {
    ghost var s := buf[..n];
    var start := SkipBlanksAt(buf, from, n);
    if buf[start] != '"' {
      return None;
    }
    SpacesBefore(s, from, start);
    assert start < end;
    start := start + 1;
    var stop := start;
    while buf[stop] != '"' && stop != end
      invariant start <= stop <= end && Lacks(s, '"', start, stop)
      decreases end - stop
    {
      stop := stop + 1;
    }
    if stop == end || stop == start {
      QuoteEnds(s, start, stop, end);
      return None;
    }
    IndexOfIs(s, '"', start, stop);
    SliceOfTake(buf, n, start, stop);
    word := Some(buf[start..stop]);
  }

  /** Blanks are no arrow. */
  lemma {:induction false} SpacesBefore(s: string, from: nat, i: nat)
    requires from <= |s| && i == from + SkipSpace(s[from..])
    ensures forall j | from <= j < i :: j < |s| && IsSpace(s[j])
    decreases |s| - from
  {
    if from < i {
      assert s[from..][1..] == s[from + 1..];
      SpacesBefore(s, from + 1, i);
    }
  }

  lemma SliceOfTake(buf: string, n: nat, i: nat, j: nat)
    requires i <= j <= n <= |buf|
    ensures buf[..n][i..j] == buf[i..j]
  {
    assert forall k | 0 <= k < j - i :: buf[..n][i..j][k] == buf[i + k];
  }

  lemma QuoteEnds(s: string, start: nat, stop: nat, end: nat)
    requires start <= stop <= end <= |s| && Lacks(s, '"', start, stop)
    requires stop == end || (stop == start && s[stop] == '"')
    ensures IndexOf(s, '"', start) >= end || IndexOf(s, '"', start) == start
  {
  }

  /** strstr(buf, "=>"). */
  method FindArrow(buf: string, n: nat) returns (i: nat)
    requires n < |buf|
    ensures i == Arrow(buf[..n], 0)
  {
    i := 0;
    while i < n && !(i + 1 < n && buf[i] == '=' && buf[i + 1] == '>')
      invariant i <= n && Arrow(buf[..n], 0) == Arrow(buf[..n], i)
    {
      i := i + 1;
    }
  }

  /** The parser of one line, which a NUL ends. */
  method ScanEntry(buf: string, n: nat) returns (e: Option<Entry>)
    requires n < |buf| && buf[n] == '\0' && '\0' !in buf[..n]
    ensures e == ReadEntry(buf[..n])
  {
    hide Quoted, Arrow;
    e := None;
    if n == 0 || buf[0] == '#' {
      return;
    }
    var extensionEnd := FindArrow(buf, n);
    if extensionEnd == n || extensionEnd == 0 {
      return;
    }
    assert ArrowAt(buf[..n], extensionEnd);
    var extension := ScanQuoted(buf, 0, extensionEnd, n);
    if extension == None {
      return;
    }
    var mimeType := ScanQuoted(buf, extensionEnd + 2, n, n);
    if mimeType == None {
      return;
    }
    e := Some(Entry(extension.value, mimeType.value));
  }

  const INITIAL_SIZE := 1024

  class MimeTable {
    var entry: array<Entry>
    var usedEntry: nat

    ghost predicate Valid()
      reads this, entry
    {
      usedEntry <= entry.Length && entry.Length > 0 && entry.Length % INITIAL_SIZE == 0
    }

    ghost function Entries(): seq<Entry>
      requires Valid()
      reads this, entry
    {
      entry[..usedEntry]
    }

    constructor ()
      ensures Valid() && Entries() == [] && fresh(entry)
    {
      entry := new Entry[INITIAL_SIZE];
      usedEntry := 0;
    }

    /** Adds an entry; a full array is copied to one that is 1024 entries longer. */
    method Add(e: Entry)
      requires Valid()
      modifies this, entry
      ensures Valid() && Entries() == old(Entries()) + [e] && (entry == old(entry) || fresh(entry))
    {
      if usedEntry == entry.Length {
        var longer := new Entry[entry.Length + INITIAL_SIZE];
        forall i | 0 <= i < usedEntry {
          longer[i] := entry[i];
        }
        assert longer[..usedEntry] == entry[..usedEntry];
        entry := longer;
      }
      entry[usedEntry] := e;
      usedEntry := usedEntry + 1;
    }
  }

  /** fgets() into a buffer: the characters, and the NUL after them. */
  method ReadLine(text: string) returns (buf: string, n: nat)
    requires text != ""
    ensures n == LineLength(text) && buf == text[..n] + ['\0']
  {
    n := 0;
    while n < |text| && n < 1023 && !(n > 0 && text[n - 1] == '\n')
      invariant n <= |text| && n <= 1023 && (n > 0 ==> Lacks(text, '\n', 0, n - 1))
    {
      n := n + 1;
    }
    LineLengthIs(text, n);
    buf := text[..n] + ['\0'];
  }

  lemma LineLengthIs(text: string, n: nat)
    requires 0 < n <= |text| && n <= 1023 && Lacks(text, '\n', 0, n - 1)
    requires n == |text| || n == 1023 || text[n - 1] == '\n'
    ensures n == LineLength(text)
  {
    if text[n - 1] == '\n' {
      IndexOfIs(text, '\n', 0, n - 1);
    }
  }

  /** mime_table_initialize() for the text of a file that can be opened. */
  method MimeTableInitialize(text: string) returns (table: MimeTable)
    ensures fresh(table) && table.Valid() && table.Entries() == ReadTable(text)
  {
    hide ReadEntry, LineLength;
    table := new MimeTable();
    var rest := text;
    while rest != ""
      invariant table.Valid() && fresh(table) && fresh(table.entry)
      invariant table.Entries() + ReadTable(rest) == ReadTable(text)
      decreases |rest|
    {
      ghost var before := rest;
      var buf, n := ReadLine(rest);
      var length := StringLength(buf, n);
      CStringIs(buf, rest[..n], length);
      var e := ScanEntry(buf, length);
      LineLengthFits(rest);
      if e != None {
        table.Add(e.value);
      }
      rest := rest[n..];
    }
  }

  lemma LineLengthFits(text: string)
    requires text != ""
    ensures 0 < LineLength(text) <= |text|
  {
  }

  /** strlen(). */
  method StringLength(buf: string, ghost last: nat) returns (n: nat)
    requires last < |buf| && buf[last] == '\0'
    ensures n <= last && buf[n] == '\0' && '\0' !in buf[..n]
  {
    n := 0;
    while buf[n] != '\0'
      invariant n <= last && '\0' !in buf[..n]
      decreases last - n
    {
      n := n + 1;
    }
  }

  lemma CStringIs(buf: string, line: string, n: nat)
    requires buf == line + ['\0'] && n < |buf| && buf[n] == '\0' && '\0' !in buf[..n]
    ensures buf[..n] == CString(line)
  {
    forall j | 0 <= j < n
      ensures line[j] != '\0'
    {
      assert buf[..n][j] == buf[j] == line[j];
      assert buf[..n][j] in buf[..n];
    }
    IndexOfIs(line, '\0', 0, n);
  }

  /** What an entry needs to be read back from its line. */
  predicate Printable(e: Entry) {
    && e.extension != "" && '"' !in e.extension && '\0' !in e.extension && '\n' !in e.extension
    && Arrow(e.extension, 0) == |e.extension|
    && e.mimeType != "" && '"' !in e.mimeType && '\0' !in e.mimeType && '\n' !in e.mimeType
    && |e.extension| + |e.mimeType| <= 1009
  }

  /** A line as the table's file has it. */
  function PrintEntry(e: Entry): string {
    "    \"" + (e.extension + ("\" => \"" + (e.mimeType + "\",\n")))
  }

  function PrintTable(es: seq<Entry>): string {
    if es == [] then "" else PrintEntry(es[0]) + PrintTable(es[1..])
  }

  /** The line of an entry, character by character. */
  ghost predicate LineOf(s: string, e: Entry) {
    var p := 5 + |e.extension|;
    var q := p + 6 + |e.mimeType|;
    && |s| == q + 3 && (forall i | 0 <= i < 4 :: s[i] == ' ') && s[4] == '"'
    && (forall i | 0 <= i < |e.extension| :: s[5 + i] == e.extension[i])
    && s[p] == '"' && s[p + 1] == ' ' && s[p + 2] == '=' && s[p + 3] == '>' && s[p + 4] == ' ' && s[p + 5] == '"'
    && (forall i | 0 <= i < |e.mimeType| :: s[p + 6 + i] == e.mimeType[i])
    && s[q] == '"' && s[q + 1] == ',' && s[q + 2] == '\n'
  }

  lemma PrintedLine(e: Entry)
    ensures LineOf(PrintEntry(e), e)
  {
  }

  lemma ArrowIs(s: string, from: nat, i: nat)
    requires from <= i <= |s| && (i < |s| ==> ArrowAt(s, i)) && forall j | from <= j < i :: !ArrowAt(s, j)
    ensures Arrow(s, from) == i
  {
  }

  lemma ArrowOfLine(s: string, e: Entry)
    requires Printable(e) && LineOf(s, e)
    ensures Arrow(s, 0) == 5 + |e.extension| + 2
  {
    var p := 5 + |e.extension|;
    forall j | 0 <= j < p + 2
      ensures !ArrowAt(s, j)
    {
      if 5 <= j < p {
        assert s[j] == e.extension[j - 5];
        assert !ArrowAt(e.extension, j - 5);
        assert j + 1 < p ==> s[j + 1] == e.extension[j + 1 - 5];
      }
    }
    ArrowIs(s, 0, p + 2);
  }

  /** A word in quotes behind blanks is found. */
  lemma QuotedIs(s: string, from: nat, i: nat, word: string, end: nat)
    requires from <= i && i + 1 + |word| < end <= |s| && word != "" && '"' !in word
    requires (forall j | from <= j < i :: s[j] == ' ') && s[i] == '"' && s[i + 1 + |word|] == '"'
    requires forall j | 0 <= j < |word| :: s[i + 1 + j] == word[j]
    ensures Quoted(s, from, end) == Some(word)
  {
    SkipSpaceIs(s, from, i);
    forall j | i + 1 <= j < i + 1 + |word|
      ensures s[j] != '"'
    {
      assert s[i + 1 + (j - i - 1)] == word[j - i - 1];
    }
    IndexOfIs(s, '"', i + 1, i + 1 + |word|);
    assert s[i + 1..i + 1 + |word|] == word;
  }

  lemma LineIsText(s: string, e: Entry)
    requires Printable(e) && LineOf(s, e)
    ensures CString(s) == s && IndexOf(s, '\n', 0) == |s| - 1
  {
    forall j | 0 <= j < |s|
      ensures s[j] != '\0' && (j < |s| - 1 ==> s[j] != '\n')
    {
      if 5 <= j < 5 + |e.extension| {
        assert s[j] == e.extension[j - 5];
      } else if 11 + |e.extension| <= j < |s| - 3 {
        assert s[j] == e.mimeType[j - 11 - |e.extension|];
      }
    }
    CStringOfWhole(s);
    IndexOfIs(s, '\n', 0, |s| - 1);
  }

  /** Blanks, and a word in quotes that ends before `end`. */
  ghost predicate InQuotes(s: string, from: nat, i: nat, word: string, end: nat) {
    && from <= i && i + 1 + |word| < end <= |s| && (forall j | from <= j < i :: IsSpace(s[j]))
    && s[i] == '"' && s[i + 1..i + 1 + |word|] == word && s[i + 1 + |word|] == '"'
    && word != "" && '"' !in word
  }

  ghost predicate HasWord(s: string, from: nat, word: string, end: nat) {
    exists i: nat :: InQuotes(s, from, i, word, end)
  }

  ghost predicate FirstArrow(s: string, a: nat) {
    ArrowAt(s, a) && forall j | 0 <= j < a :: !ArrowAt(s, j)
  }

  lemma QuotedWhen(s: string, from: nat, word: string, end: nat)
    requires from <= end <= |s|
    ensures Quoted(s, from, end) == Some(word) <==> HasWord(s, from, word, end)
  {
    var i := from + SkipSpace(s[from..]);
    SpacesBefore(s, from, i);
    if Quoted(s, from, end) == Some(word) {
      assert InQuotes(s, from, i, word, end);
    }
    if k: nat :| InQuotes(s, from, k, word, end) {
      SkipSpaceIs(s, from, k);
      forall j | k + 1 <= j < k + 1 + |word|
        ensures s[j] != '"'
      {
        assert s[j] == s[k + 1..k + 1 + |word|][j - k - 1];
      }
      IndexOfIs(s, '"', k + 1, k + 1 + |word|);
    }
  }

  /** A line gives an entry exactly when it is no comment and its first arrow stands between two words in quotes. */
  lemma EntryWhen(s: string, e: Entry)
    ensures ReadEntry(s) == Some(e) <==>
              && s != "" && s[0] != '#'
              && exists a: nat ::
                   0 < a && FirstArrow(s, a) && HasWord(s, 0, e.extension, a) && HasWord(s, a + 2, e.mimeType, |s|)
  {
    hide Quoted, Arrow, HasWord;
    var a := Arrow(s, 0);
    if a < |s| {
      assert FirstArrow(s, a);
      QuotedWhen(s, 0, e.extension, a);
      QuotedWhen(s, a + 2, e.mimeType, |s|);
    }
    if b: nat :| 0 < b && FirstArrow(s, b) {
      ArrowIs(s, 0, b);
    }
  }

  /** A printed entry is read back. */
  lemma EntryRoundTrips(e: Entry)
    requires Printable(e)
    ensures ReadEntry(CString(PrintEntry(e))) == Some(e)
  {
    hide PrintEntry, Quoted, Arrow, SkipSpace;
    var s := PrintEntry(e);
    PrintedLine(e);
    LineIsText(s, e);
    ArrowOfLine(s, e);
    QuotedIs(s, 0, 4, e.extension, 7 + |e.extension|);
    QuotedIs(s, 9 + |e.extension|, 10 + |e.extension|, e.mimeType, |s|);
  }

  /** The round trip of a whole file: a printed table is read back, whatever the number of its entries. */
  lemma {:induction false} TableRoundTrips(es: seq<Entry>)
    requires forall e | e in es :: Printable(e)
    ensures ReadTable(PrintTable(es)) == es
  {
    hide ReadEntry, PrintEntry, Printable, CString;
    if es != [] {
      assert es[0] in es;
      var line, rest := PrintEntry(es[0]), PrintTable(es[1..]);
      LineBefore(es[0], rest);
      EntryRoundTrips(es[0]);
      TableRoundTrips(es[1..]);
      assert (line + rest)[..|line|] == line && (line + rest)[|line|..] == rest;
    }
  }

  /** A line of the file: an entry, or a comment or anything without an arrow, which may be empty. */
  datatype FileLine = OfEntry(entry: Entry) | Noise(text: string)
  {
    ghost predicate Valid() {
      match this
      case OfEntry(e) => Printable(e)
      case Noise(text) =>
        && '\n' !in text && |text| < 1023
        && ((text != "" && text[0] == '#') || forall i | 0 <= i < |text| - 1 :: !(text[i] == '=' && text[i + 1] == '>'))
    }

    function Print(): string {
      match this
      case OfEntry(e) => PrintEntry(e)
      case Noise(text) => text + "\n"
    }
  }

  function PrintFile(lines: seq<FileLine>): string {
    if lines == [] then "" else lines[0].Print() + PrintFile(lines[1..])
  }

  function EntriesOf(lines: seq<FileLine>): seq<Entry> {
    if lines == [] then [] else (if lines[0].OfEntry? then [lines[0].entry] else []) + EntriesOf(lines[1..])
  }

  /** A comment, a blank line and any other line without an arrow give no entry. */
  lemma NoiseIsNoEntry(text: string)
    requires FileLine.Noise(text).Valid()
    ensures ReadEntry(CString(text + "\n")) == None
  {
    var line := CString(text + "\n");
    if line != "" && line[0] != '#' {
      assert line[0] == (text + "\n")[0];
      forall j | 0 <= j < |line|
        ensures !ArrowAt(line, j)
      {
        assert forall i | 0 <= i < |line| :: line[i] == (text + "\n")[i];
      }
      ArrowIs(line, 0, |line|);
    }
  }

  lemma NoiseBefore(text: string, rest: string)
    requires FileLine.Noise(text).Valid()
    ensures LineLength(text + "\n" + rest) == |text| + 1
  {
    var s := text + "\n" + rest;
    assert forall j | 0 <= j < |text| :: s[j] == text[j];
    IndexOfIs(s, '\n', 0, |text|);
  }

  /** The table holds the entries of a file in their order, whatever comments and blank lines stand between. */
  lemma {:induction false} FileRoundTrips(lines: seq<FileLine>)
    requires forall l | l in lines :: l.Valid()
    ensures ReadTable(PrintFile(lines)) == EntriesOf(lines)
  {
    hide ReadEntry, PrintEntry, FileLine.Valid, CString, LineLength;
    if lines != [] {
      var first, rest := lines[0], PrintFile(lines[1..]);
      assert first in lines && forall l | l in lines[1..] :: l in lines;
      FileRoundTrips(lines[1..]);
      LineIsRead(first, rest);
      var line := first.Print();
      assert (line + rest)[..|line|] == line && (line + rest)[|line|..] == rest;
    }
  }

  lemma LineIsRead(line: FileLine, rest: string)
    requires line.Valid()
    ensures line.Print() != "" && LineLength(line.Print() + rest) == |line.Print()|
    ensures ReadEntry(CString(line.Print())) == if line.OfEntry? then Some(line.entry) else None
  {
    hide ReadEntry, PrintEntry, Printable, CString, LineLength;
    match line
    case OfEntry(e) =>
      EntryRoundTrips(e);
      LineBefore(e, rest);
    case Noise(text) =>
      NoiseIsNoEntry(text);
      NoiseBefore(text, rest);
  }

  lemma LineBefore(e: Entry, rest: string)
    requires Printable(e)
    ensures LineLength(PrintEntry(e) + rest) == |PrintEntry(e)| > 0
  {
    hide PrintEntry;
    var line := PrintEntry(e);
    PrintedLine(e);
    LineIsText(line, e);
    assert forall j | 0 <= j < |line| :: (line + rest)[j] == line[j];
    IndexOfIs(line + rest, '\n', 0, |line| - 1);
  }
}
