/** C strings and the few C library functions the parsers use, over sequences of characters. */
module CStrings {
  import opened Words

  /** `c` does not occur between two positions. */
  ghost predicate Lacks(s: seq<char>, c: char, from: nat, to: nat)
    requires to <= |s|
  {
    forall j | from <= j < to :: s[j] != c
  }

  /** The first position of `c` at or after `from`, or the length of `s`. */
  function IndexOf(s: seq<char>, c: char, from: nat): (i: nat)
    requires from <= |s|
    ensures from <= i <= |s| && (i < |s| ==> s[i] == c) && Lacks(s, c, from, i)
    decreases |s| - from
  {
    if from == |s| || s[from] == c then from else IndexOf(s, c, from + 1)
  }

  lemma IndexOfIs(s: seq<char>, c: char, from: nat, i: nat)
    requires from <= i <= |s| && (i < |s| ==> s[i] == c) && Lacks(s, c, from, i)
    ensures IndexOf(s, c, from) == i
  {
  }

  /** The C string at the start of `s`: the bytes before the first NUL. */
  function CString(s: seq<char>): (r: seq<char>)
    ensures r <= s && '\0' !in r
  {
    s[..IndexOf(s, '\0', 0)]
  }

  lemma CStringOfWhole(s: seq<char>)
    requires '\0' !in s
    ensures CString(s) == s
  {
  }

  function Lower(c: char): char {
    if 'A' <= c <= 'Z' then (c as int + 32) as char else c
  }

  /** strncasecmp(s, t, strlen(t)) == 0 for a `t` without NUL. */
  predicate HasPrefix(s: seq<char>, t: seq<char>) {
    |t| <= |s| && forall i | 0 <= i < |t| :: Lower(s[i]) == Lower(t[i])
  }

  const CAPITALS := "ABCDEFGHIJKLMNOPQRSTUVWXYZ"
  const SMALL := "abcdefghijklmnopqrstuvwxyz"

  /** The same character, or the two forms of one letter. */
  predicate SameLetter(a: char, b: char) {
    || a == b
    || exists i | 0 <= i < 26 :: (a == CAPITALS[i] && b == SMALL[i]) || (a == SMALL[i] && b == CAPITALS[i])
  }

  /** The same text but for upper and lower case. */
  predicate SameText(s: seq<char>, t: seq<char>) {
    |s| == |t| && forall i | 0 <= i < |t| :: SameLetter(s[i], t[i])
  }

  lemma LettersAt(i: nat)
    requires i < 26
    ensures CAPITALS[i] as int == 'A' as int + i && SMALL[i] as int == 'a' as int + i
  {
  }

  /** Comparing in lower case is comparing but for case. */
  lemma LowerIs(a: char, b: char)
    ensures Lower(a) == Lower(b) <==> SameLetter(a, b)
  {
    if Lower(a) == Lower(b) {
      SameWhenLower(a, b);
    }
    if SameLetter(a, b) {
      LowerWhenSame(a, b);
    }
  }

  lemma SameWhenLower(a: char, b: char)
    requires Lower(a) == Lower(b)
    ensures SameLetter(a, b)
  {
    if a != b {
      var i := Lower(a) as int - 'a' as int;
      LettersAt(i);
    }
  }

  lemma LowerWhenSame(a: char, b: char)
    requires SameLetter(a, b)
    ensures Lower(a) == Lower(b)
  {
    if a != b {
      var i :| 0 <= i < 26 && ((a == CAPITALS[i] && b == SMALL[i]) || (a == SMALL[i] && b == CAPITALS[i]));
      LettersAt(i);
    }
  }

  lemma HasPrefixIs(s: seq<char>, t: seq<char>)
    ensures HasPrefix(s, t) <==> |t| <= |s| && SameText(s[..|t|], t)
  {
    hide Lower, SameLetter;
    if |t| <= |s| {
      forall i | 0 <= i < |t|
        ensures Lower(s[i]) == Lower(t[i]) <==> SameLetter(s[..|t|][i], t[i])
      {
        LowerIs(s[i], t[i]);
      }
    }
  }

  predicate IsSpace(c: char) {
    c == ' ' || '\t' <= c <= '\r'
  }

  predicate IsDigit(c: char) {
    '0' <= c <= '9'
  }

  function SkipSpace(s: seq<char>): (n: nat)
    ensures n <= |s|
  {
    if s != [] && IsSpace(s[0]) then 1 + SkipSpace(s[1..]) else 0
  }

  /** The number of digits at the start of `s`. */
  function DigitRun(s: seq<char>): (n: nat)
    ensures n <= |s| && forall i | 0 <= i < n :: IsDigit(s[i])
  {
    if s != [] && IsDigit(s[0]) then 1 + DigitRun(s[1..]) else 0
  }

  /** The number that a row of digits stands for. */
  function Number(s: seq<char>): nat
    requires forall i | 0 <= i < |s| :: IsDigit(s[i])
  {
    if s == [] then 0 else
    assert IsDigit(s[|s| - 1]);
    10 * Number(s[..|s| - 1]) + (s[|s| - 1] as int - '0' as int)
  }

  const LONG_MAX := 0x7FFF_FFFF_FFFF_FFFF

  /** strtol() in base 10: the number, clamped to a long, and how many characters it took. */
  function Strtol(s: seq<char>): (r: (int, nat))
    ensures r.1 <= |s|
  {
    var sign := SkipSpace(s);
    var minus := sign < |s| && s[sign] == '-';
    var start := if sign < |s| && (s[sign] == '-' || s[sign] == '+') then sign + 1 else sign;
    var n := DigitRun(s[start..]);
    if n == 0 then (0, 0)
    else
      var v: int := Number(s[start..][..n]);
      (if minus then Max(-v, -LONG_MAX - 1) else Min(v, LONG_MAX), start + n)
  }

  /** The value an int keeps of a long. */
  function ToInt32(x: int): int {
    var w := x % TWO_TO_THE_32;
    if w >= 0x8000_0000 then w - TWO_TO_THE_32 else w
  }

  predicate IsBlank(c: char) {
    c == ' ' || c == '\t'
  }

  function SkipBlanks(s: seq<char>): (r: seq<char>)
    ensures |r| <= |s|
  {
    if s != [] && IsBlank(s[0]) then SkipBlanks(s[1..]) else s
  }

  lemma {:induction false} SkipBlanksOf(blanks: seq<char>, value: seq<char>)
    requires forall i | 0 <= i < |blanks| :: IsBlank(blanks[i])
    requires value == [] || !IsBlank(value[0])
    ensures SkipBlanks(blanks + value) == value
  {
    if blanks == [] {
      assert blanks + value == value;
    } else {
      assert (blanks + value)[1..] == blanks[1..] + value;
      SkipBlanksOf(blanks[1..], value);
    }
  }

  /** A C string stops at the NUL that is written after it. */
  lemma CStringUpTo(t: seq<char>, n: nat)
    requires n < |t| && t[n] == '\0'
    ensures CString(t) == CString(t[..n])
  {
    var k := IndexOf(t, '\0', 0);
    assert t[..n][..k] == t[..k];
    IndexOfIs(t[..n], '\0', 0, k);
  }

  /** A comparison with a text without NUL does not look past a NUL. */
  lemma PrefixUpTo(t: seq<char>, n: nat, key: seq<char>)
    requires n < |t| && t[n] == '\0' && '\0' !in key
    ensures HasPrefix(t, key) <==> HasPrefix(t[..n], key)
  {
    if |key| > n {
      assert key[n] in key;
    }
  }

  /** The C string that starts later inside a C string. */
  lemma CStringFrom(t: seq<char>, k: nat)
    requires k <= |CString(t)|
    ensures CString(t[k..]) == CString(t)[k..]
  {
    var n := IndexOf(t, '\0', 0);
    assert t[k..][0..n - k] == t[0..n][k..];
    IndexOfIs(t[k..], '\0', 0, n - k);
  }
}
