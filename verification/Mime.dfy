/** The MIME lookup of src/response.cpp: the first extension that ends the path wins. */
module Mimes {
  import opened Words
  import opened CStrings

  datatype Entry = Entry(extension: string, mimeType: string)

  /** `s` ends with `t`, upper and lower case alike. */
  predicate EndsWith(s: string, t: string) {
    |t| <= |s| && HasPrefix(s[|s| - |t|..], t)
  }

  predicate Matches(e: Entry, path: string) {
    |e.extension| > 0 && EndsWith(path, e.extension)
  }

  ghost predicate FirstMatch(table: seq<Entry>, path: string, i: nat) {
    i < |table| && Matches(table[i], path) && forall k | 0 <= k < i :: !Matches(table[k], path)
  }

  /** The path ends with the extension, which is not empty, in whatever case. */
  predicate HasExtension(path: string, extension: string) {
    0 < |extension| <= |path| && SameText(path[|path| - |extension|..], extension)
  }

  lemma MatchesIs(e: Entry, path: string)
    ensures Matches(e, path) <==> HasExtension(path, e.extension)
  {
    hide HasPrefix, SameText;
    var n := |e.extension|;
    if n <= |path| {
      var end := path[|path| - n..];
      HasPrefixIs(end, e.extension);
      assert end[..n] == end;
    }
  }

  /** Paths that are the same but for case have the same type, and so have their files. */
  lemma CaseOfPathDoesNotMatter(table: seq<Entry>, path: string, other: string, i: nat)
    requires SameText(path, other)
    ensures FirstMatch(table, path, i) <==> FirstMatch(table, other, i)
  {
    hide HasExtension;
    forall k | 0 <= k < |table|
      ensures Matches(table[k], path) <==> Matches(table[k], other)
    {
      MatchesIs(table[k], path);
      MatchesIs(table[k], other);
      SameExtension(path, other, table[k].extension);
    }
  }

  lemma SameExtension(path: string, other: string, extension: string)
    requires SameText(path, other)
    ensures HasExtension(path, extension) <==> HasExtension(other, extension)
  {
    hide SameLetter, Lower;
    var n := |extension|;
    if 0 < n <= |path| {
      var from := |path| - n;
      forall i | 0 <= i < n
        ensures SameLetter(path[from..][i], extension[i]) <==> SameLetter(other[from..][i], extension[i])
      {
        assert SameLetter(path[from + i], other[from + i]);
        LowerIs(path[from + i], other[from + i]);
        LowerIs(path[from + i], extension[i]);
        LowerIs(other[from + i], extension[i]);
      }
    }
  }

  /** The loop over the table: the first entry whose extension the path has; None when there is none. */
  method LookupMime(table: seq<Entry>, path: string) returns (i: Option<nat>)
    ensures i.Some? ==> FirstMatch(table, path, i.value)
    ensures i.None? ==> forall k | 0 <= k < |table| :: !Matches(table[k], path)
    ensures i.Some? ==> i.value < |table| && HasExtension(path, table[i.value].extension)
    ensures forall k | 0 <= k < if i.Some? then i.value else |table| :: !HasExtension(path, table[k].extension)
  {
    hide HasExtension;
    forall k | 0 <= k < |table|
      ensures Matches(table[k], path) <==> HasExtension(path, table[k].extension)
    {
      MatchesIs(table[k], path);
    }
    for index := 0 to |table|
      invariant forall k | 0 <= k < index :: !Matches(table[k], path)
    {
      var extension := table[index].extension;
      if |extension| > 0 && |extension| <= |path| && HasPrefix(path[|path| - |extension|..], extension) {
        return Some(index);
      }
    }
    i := None;
  }

  lemma EndsWithAt(s: string, t: string)
    ensures EndsWith(s, t) <==>
              |t| <= |s| && forall i | 0 <= i < |t| :: Lower(s[|s| - |t| + i]) == Lower(t[i])
  {
    if |t| <= |s| {
      var end := s[|s| - |t|..];
      if HasPrefix(end, t) {
        forall i | 0 <= i < |t|
          ensures Lower(s[|s| - |t| + i]) == Lower(t[i])
        {
          assert end[i] == s[|s| - |t| + i];
        }
      }
    }
  }

  /** Of two ends of the same text the shorter is an end of the longer. */
  lemma EndsNest(path: string, short: string, long: string)
    requires EndsWith(path, short) && EndsWith(path, long) && |short| <= |long|
    ensures EndsWith(long, short)
  {
    EndsWithAt(path, short);
    EndsWithAt(path, long);
    EndsWithAt(long, short);
    forall i | 0 <= i < |short|
      ensures Lower(long[|long| - |short| + i]) == Lower(short[i])
    {
      var j := |long| - |short| + i;
      assert Lower(path[|path| - |long| + j]) == Lower(long[j]);
      assert path[|path| - |long| + j] == path[|path| - |short| + i];
    }
  }

  lemma EndsWithTransitive(a: string, b: string, c: string)
    requires EndsWith(a, b) && EndsWith(b, c)
    ensures EndsWith(a, c)
  {
    EndsWithAt(a, b);
    EndsWithAt(b, c);
    EndsWithAt(a, c);
    forall i | 0 <= i < |c|
      ensures Lower(a[|a| - |c| + i]) == Lower(c[i])
    {
      assert a[|a| - |b| + (|b| - |c| + i)] == a[|a| - |c| + i];
    }
  }

  /** Entry `i` stands before a longer extension `j` that it ends, and none before it is as long and equal. */
  ghost predicate Shadows(table: seq<Entry>, i: nat, j: nat) {
    && i < j < |table| && |table[i].extension| > 0
    && |table[i].extension| < |table[j].extension| && EndsWith(table[j].extension, table[i].extension)
    && forall k | 0 <= k < i :: !(Matches(table[k], table[j].extension) && |table[k].extension| == |table[j].extension|)
  }

  ghost predicate FirstIsLongest(table: seq<Entry>) {
    forall path, i: nat, j: nat | FirstMatch(table, path, i) && j < |table| && Matches(table[j], path) ::
      |table[j].extension| <= |table[i].extension|
  }

  /**
   The first match is a longest one for every path exactly when no entry shadows a later one: the
   order of the table, longer extensions before the shorter ones that end them, is what counts.
   */
  lemma FirstIsLongestWhenOrdered(table: seq<Entry>)
    ensures FirstIsLongest(table) <==> forall i: nat, j: nat :: !Shadows(table, i, j)
  {
    if i: nat, j: nat :| Shadows(table, i, j) {
      var path := table[j].extension;
      EndsWithAt(path, path);
      var f := FirstOf(table, path, i);
      assert Matches(table[j], path);
      EndsWithAt(path, table[f].extension);
      assert !FirstIsLongest(table);
    } else {
      forall path, i: nat, j: nat | FirstMatch(table, path, i) && j < |table| && Matches(table[j], path)
        ensures |table[j].extension| <= |table[i].extension|
      {
        if |table[j].extension| > |table[i].extension| {
          EndsNest(path, table[i].extension, table[j].extension);
          forall k | 0 <= k < i
            ensures !(Matches(table[k], table[j].extension) && |table[k].extension| == |table[j].extension|)
          {
            if Matches(table[k], table[j].extension) {
              EndsWithTransitive(path, table[j].extension, table[k].extension);
            }
          }
          assert Shadows(table, i, j);
        }
      }
    }
  }

  /** A first match exists once any entry matches. */
  lemma {:induction false} FirstOf(table: seq<Entry>, path: string, i: nat) returns (f: nat)
    requires i < |table| && Matches(table[i], path)
    ensures f <= i && FirstMatch(table, path, f)
    decreases i
  {
    if k: nat :| k < i && Matches(table[k], path) {
      f := FirstOf(table, path, k);
    } else {
      f := i;
    }
  }
}
