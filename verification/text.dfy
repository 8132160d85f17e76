/** The JavaScript string operations the scraper relies on: `indexOf`, `split` with a
    string separator, `Array.prototype.join`, `trim` and `toLowerCase`. */
module Text {

  /** `pat` occurs in `s` starting at index `p`. */
  predicate OccursAt(s: string, pat: string, p: int) {
    0 <= p && p + |pat| <= |s| && s[p..p + |pat|] == pat
  }

  /** `pat` occurs somewhere in `s`. */
  ghost predicate Contains(s: string, pat: string) {
    exists p :: OccursAt(s, pat, p)
  }

  /** An occurrence one character further into `s` is an occurrence in the rest of `s`. */
  lemma OccursInTail(s: string, pat: string, p: int)
    requires |s| > 0 && p >= 1
    ensures OccursAt(s, pat, p) <==> OccursAt(s[1..], pat, p - 1)
  {
    if p + |pat| <= |s| {
      assert s[1..][p - 1..p - 1 + |pat|] == s[p..p + |pat|];
    }
  }

  /** `s.indexOf(pat)`: the index of the leftmost occurrence of `pat` in `s`, or -1. */
  function IndexOf(s: string, pat: string): (r: int)
    ensures r == -1 || OccursAt(s, pat, r)
    ensures forall p :: 0 <= p && (r == -1 || p < r) ==> !OccursAt(s, pat, p)
    decreases |s|
  {
    if |pat| > |s| then -1
    else if s[..|pat|] == pat then 0
    else
      var j := IndexOf(s[1..], pat);
      assert !OccursAt(s, pat, 0);
      forall p | 1 <= p
        ensures OccursAt(s, pat, p) <==> OccursAt(s[1..], pat, p - 1)
      {
        OccursInTail(s, pat, p);
      }
      if j < 0 then -1 else j + 1
  }

  /** `fields.join(sep)`: the fields with `sep` between consecutive ones. */
  function Join(fields: seq<string>, sep: string): string
  {
    if |fields| == 0 then ""
    else if |fields| == 1 then fields[0]
    else fields[0] + sep + Join(fields[1..], sep)
  }

  /** `s.split(sep)` for a non-empty separator: cut `s` at each leftmost, non-overlapping
      occurrence of `sep`. Like JavaScript, the result always has at least one field and
      has more than one exactly when `sep` occurs in `s`. */
  function Split(s: string, sep: string): (fields: seq<string>)
    requires |sep| > 0
    ensures |fields| >= 1
    ensures |fields| > 1 <==> Contains(s, sep)
    decreases |s|
  {
    var i := IndexOf(s, sep);
    if i < 0 then [s] else [s[..i]] + Split(s[i + |sep|..], sep)
  }

  /** An occurrence inside a prefix of `s` is an occurrence in `s`. */
  lemma OccursInPrefix(s: string, pat: string, n: nat, p: int)
    requires n <= |s| && OccursAt(s[..n], pat, p)
    ensures OccursAt(s, pat, p)
  {
    assert s[..n][p..p + |pat|] == s[p..p + |pat|];
  }

  /** A string none of whose characters is the first character of `pat` does not contain `pat`. */
  lemma {:induction false} NoFirstCharNoOccurrence(s: string, pat: string)
    requires |pat| > 0
    requires forall i :: 0 <= i < |s| ==> s[i] != pat[0]
    ensures !Contains(s, pat)
  {
    forall p
      ensures !OccursAt(s, pat, p)
    {
      if 0 <= p && p + |pat| <= |s| {
        assert s[p..p + |pat|][0] == s[p];
      }
    }
  }

  /** A one-character pattern occurs exactly when its character does. */
  lemma ContainsChar(s: string, c: char)
    ensures Contains(s, [c]) <==> c in s
  {
    if c in s {
      var i :| 0 <= i < |s| && s[i] == c;
      assert s[i..i + 1] == [c];
      assert OccursAt(s, [c], i);
    }
    if Contains(s, [c]) {
      var p :| OccursAt(s, [c], p);
      assert s[p..p + 1][0] == s[p];
    }
  }

  /** Joining the fields of a split gives back the string that was split. */
  lemma {:induction false} SplitJoin(s: string, sep: string)
    requires |sep| > 0
    ensures Join(Split(s, sep), sep) == s
    decreases |s|
  {
    var i := IndexOf(s, sep);
    if i >= 0 {
      var tail := s[i + |sep|..];
      var rest := Split(tail, sep);
      SplitJoin(tail, sep);
      assert Split(s, sep) == [s[..i]] + rest;
      assert ([s[..i]] + rest)[1..] == rest;
      assert s == s[..i] + s[i..i + |sep|] + tail;
    }
  }

  /** No field of a split contains the separator. */
  lemma {:induction false} SplitFieldsFree(s: string, sep: string)
    requires |sep| > 0
    ensures forall k :: 0 <= k < |Split(s, sep)| ==> !Contains(Split(s, sep)[k], sep)
    decreases |s|
  {
    var i := IndexOf(s, sep);
    if i >= 0 {
      var tail := s[i + |sep|..];
      var fields := Split(s, sep);
      var rest := Split(tail, sep);
      assert fields == [s[..i]] + rest;
      SplitFieldsFree(tail, sep);
      NothingBeforeFirst(s, sep);
      forall k | 1 <= k < |fields|
        ensures !Contains(fields[k], sep)
      {
        assert fields[k] == rest[k - 1];
      }
    }
  }

  /** The first field of a split, followed by the separator, has its first occurrence of
      the separator right after the field. */
  lemma FirstCut(s: string, sep: string)
    requires |sep| > 0 && IndexOf(s, sep) >= 0
    ensures var i := IndexOf(s, sep); IndexOf(s[..i] + sep, sep) == i
  {
    var i := IndexOf(s, sep);
    var x := s[..i] + sep;
    assert x == s[..i + |sep|];
    OccursAfter(s[..i], sep);
    forall p | 0 <= p < i && OccursAt(x, sep, p)
      ensures false
    {
      OccursInPrefix(s, sep, i + |sep|, p);
    }
  }

  /** Every field but the last, followed by the separator, first contains the separator
      right after the field: the fields were cut at leftmost occurrences. */
  predicate CutsLeftmost(fields: seq<string>, sep: string) {
    forall k :: 0 <= k < |fields| - 1 ==> IndexOf(fields[k] + sep, sep) == |fields[k]|
  }

  /** The cuts of a split fall at the leftmost occurrences. With `SplitJoin` this fixes the
      fields, so a run of separators is cut from the left. */
  lemma {:induction false} SplitCutsLeftmost(s: string, sep: string)
    requires |sep| > 0
    ensures CutsLeftmost(Split(s, sep), sep)
    decreases |s|
  {
    var i := IndexOf(s, sep);
    if i >= 0 {
      var tail := s[i + |sep|..];
      var fields := Split(s, sep);
      var rest := Split(tail, sep);
      assert fields == [s[..i]] + rest;
      SplitCutsLeftmost(tail, sep);
      FirstCut(s, sep);
      LeftmostCons(s[..i], rest, sep);
    }
  }

  /** A field cut at the first occurrence, in front of fields cut at leftmost occurrences. */
  lemma LeftmostCons(head: string, rest: seq<string>, sep: string)
    requires IndexOf(head + sep, sep) == |head|
    requires CutsLeftmost(rest, sep)
    ensures CutsLeftmost([head] + rest, sep)
  {
  }

  /** `indexOf` finds something exactly when the pattern occurs. */
  lemma IndexOfFound(s: string, pat: string)
    ensures IndexOf(s, pat) > -1 <==> Contains(s, pat)
  {
  }

  /** The text before the first occurrence of `sep` does not contain it. */
  lemma NothingBeforeFirst(s: string, sep: string)
    requires |sep| > 0 && IndexOf(s, sep) >= 0
    ensures !Contains(s[..IndexOf(s, sep)], sep)
  {
    var i := IndexOf(s, sep);
    forall p | OccursAt(s[..i], sep, p)
      ensures false
    {
      OccursInPrefix(s, sep, i, p);
    }
  }

  /** When `sep` first occurs in `a + sep + b` right after `a` (so `a` holds no occurrence and
      its last character cannot start one that runs into `sep`), the split starts with `a`. */
  lemma SplitAtFirst(a: string, sep: string, b: string)
    requires |sep| > 0
    requires !Contains(a, sep)
    requires |a| == 0 || a[|a| - 1] !in sep
    ensures Split(a + sep + b, sep) == [a] + Split(b, sep)
  {
    var s := a + sep + b;
    assert s[|a|..|a| + |sep|] == sep;
    assert OccursAt(s, sep, |a|);
    forall p | 0 <= p < |a|
      ensures !OccursAt(s, sep, p)
    {
      if p + |sep| <= |a| {
        assert s[p..p + |sep|] == a[p..p + |sep|];
        assert !OccursAt(a, sep, p);
      } else {
        var k := |a| - 1 - p;
        assert s[p..p + |sep|][k] == a[|a| - 1];
        assert sep[k] in sep;
      }
    }
    var i := IndexOf(s, sep);
    assert i == |a|;
    assert s[..i] == a;
    assert s[i + |sep|..] == b;
  }

  /** A pattern occurs where it is appended. */
  lemma OccursAfter(a: string, pat: string)
    ensures OccursAt(a + pat, pat, |a|)
  {
    assert (a + pat)[|a|..|a| + |pat|] == pat;
  }

  /** `c` is a character of the separator. */
  predicate InSeparator(c: char, sep: string) {
    c in sep
  }

  /** Splitting a join gives back the fields, provided no field uses a separator character. */
  lemma {:induction false} JoinSplit(fields: seq<string>, sep: string)
    requires |sep| > 0 && |fields| >= 1
    requires forall k, j :: 0 <= k < |fields| && 0 <= j < |fields[k]| ==> !InSeparator(fields[k][j], sep)
    ensures Split(Join(fields, sep), sep) == fields
    decreases |fields|
  {
    var f := fields[0];
    assert forall j :: 0 <= j < |f| ==> !InSeparator(f[j], sep);
    assert forall j :: 0 <= j < |f| ==> f[j] != sep[0] by {
      forall j | 0 <= j < |f| ensures f[j] != sep[0] {
        assert !InSeparator(f[j], sep);
      }
    }
    NoFirstCharNoOccurrence(f, sep);
    if |fields| == 1 {
      assert Join(fields, sep) == f;
      assert IndexOf(f, sep) == -1;
    } else {
      var rest := fields[1..];
      JoinSplit(rest, sep);
      assert |f| == 0 || !InSeparator(f[|f| - 1], sep);
      SplitAtFirst(f, sep, Join(rest, sep));
      assert fields == [f] + rest;
    }
  }

  /** The same code points listed one by one, in increasing order. */
  const WhiteSpaceChars: string := "\U{9}\U{A}\U{B}\U{C}\U{D}\U{20}\U{A0}\U{1680}\U{2000}\U{2001}\U{2002}\U{2003}\U{2004}\U{2005}\U{2006}\U{2007}\U{2008}\U{2009}\U{200A}\U{2028}\U{2029}\U{202F}\U{205F}\U{3000}\U{FEFF}"

  /** The characters JavaScript's `trim` removes: the WhiteSpace and LineTerminator code
      points of ECMAScript (tab, vertical tab, form feed, space, no-break space, byte order
      mark, the Unicode space separators, and LF, CR, U+2028, U+2029). */
  predicate IsWhiteSpace(c: char) {
    var n := c as int;
    n == 0x09 || n == 0x0A || n == 0x0B || n == 0x0C || n == 0x0D || n == 0x20
    || n == 0xA0 || n == 0x1680 || (0x2000 <= n <= 0x200A) || n == 0x2028 || n == 0x2029
    || n == 0x202F || n == 0x205F || n == 0x3000 || n == 0xFEFF
  }

  /** The white-space test accepts exactly the listed code points. */
  lemma IsWhiteSpaceListed(c: char)
    ensures IsWhiteSpace(c) <==> c in WhiteSpaceChars
  {
  }

  /** Drops the leading white space of `s`. */
  function TrimStart(s: string): (r: string)
    ensures |r| <= |s| && r == s[|s| - |r|..]
    ensures |r| == 0 || !IsWhiteSpace(r[0])
  {
    if |s| > 0 && IsWhiteSpace(s[0]) then TrimStart(s[1..]) else s
  }

  /** Drops the trailing white space of `s`. */
  function TrimEnd(s: string): (r: string)
    ensures |r| <= |s| && r == s[..|r|]
    ensures |r| == 0 || !IsWhiteSpace(r[|r| - 1])
  {
    if |s| > 0 && IsWhiteSpace(s[|s| - 1]) then TrimEnd(s[..|s| - 1]) else s
  }

  /** Everything `TrimStart` drops is white space. */
  lemma {:induction false} TrimStartDropsWhiteSpace(s: string)
    ensures forall i :: 0 <= i < |s| - |TrimStart(s)| ==> IsWhiteSpace(s[i])
    decreases |s|
  {
    if |s| > 0 && IsWhiteSpace(s[0]) {
      TrimStartDropsWhiteSpace(s[1..]);
      assert forall i :: 1 <= i < |s| ==> s[i] == s[1..][i - 1];
    }
  }

  /** Everything `TrimEnd` drops is white space. */
  lemma {:induction false} TrimEndDropsWhiteSpace(s: string)
    ensures forall i :: |TrimEnd(s)| <= i < |s| ==> IsWhiteSpace(s[i])
    decreases |s|
  {
    if |s| > 0 && IsWhiteSpace(s[|s| - 1]) {
      TrimEndDropsWhiteSpace(s[..|s| - 1]);
      assert forall i :: 0 <= i < |s| - 1 ==> s[i] == s[..|s| - 1][i];
    }
  }

  /** `s.trim()`: the text left once the white space at both ends is removed. */
  function Trim(s: string): (r: string)
    ensures |r| <= |s|
    ensures |r| == 0 || (!IsWhiteSpace(r[0]) && !IsWhiteSpace(r[|r| - 1]))
  {
    var t := TrimStart(s);
    var r := TrimEnd(t);
    assert |r| == 0 || r[0] == t[0];
    r
  }

  /** The trimmed text is the slice of `s` that starts after the leading white space. */
  lemma TrimIsSlice(s: string)
    ensures var i := |s| - |TrimStart(s)|; var r := Trim(s);
      i + |r| <= |s| && s[i..i + |r|] == r
  {
    var t := TrimStart(s);
    var i := |s| - |t|;
    var r := TrimEnd(t);
    assert Trim(s) == r;
    PrefixOfSuffix(s, i, |r|);
  }

  /** The first `n` characters from position `i` on are the slice from `i` to `i + n`. */
  lemma PrefixOfSuffix(s: string, i: nat, n: nat)
    requires i + n <= |s|
    ensures s[i..][..n] == s[i..i + n]
  {
  }

  /** Everything after the trimmed text is white space. */
  lemma TrimEndsInWhiteSpace(s: string)
    ensures var i := |s| - |TrimStart(s)|;
      forall k :: i + |Trim(s)| <= k < |s| ==> IsWhiteSpace(s[k])
  {
    var t := TrimStart(s);
    var i := |s| - |t|;
    var r := TrimEnd(t);
    TrimEndDropsWhiteSpace(t);
    forall k | i + |r| <= k < |s|
      ensures IsWhiteSpace(s[k])
    {
      assert s[k] == t[k - i];
    }
  }

  /** Trimming removes only white space: with `i` characters dropped in front, `s` is
      white space before `i`, the trimmed text from `i` on, and white space after it. */
  lemma TrimDropsOnlyWhiteSpace(s: string)
    ensures var i := |s| - |TrimStart(s)|; var r := Trim(s);
      && i + |r| <= |s|
      && s[i..i + |r|] == r
      && (forall k :: 0 <= k < i ==> IsWhiteSpace(s[k]))
      && (forall k :: i + |r| <= k < |s| ==> IsWhiteSpace(s[k]))
  {
    TrimIsSlice(s);
    TrimStartDropsWhiteSpace(s);
    TrimEndsInWhiteSpace(s);
  }

  /** Every character of the trimmed text comes from the original. */
  lemma TrimKeepsChars(s: string)
    ensures forall j :: 0 <= j < |Trim(s)| ==> Trim(s)[j] in s
  {
    var r := Trim(s);
    TrimIsSlice(s);
    var i := |s| - |TrimStart(s)|;
    forall j | 0 <= j < |r|
      ensures r[j] in s
    {
      assert r[j] == s[i..i + |r|][j] == s[i + j];
    }
  }

  /** Trimming a string that neither starts nor ends with white space leaves it unchanged,
      so trimming twice is the same as trimming once. */
  lemma TrimIdempotent(s: string)
    ensures |s| == 0 || (!IsWhiteSpace(s[0]) && !IsWhiteSpace(s[|s| - 1])) ==> Trim(s) == s
    ensures Trim(Trim(s)) == Trim(s)
  {
    var t := Trim(s);
    if |t| > 0 {
      assert TrimStart(t) == t;
      assert TrimEnd(t) == t;
    }
    if |s| == 0 || (!IsWhiteSpace(s[0]) && !IsWhiteSpace(s[|s| - 1])) {
      assert TrimStart(s) == s;
      assert TrimEnd(s) == s;
    }
  }

  /** `c.toLowerCase()` for ASCII letters; every other character is left as it is. */
  function LowerChar(c: char): char {
    if 'A' <= c <= 'Z' then (c as int - 'A' as int + 'a' as int) as char else c
  }

  /** Lower-casing works character by character, so it distributes over concatenation. */
  lemma LowerAppend(a: string, b: string)
    ensures Lower(a + b) == Lower(a) + Lower(b)
  {
    assert forall i :: 0 <= i < |a| + |b| ==> Lower(a + b)[i] == (Lower(a) + Lower(b))[i];
  }

  /** `s.toLowerCase()`, character by character. */
  function Lower(s: string): (r: string)
    ensures |r| == |s|
    ensures forall i {:trigger r[i]} :: 0 <= i < |s| ==> r[i] == LowerChar(s[i])
  {
    if |s| == 0 then "" else [LowerChar(s[0])] + Lower(s[1..])
  }
}
