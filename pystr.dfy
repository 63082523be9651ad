/** The Python `str` methods the application relies on: `strip()`,
    `find`/`rfind` of one character, `split(sep, 1)`, `rsplit(sep, 1)`,
    `sep.join(pieces)`, `startswith` and `lower()`. */
module PyStr {

  /** `str.isspace()` for one character: the code points CPython treats as
      whitespace, which are exactly the ones `strip()` with no argument removes. */
  predicate IsSpace(c: char) {
    var n := c as int;
    n == 0x20 || 0x09 <= n <= 0x0D || 0x1C <= n <= 0x1F || n == 0x85 || n == 0xA0
    || n == 0x1680 || 0x2000 <= n <= 0x200A || n == 0x2028 || n == 0x2029
    || n == 0x202F || n == 0x205F || n == 0x3000
  }

  /** Neither the first nor the last character of `s` is whitespace. */
  predicate NoEdgeSpace(s: string) {
    s == [] || (!IsSpace(s[0]) && !IsSpace(s[|s| - 1]))
  }

  /** `s.lstrip()`: the suffix left after dropping the leading whitespace. */
  function LStrip(s: string): string {
    if s != [] && IsSpace(s[0]) then LStrip(s[1..]) else s
  }

  /** `s.rstrip()`: the prefix left after dropping the trailing whitespace. */
  function RStrip(s: string): string {
    if s != [] && IsSpace(s[|s| - 1]) then RStrip(s[..|s| - 1]) else s
  }

  /** `lstrip()` keeps a suffix, drops only whitespace, and stops at the first
      character that is not whitespace. */
  lemma {:induction false} LStripDropsLeadingSpace(s: string)
    ensures |LStrip(s)| <= |s| && LStrip(s) == s[|s| - |LStrip(s)|..]
    ensures LStrip(s) == [] || !IsSpace(LStrip(s)[0])
    ensures forall k :: 0 <= k < |s| - |LStrip(s)| ==> IsSpace(s[k])
  {
    if s != [] && IsSpace(s[0]) {
      LStripDropsLeadingSpace(s[1..]);
      assert s[1..][|s| - 1 - |LStrip(s)|..] == s[|s| - |LStrip(s)|..];
      forall k | 1 <= k < |s| - |LStrip(s)| ensures IsSpace(s[k]) {
        assert s[k] == s[1..][k - 1];
      }
    }
  }

  /** `rstrip()` keeps a prefix, drops only whitespace, and stops at the last
      character that is not whitespace. */
  lemma {:induction false} RStripDropsTrailingSpace(s: string)
    ensures |RStrip(s)| <= |s| && RStrip(s) == s[..|RStrip(s)|]
    ensures RStrip(s) == [] || !IsSpace(RStrip(s)[|RStrip(s)| - 1])
    ensures forall k :: |RStrip(s)| <= k < |s| ==> IsSpace(s[k])
  {
    if s != [] && IsSpace(s[|s| - 1]) {
      RStripDropsTrailingSpace(s[..|s| - 1]);
      assert s[..|s| - 1][..|RStrip(s)|] == s[..|RStrip(s)|];
      forall k | |RStrip(s)| <= k < |s| - 1 ensures IsSpace(s[k]) {
        assert s[k] == s[..|s| - 1][k];
      }
    }
  }

  /** `r` sits at offset `i` of `s`, has no whitespace at either end, and
      everything of `s` outside it is whitespace. */
  predicate StripsTo(s: string, i: int, r: string) {
    && 0 <= i <= |s| - |r|
    && s[i..i + |r|] == r
    && NoEdgeSpace(r)
    && (forall k :: 0 <= k < i ==> IsSpace(s[k]))
    && (forall k :: i + |r| <= k < |s| ==> IsSpace(s[k]))
  }

  /** Declarative meaning of `s.strip()`: the window of `s` obtained by cutting
      whitespace, and only whitespace, off both ends until neither end is blank. */
  ghost predicate IsStripOf(r: string, s: string) {
    exists i :: StripsTo(s, i, r)
  }

  /** `s.strip()` with no argument. */
  function Strip(s: string): string {
    RStrip(LStrip(s))
  }

  /** `strip()` does what `IsStripOf` describes, and leaves no whitespace at
      either end. */
  lemma StripMeaning(s: string)
    ensures IsStripOf(Strip(s), s) && NoEdgeSpace(Strip(s))
  {
    var l := LStrip(s);
    var r := RStrip(l);
    LStripDropsLeadingSpace(s);
    RStripDropsTrailingSpace(l);
    var i := |s| - |l|;
    assert s[i..i + |r|] == l[..|r|];
    forall k | i + |r| <= k < |s| ensures IsSpace(s[k]) {
      assert s[k] == l[k - i];
    }
    assert StripsTo(s, i, r);
  }

  /** There is only one string that `IsStripOf` admits for a given `s`. */
  lemma StripUnique(s: string, r1: string, r2: string)
    requires IsStripOf(r1, s) && IsStripOf(r2, s)
    ensures r1 == r2
  {
    var i1 :| StripsTo(s, i1, r1);
    var i2 :| StripsTo(s, i2, r2);
    assert r1 != [] ==> s[i1] == r1[0] && s[i1 + |r1| - 1] == r1[|r1| - 1];
    assert r2 != [] ==> s[i2] == r2[0] && s[i2 + |r2| - 1] == r2[|r2| - 1];
    assert r1 != [] && r2 != [] ==> i1 == i2 && |r1| == |r2|;
  }

  /** A string with no whitespace at its ends is its own strip. */
  lemma StripNoEdgeSpace(s: string)
    requires NoEdgeSpace(s)
    ensures Strip(s) == s
  {
  }

  /** `strip()` is idempotent. */
  lemma StripIdempotent(s: string)
    ensures Strip(Strip(s)) == Strip(s)
  {
    StripMeaning(s);
    StripNoEdgeSpace(Strip(s));
  }

  /** `r` occurs in `s` starting at index `i`. */
  predicate OccursAt(r: string, s: string, i: int) {
    0 <= i <= |s| - |r| && s[i..i + |r|] == r
  }

  /** `r` is a contiguous piece of `s` (Python's `r in s`). */
  ghost predicate IsSubstring(r: string, s: string) {
    exists i :: OccursAt(r, s, i)
  }

  /** A piece of a piece of `s` is a piece of `s`. */
  lemma SubstringTransitive(a: string, b: string, c: string)
    requires IsSubstring(a, b) && IsSubstring(b, c)
    ensures IsSubstring(a, c)
  {
    var i :| OccursAt(a, b, i);
    var j :| OccursAt(b, c, j);
    forall k | 0 <= k < |a| ensures c[i + j + k] == a[k] {
      assert a[k] == b[i..i + |a|][k] == b[i + k];
      assert b[i + k] == c[j..j + |b|][i + k];
    }
    assert c[i + j..i + j + |a|] == a;
    assert OccursAt(a, c, i + j);
  }

  /** `strip()` keeps a piece of its input. */
  lemma StripIsSubstring(s: string)
    ensures IsSubstring(Strip(s), s)
  {
    StripMeaning(s);
    var i :| StripsTo(s, i, Strip(s));
    assert OccursAt(Strip(s), s, i);
  }

  /** Both sides of a separator are pieces of the whole. */
  lemma SidesAreSubstrings(a: string, sep: char, b: string)
    ensures IsSubstring(a, a + [sep] + b) && IsSubstring(b, a + [sep] + b)
  {
    var s := a + [sep] + b;
    assert OccursAt(a, s, 0);
    assert OccursAt(b, s, |a| + 1);
  }

  /** `s.startswith(prefix)`. */
  predicate StartsWith(s: string, prefix: string) {
    |prefix| <= |s| && s[..|prefix|] == prefix
  }

  /** `s.find(c)` for a one-character needle: the first index of `c`, or -1. */
  function Find(s: string, c: char): (r: int)
    ensures -1 <= r < |s|
    ensures r == -1 <==> c !in s
    ensures 0 <= r ==> s[r] == c
    ensures forall k :: 0 <= k < r ==> s[k] != c
  {
    if s == [] then -1
    else if s[0] == c then 0
    else
      var k := Find(s[1..], c);
      if k < 0 then -1 else k + 1
  }

  /** `s.rfind(c)` for a one-character needle: the last index of `c`, or -1. */
  function RFind(s: string, c: char): (r: int)
    ensures -1 <= r < |s|
    ensures r == -1 <==> c !in s
    ensures 0 <= r ==> s[r] == c
    ensures forall k :: r < k < |s| ==> s[k] != c
  {
    if s == [] then -1
    else if s[|s| - 1] == c then |s| - 1
    else
      var k := RFind(s[..|s| - 1], c);
      assert s == s[..|s| - 1] + [s[|s| - 1]];
      k
  }

  /** `rfind` returns the index of an occurrence with none after it. */
  lemma RFindAt(s: string, c: char, i: int)
    requires 0 <= i < |s| && s[i] == c
    requires forall k :: i < k < |s| ==> s[k] != c
    ensures RFind(s, c) == i
  {
  }

  /** `s.split(sep, 1)`: one piece when `sep` does not occur, otherwise the
      text before its first occurrence and the text after it. */
  function SplitOnce(s: string, sep: char): (r: seq<string>)
    ensures |r| == 1 || |r| == 2
    ensures |r| == 1 <==> sep !in s
    ensures |r| == 1 ==> r[0] == s
    ensures |r| == 2 ==> r[0] + [sep] + r[1] == s && sep !in r[0]
  {
    var i := Find(s, sep);
    if i < 0 then [s]
    else
      assert s == s[..i] + [sep] + s[i + 1..];
      assert forall k :: 0 <= k < i ==> s[..i][k] != sep;
      [s[..i], s[i + 1..]]
  }

  /** `s.rsplit(sep, 1)`: one piece when `sep` does not occur, otherwise the
      text before its last occurrence and the text after it. */
  function RSplitOnce(s: string, sep: char): (r: seq<string>)
    ensures |r| == 1 || |r| == 2
    ensures |r| == 1 <==> sep !in s
    ensures |r| == 1 ==> r[0] == s
    ensures |r| == 2 ==> r[0] + [sep] + r[1] == s && sep !in r[1]
  {
    var i := RFind(s, sep);
    if i < 0 then [s]
    else
      assert s == s[..i] + [sep] + s[i + 1..];
      var tail := s[i + 1..];
      assert forall k :: 0 <= k < |tail| ==> tail[k] != sep;
      [s[..i], s[i + 1..]]
  }

  /** `sep.join(pieces)`: the pieces in order with `sep` between neighbours. */
  function Join(sep: string, pieces: seq<string>): string {
    if pieces == [] then ""
    else if |pieces| == 1 then pieces[0]
    else pieces[0] + sep + Join(sep, pieces[1..])
  }

  /** Appending one more piece appends the separator and that piece. */
  lemma {:induction false} JoinSnoc(sep: string, pieces: seq<string>, x: string)
    requires pieces != []
    ensures Join(sep, pieces + [x]) == Join(sep, pieces) + sep + x
  {
    if |pieces| == 1 {
      assert pieces + [x] == [pieces[0], x];
    } else {
      calc {
        Join(sep, pieces + [x]);
        { assert (pieces + [x])[1..] == pieces[1..] + [x]; }
        pieces[0] + sep + Join(sep, pieces[1..] + [x]);
        { JoinSnoc(sep, pieces[1..], x); }
        pieces[0] + sep + (Join(sep, pieces[1..]) + sep + x);
      }
    }
  }

  /** Joining two non-empty runs of pieces joins their joins. */
  lemma {:induction false} JoinAppend(sep: string, a: seq<string>, b: seq<string>)
    requires a != [] && b != []
    ensures Join(sep, a + b) == Join(sep, a) + sep + Join(sep, b)
  {
    if |a| == 1 {
      assert (a + b)[1..] == b;
    } else {
      assert (a + b)[1..] == a[1..] + b;
      JoinAppend(sep, a[1..], b);
    }
  }

  /** `sep.join(s.split(sep, 1)) == s` for a one-character separator. */
  lemma JoinSplitOnce(s: string, sep: char)
    ensures Join([sep], SplitOnce(s, sep)) == s
  {
    var parts := SplitOnce(s, sep);
    if |parts| == 2 {
      assert parts[1..] == [parts[1]];
    }
  }

  /** Splitting a join at its first separator gives back the first piece and
      the join of the others, when the first piece has no separator in it. */
  lemma SplitOnceJoin(sep: char, pieces: seq<string>)
    requires |pieces| >= 2 && sep !in pieces[0]
    ensures SplitOnce(Join([sep], pieces), sep) == [pieces[0], Join([sep], pieces[1..])]
  {
    SplitAtJoint(pieces[0], sep, Join([sep], pieces[1..]));
  }

  /** Splitting a join at its last separator gives back the join of all but the
      last piece and the last piece, when the last piece has no separator in it. */
  lemma RSplitOnceJoin(sep: char, pieces: seq<string>)
    requires |pieces| >= 2 && sep !in pieces[|pieces| - 1]
    ensures RSplitOnce(Join([sep], pieces), sep) == [Join([sep], pieces[..|pieces| - 1]), pieces[|pieces| - 1]]
  {
    var init, last := pieces[..|pieces| - 1], pieces[|pieces| - 1];
    assert pieces == init + [last];
    JoinSnoc([sep], init, last);
    RSplitAtJoint(Join([sep], init), sep, last);
  }

  /** `split(sep, 1)` of `a + sep + b` is `[a, b]` when `a` holds no `sep`. */
  lemma SplitAtJoint(a: string, sep: char, b: string)
    requires sep !in a
    ensures SplitOnce(a + [sep] + b, sep) == [a, b]
  {
    var s := a + [sep] + b;
    assert s[..|a|] == a && s[|a| + 1..] == b;
    FirstSeparatorSplit(s, sep, |a|);
  }

  /** `rsplit(sep, 1)` of `a + sep + b` is `[a, b]` when `b` holds no `sep`. */
  lemma RSplitAtJoint(a: string, sep: char, b: string)
    requires sep !in b
    ensures RSplitOnce(a + [sep] + b, sep) == [a, b]
  {
    var s := a + [sep] + b;
    assert s[..|a|] == a && s[|a| + 1..] == b;
    LastSeparatorSplit(s, sep, |a|);
  }

  /** `split(sep, 1)` cuts at the first occurrence of `sep`. */
  lemma FirstSeparatorSplit(s: string, sep: char, i: nat)
    requires i < |s| && s[i] == sep && sep !in s[..i]
    ensures SplitOnce(s, sep) == [s[..i], s[i + 1..]]
  {
    var j := Find(s, sep);
    forall k | 0 <= k < i ensures s[k] != sep {
      assert s[..i][k] == s[k];
    }
    forall k | 0 <= k < j ensures s[k] != sep {
      assert s[..j][k] == s[k];
    }
  }

  /** `rsplit(sep, 1)` cuts at the last occurrence of `sep`. */
  lemma LastSeparatorSplit(s: string, sep: char, i: nat)
    requires i < |s| && s[i] == sep && sep !in s[i + 1..]
    ensures RSplitOnce(s, sep) == [s[..i], s[i + 1..]]
  {
    var j := RFind(s, sep);
    forall k | i < k < |s| ensures s[k] != sep {
      assert s[i + 1..][k - i - 1] == s[k];
    }
    forall k | j < k < |s| ensures s[k] != sep {
      assert s[j + 1..][k - j - 1] == s[k];
    }
  }

  /** ASCII case folding of one character, as `str.lower()` does on ASCII. */
  function LowerChar(c: char): char {
    if 'A' <= c <= 'Z' then (c as int + 32) as char else c
  }

  /** `s.lower()` restricted to ASCII letters; every other character is kept. */
  function Lower(s: string): string {
    seq(|s|, k requires 0 <= k < |s| => LowerChar(s[k]))
  }

  /** The ASCII fold only changes ASCII letters, so every character that is
      not an ASCII letter keeps its positions through `Lower`. */
  lemma LowerKeepsNonLetter(s: string, c: char, k: int)
    requires !('A' <= c <= 'Z') && !('a' <= c <= 'z') && 0 <= k < |s|
    ensures Lower(s)[k] == c <==> s[k] == c
  {
  }

  /** `rfind` of a non-letter finds the same index before and after `lower()`. */
  lemma RFindLower(s: string, c: char)
    requires !('A' <= c <= 'Z') && !('a' <= c <= 'z')
    ensures RFind(Lower(s), c) == RFind(s, c)
  {
    var t := Lower(s);
    forall k | 0 <= k < |s| ensures t[k] == c <==> s[k] == c {
      LowerKeepsNonLetter(s, c, k);
    }
    var i, j := RFind(s, c), RFind(t, c);
    assert i == -1 ==> forall k :: 0 <= k < |s| ==> s[k] != c;
    assert j == -1 ==> forall k :: 0 <= k < |t| ==> t[k] != c;
  }

  /** `lower()` commutes with slicing. */
  lemma LowerSlice(s: string, i: int, j: int)
    requires 0 <= i <= j <= |s|
    ensures Lower(s)[i..j] == Lower(s[i..j])
  {
  }

  /** `lower()` is idempotent. */
  lemma LowerIdempotent(s: string)
    ensures Lower(Lower(s)) == Lower(s)
  {
  }
}
