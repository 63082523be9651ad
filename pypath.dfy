/** The two `os.path` functions the application calls, in their POSIX form
    (`posixpath`): the separator is '/', and there is no alternative separator. */
module PyPath {
  import opened PyStr

  /** Every character of `s` is a dot. */
  predicate AllDots(s: string) {
    forall k :: 0 <= k < |s| ==> s[k] == '.'
  }

  /** `os.path.splitext(p)`: `(root, ext)` where `ext` runs from the last dot of
      the final path component, unless that component holds only dots before
      it (a leading dot starts a hidden name, not an extension). */
  function SplitExt(p: string): (string, string) {
    Cut(p, RFind(p, '/'), RFind(p, '.'))
  }

  /** `splitext` once the last '/' and the last '.' have been found. */
  function Cut(p: string, sepIndex: int, dotIndex: int): (string, string)
    requires -1 <= sepIndex < |p| && -1 <= dotIndex < |p|
  {
    if dotIndex > sepIndex && !AllDots(p[sepIndex + 1..dotIndex]) then
      (p[..dotIndex], p[dotIndex..])
    else
      (p, "")
  }

  /** The two parts of `splitext` put back together give the path, and a
      non-empty extension is one dot followed by neither dot nor '/'. */
  lemma SplitExtParts(p: string)
    ensures SplitExt(p).0 + SplitExt(p).1 == p
    ensures var ext := SplitExt(p).1;
      ext == [] || (ext[0] == '.' && '.' !in ext[1..] && '/' !in ext)
  {
    CutParts(p, RFind(p, '/'), RFind(p, '.'));
  }

  /** `SplitExtParts` once the last '/' and the last '.' have been found. */
  lemma CutParts(p: string, sepIndex: int, dotIndex: int)
    requires -1 <= sepIndex < |p| && -1 <= dotIndex < |p|
    requires dotIndex >= 0 ==> p[dotIndex] == '.'
    requires forall k :: dotIndex < k < |p| ==> p[k] != '.'
    requires forall k :: sepIndex < k < |p| ==> p[k] != '/'
    ensures Cut(p, sepIndex, dotIndex).0 + Cut(p, sepIndex, dotIndex).1 == p
    ensures var ext := Cut(p, sepIndex, dotIndex).1;
      ext == [] || (ext[0] == '.' && '.' !in ext[1..] && '/' !in ext)
  {
    if Cut(p, sepIndex, dotIndex).1 != [] {
      AbsentAfter(p, dotIndex + 1, '.');
      AbsentAfter(p, dotIndex, '/');
      assert p[dotIndex..][1..] == p[dotIndex + 1..];
    }
  }

  /** A name without '/' that does not start with a dot splits in front of
      its last dot: `root + ext` with `ext` a dot and no further dot gives
      `(root, ext)`. */
  lemma SplitAtExt(root: string, ext: string)
    requires root != [] && root[0] != '.' && '/' !in root && '/' !in ext
    requires ext != [] && ext[0] == '.' && '.' !in ext[1..]
    ensures SplitExt(root + ext) == (root, ext)
  {
    var p, d := root + ext, |root|;
    forall k | d < k < |p| ensures p[k] != '.' {
      assert p[k] == ext[1..][k - d - 1];
    }
    RFindAt(p, '.', d);
    assert '/' !in p by {
      forall k | 0 <= k < |p| ensures p[k] != '/' {
        if k < d { assert p[k] == root[k]; } else { assert p[k] == ext[k - d]; }
      }
    }
    assert p[0..d][0] == root[0];
    assert p[..d] == root && p[d..] == ext;
  }

  /** A character that occurs nowhere from `i` on is not in the suffix from `i`. */
  lemma AbsentAfter(p: string, i: int, c: char)
    requires 0 <= i <= |p|
    requires forall k :: i <= k < |p| ==> p[k] != c
    ensures c !in p[i..]
  {
    forall k | 0 <= k < |p| - i ensures p[i..][k] != c {
      assert p[i..][k] == p[i + k];
    }
  }

  /** Declarative reading of "`p` has an extension": some dot in the last path
      component comes after a character of that component that is not a dot. */
  ghost predicate HasExtension(p: string) {
    exists i, j :: ExtensionAt(p, i, j)
  }

  /** `p[i]` is a non-dot of the last path component and `p[j]` a dot after it. */
  predicate ExtensionAt(p: string, i: int, j: int) {
    0 <= i < j < |p| && p[i] != '.' && p[j] == '.' && NoSlashFrom(p, i)
  }

  /** No '/' at or after index `i` of `p`. */
  predicate NoSlashFrom(p: string, i: int) {
    forall k :: 0 <= k < |p| && i <= k ==> p[k] != '/'
  }

  /** `splitext` returns a non-empty extension exactly when `p` has one. */
  lemma SplitExtFindsExtension(p: string)
    ensures SplitExt(p).1 != [] <==> HasExtension(p)
  {
    if SplitExt(p).1 != [] {
      SplitExtWitness(p);
    }
    if HasExtension(p) {
      var i, j :| ExtensionAt(p, i, j);
      ExtensionWitnessSplits(p, i, j);
    }
  }

  /** The non-dot character that lets `splitext` cut, with the dot it cuts at,
      witnesses `HasExtension`. */
  lemma SplitExtWitness(p: string)
    requires SplitExt(p).1 != []
    ensures HasExtension(p)
  {
    CutWitness(p, RFind(p, '/'), RFind(p, '.'));
  }

  /** A cut at `dotIndex` past the last '/' (at `sepIndex`) has a non-dot
      between the two, which witnesses `HasExtension`. */
  lemma CutWitness(p: string, sepIndex: int, dotIndex: int)
    requires -1 <= sepIndex < |p| && -1 <= dotIndex < |p|
    requires dotIndex >= 0 ==> p[dotIndex] == '.'
    requires forall k :: sepIndex < k < |p| ==> p[k] != '/'
    requires Cut(p, sepIndex, dotIndex).1 != []
    ensures HasExtension(p)
  {
    var seg := p[sepIndex + 1..dotIndex];
    var m :| 0 <= m < |seg| && seg[m] != '.';
    var i := sepIndex + 1 + m;
    assert p[i] == seg[m];
    assert ExtensionAt(p, i, dotIndex);
  }

  /** A non-dot at `i` of the last component, followed by a dot at `j`, makes
      `splitext` cut: the last '/' is before `i` and the last '.' at or after `j`. */
  lemma ExtensionWitnessSplits(p: string, i: int, j: int)
    requires ExtensionAt(p, i, j)
    ensures SplitExt(p).1 != []
  {
    var sepIndex := RFind(p, '/');
    var dotIndex := RFind(p, '.');
    assert sepIndex < i;
    assert j <= dotIndex;
    CutFinds(p, sepIndex, dotIndex, i);
  }

  /** A non-dot strictly between the cut points makes the cut happen. */
  lemma CutFinds(p: string, sepIndex: int, dotIndex: int, i: int)
    requires -1 <= sepIndex < i < dotIndex < |p| && p[i] != '.'
    ensures Cut(p, sepIndex, dotIndex).1 != []
  {
    assert p[sepIndex + 1..dotIndex][i - sepIndex - 1] == p[i];
  }

  /** `lower()` keeps '/' and '.' where they are, so `splitext` of a lower-cased
      path is the lower-cased `splitext`. */
  lemma SplitExtLower(p: string)
    ensures SplitExt(Lower(p)) == (Lower(SplitExt(p).0), Lower(SplitExt(p).1))
  {
    RFindLower(p, '/');
    RFindLower(p, '.');
    CutLower(p, RFind(p, '/'), RFind(p, '.'));
  }

  /** Lower-casing commutes with cutting at given indexes. */
  lemma CutLower(p: string, sepIndex: int, dotIndex: int)
    requires -1 <= sepIndex < |p| && -1 <= dotIndex < |p|
    ensures Cut(Lower(p), sepIndex, dotIndex) == (Lower(Cut(p, sepIndex, dotIndex).0), Lower(Cut(p, sepIndex, dotIndex).1))
  {
    var q := Lower(p);
    assert Lower("") == "";
    if dotIndex > sepIndex {
      LowerSlice(p, sepIndex + 1, dotIndex);
      LowerDots(p[sepIndex + 1..dotIndex]);
      LowerSlice(p, 0, dotIndex);
      LowerSlice(p, dotIndex, |p|);
      assert p[0..dotIndex] == p[..dotIndex] && p[dotIndex..|p|] == p[dotIndex..];
      assert q[0..dotIndex] == q[..dotIndex] && q[dotIndex..|q|] == q[dotIndex..];
    }
  }

  /** A run is all dots exactly when its lower-cased form is. */
  lemma LowerDots(s: string)
    ensures AllDots(Lower(s)) == AllDots(s)
  {
    forall k | 0 <= k < |s| ensures Lower(s)[k] == '.' <==> s[k] == '.' {
      LowerKeepsNonLetter(s, '.', k);
    }
  }

  /** `os.path.join(a, b)` for two parts: an absolute `b` replaces `a`;
      otherwise a '/' is inserted unless `a` is empty or already ends in one. */
  function JoinPath(a: string, b: string): string {
    if StartsWith(b, "/") then b
    else if a == [] || a[|a| - 1] == '/' then a + b
    else a + "/" + b
  }

  /** Joining onto a fixed relative directory is one-to-one: two different
      names never land on the same path. */
  lemma JoinPathInjective(a: string, b1: string, b2: string)
    requires a != [] && a[0] != '/'
    requires JoinPath(a, b1) == JoinPath(a, b2)
    ensures b1 == b2
  {
    var p1, p2 := JoinPath(a, b1), JoinPath(a, b2);
    // An absolute name yields a path starting with '/', a relative one a path
    // starting with a[0]; so both names are absolute or both are relative.
    assert StartsWith(b1, "/") ==> p1[0] == '/';
    assert !StartsWith(b1, "/") ==> p1[0] == a[0];
    assert StartsWith(b2, "/") ==> p2[0] == '/';
    assert !StartsWith(b2, "/") ==> p2[0] == a[0];
    var cut := if a[|a| - 1] == '/' then |a| else |a| + 1;
    assert !StartsWith(b1, "/") ==> b1 == p1[cut..];
    assert !StartsWith(b2, "/") ==> b2 == p2[cut..];
  }
}
