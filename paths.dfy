/** Paths as the linter sees them: the components of a caller-supplied path string,
    lexical normalisation of an absolute path (java.nio UnixPath.normalize), the
    component-wise prefix test (Path.startsWith) and the case-insensitive
    file-name extension filter. */
module Paths {

  /** A path as its sequence of name components. Paths built from the workspace
      root are absolute: the empty sequence is the file-system root "/". */
  type Path = seq<string>

  const Separator: char := '/'

  /** A name component: non-empty and free of separators. */
  predicate IsName(n: string) {
    n != [] && Separator !in n
  }

  predicate AllNames(p: Path) {
    forall i :: 0 <= i < |p| ==> IsName(p[i])
  }

  /** Position of the first separator in s, or |s| when there is none. */
  function SeparatorIndex(s: string): (k: nat)
    ensures k <= |s|
    ensures k < |s| ==> s[k] == Separator
    ensures forall i :: 0 <= i < k ==> s[i] != Separator
  {
    if s == [] || s[0] == Separator then 0 else 1 + SeparatorIndex(s[1..])
  }

  /** The components of a path string. As java.io.File does when it builds
      `new File(dir, s)`, empty pieces (a leading, trailing or doubled
      separator) are dropped; "." and ".." are kept as they are. */
  function Segments(s: string): (p: Path)
    decreases |s|
    ensures AllNames(p)
  {
    if s == [] then []
    else
      var k := SeparatorIndex(s);
      assert forall c :: c in s[..k] ==> c != Separator;
      (if k == 0 then [] else [s[..k]]) + (if k == |s| then [] else Segments(s[k + 1..]))
  }

  /** The first separator of `a + "/" + b` is the first of a, or the added one. */
  lemma {:induction false} SeparatorIndexOfSeparator(a: string, b: string)
    ensures SeparatorIndex(a + [Separator] + b) == SeparatorIndex(a)
    decreases |a|
  {
    var s := a + [Separator] + b;
    if a == [] {
      assert s[0] == Separator;
    } else if a[0] != Separator {
      assert s[1..] == a[1..] + [Separator] + b;
      SeparatorIndexOfSeparator(a[1..], b);
    }
  }

  /** A separator splits a path string into the components of either side:
      empty pieces on either side of it contribute no component. */
  lemma {:induction false} SegmentsOfSeparator(a: string, b: string)
    ensures Segments(a + [Separator] + b) == Segments(a) + Segments(b)
    decreases |a|
  {
    var s := a + [Separator] + b;
    var k := SeparatorIndex(a);
    SeparatorIndexOfSeparator(a, b);
    assert s[..k] == a[..k];
    if k == |a| {
      assert s[k + 1..] == b;
      if a != [] {
        assert a[..k] == a;
      }
    } else {
      assert s[k + 1..] == a[k + 1..] + [Separator] + b;
      SegmentsOfSeparator(a[k + 1..], b);
    }
  }

  /** A single name is a single component. */
  lemma SegmentsOfName(n: string)
    requires IsName(n)
    ensures Segments(n) == [n]
  {
    assert SeparatorIndex(n) == |n|;
    assert n[..|n|] == n;
  }

  /** Doubled, leading and trailing separators are dropped: "/a//b/" names a, then b. */
  lemma SegmentsDropEmptyPieces(a: string, b: string)
    requires IsName(a) && IsName(b)
    ensures Segments([Separator] + a + [Separator, Separator] + b + [Separator]) == [a, b]
  {
    var tail := b + [Separator] + [];
    var middle := [] + [Separator] + tail;
    var rest := a + [Separator] + middle;
    calc {
      Segments([Separator] + a + [Separator, Separator] + b + [Separator]);
    == { assert [Separator] + a + [Separator, Separator] + b + [Separator] == [] + [Separator] + rest; }
      Segments([] + [Separator] + rest);
    == { SegmentsOfSeparator([], rest); }
      Segments(rest);
    == { SegmentsOfSeparator(a, middle); SegmentsOfName(a); }
      [a] + Segments(middle);
    == { SegmentsOfSeparator([], tail); }
      [a] + Segments(tail);
    == { SegmentsOfSeparator(b, []); SegmentsOfName(b); }
      [a, b];
    }
  }

  /** The path string of a relative path: components joined by '/'. */
  function Join(p: Path): string {
    if p == [] then ""
    else if |p| == 1 then p[0]
    else p[0] + [Separator] + Join(p[1..])
  }

  /** Splitting a joined path gives its components back. */
  lemma {:induction false} SegmentsOfJoin(p: Path)
    requires AllNames(p)
    ensures Segments(Join(p)) == p
  {
    if p == [] {
    } else {
      var s := Join(p);
      var n := |p[0]|;
      assert s[..n] == p[0];
      forall i | 0 <= i < n ensures s[i] != Separator {
        assert s[i] == p[0][i];
      }
      if |p| == 1 {
        assert SeparatorIndex(s) == n;
        assert s[..n] == s;
      } else {
        assert s[n] == Separator;
        assert SeparatorIndex(s) == n;
        assert s[n + 1..] == Join(p[1..]);
        SegmentsOfJoin(p[1..]);
        assert p == [p[0]] + p[1..];
      }
    }
  }

  /** One step of UnixPath.normalize on an absolute path: "." is dropped,
      ".." removes the preceding name (and nothing at the root), any other
      name is appended. */
  function Resolve(stack: Path, name: string): Path {
    if name == "." then stack
    else if name == ".." then (if stack == [] then [] else stack[..|stack| - 1])
    else stack + [name]
  }

  function NormalizeFrom(stack: Path, p: Path): Path
    decreases |p|
  {
    if p == [] then stack else NormalizeFrom(Resolve(stack, p[0]), p[1..])
  }

  /** Path.normalize() of an absolute path. */
  function Normalize(p: Path): Path {
    NormalizeFrom([], p)
  }

  /** No "." and no ".." component. */
  predicate IsNormal(p: Path) {
    forall i :: 0 <= i < |p| ==> p[i] != "." && p[i] != ".."
  }

  /** Path.startsWith(prefix): component-wise, not character-wise. */
  predicate StartsWith(p: Path, prefix: Path) {
    |prefix| <= |p| && p[..|prefix|] == prefix
  }

  /** The workspace confinement test of the linter: `new File(root, sub)`
      normalised must start with the root path. */
  predicate InsideRoot(root: Path, sub: Path) {
    StartsWith(Normalize(root + sub), root)
  }

  /** The components of p other than ".". */
  function WithoutDots(p: Path): (r: Path)
    ensures |r| <= |p|
  {
    if p == [] then []
    else (if p[0] == "." then [] else [p[0]]) + WithoutDots(p[1..])
  }

  /** p taken k levels up: k ".." components. */
  function Parents(k: nat): (r: Path)
    ensures |r| == k
    ensures forall i :: 0 <= i < k ==> r[i] == ".."
  {
    if k == 0 then [] else [".."] + Parents(k - 1)
  }

  /** Normalising p + q continues from the normal form of p. */
  lemma {:induction false} NormalizeFromAppend(stack: Path, p: Path, q: Path)
    ensures NormalizeFrom(stack, p + q) == NormalizeFrom(NormalizeFrom(stack, p), q)
    decreases |p|
  {
    if p != [] {
      assert (p + q)[0] == p[0] && (p + q)[1..] == p[1..] + q;
      NormalizeFromAppend(Resolve(stack, p[0]), p[1..], q);
    } else {
      assert p + q == q;
    }
  }

  /** Normalising never introduces "." or ".." into an absolute path. */
  lemma {:induction false} NormalizeFromIsNormal(stack: Path, p: Path)
    requires IsNormal(stack)
    ensures IsNormal(NormalizeFrom(stack, p))
    decreases |p|
  {
    if p != [] {
      NormalizeFromIsNormal(Resolve(stack, p[0]), p[1..]);
    }
  }

  /** A path with no "." or ".." is left as it is. */
  lemma {:induction false} NormalizeFromNormal(stack: Path, p: Path)
    requires IsNormal(p)
    ensures NormalizeFrom(stack, p) == stack + p
    decreases |p|
  {
    if p != [] {
      assert Resolve(stack, p[0]) == stack + [p[0]];
      NormalizeFromNormal(stack + [p[0]], p[1..]);
      assert stack + [p[0]] + p[1..] == stack + p;
    }
  }

  /** The normal form is normal, and normalising twice changes nothing. */
  lemma NormalizeIdempotent(p: Path)
    ensures IsNormal(Normalize(p))
    ensures Normalize(Normalize(p)) == Normalize(p)
  {
    NormalizeFromIsNormal([], p);
    NormalizeFromNormal([], Normalize(p));
  }

  /** Below a normal root, normalising root + sub amounts to walking sub from
      the root. */
  lemma NormalizeBelowRoot(root: Path, sub: Path)
    requires IsNormal(root)
    ensures Normalize(root + sub) == NormalizeFrom(root, sub)
  {
    NormalizeFromAppend([], root, sub);
    NormalizeFromNormal([], root);
    assert [] + root == root;
  }

  lemma {:induction false} NormalizeFromNoParent(stack: Path, p: Path)
    requires ".." !in p
    ensures NormalizeFrom(stack, p) == stack + WithoutDots(p)
    decreases |p|
  {
    if p != [] {
      assert ".." !in p[1..] by {
        forall i | 0 <= i < |p[1..]| ensures p[1..][i] != ".." {
          assert p[1..][i] == p[i + 1];
        }
      }
      NormalizeFromNoParent(Resolve(stack, p[0]), p[1..]);
      if p[0] == "." {
        assert Resolve(stack, p[0]) == stack;
      } else {
        assert Resolve(stack, p[0]) == stack + [p[0]];
      }
    }
  }

  lemma {:induction false} NormalizeFromParents(stack: Path, k: nat)
    requires k <= |stack|
    ensures NormalizeFrom(stack, Parents(k)) == stack[..|stack| - k]
    decreases k
  {
    if k > 0 {
      assert Parents(k)[0] == ".." && Parents(k)[1..] == Parents(k - 1);
      var up := stack[..|stack| - 1];
      NormalizeFromParents(up, k - 1);
      assert up[..|up| - (k - 1)] == stack[..|stack| - k];
    }
  }

  /** A sub-path without ".." never leaves the root (for a normal root), and
      resolves to the root followed by its names. In particular "." is the
      root itself. */
  lemma DescendingStaysInside(root: Path, sub: Path)
    requires IsNormal(root)
    requires ".." !in sub
    ensures Normalize(root + sub) == root + WithoutDots(sub)
    ensures InsideRoot(root, sub)
  {
    NormalizeBelowRoot(root, sub);
    NormalizeFromNoParent(root, sub);
    assert (root + WithoutDots(sub))[..|root|] == root;
  }

  /** Climbing k levels then descending through rest: the result is accepted
      exactly when rest names again the k components that were climbed out of.
      So "../outside" is refused while "../<root's last name>/x" is accepted. */
  lemma ClimbingOut(root: Path, k: nat, rest: Path)
    requires IsNormal(root)
    requires 0 < k <= |root|
    requires ".." !in rest
    ensures Normalize(root + Parents(k) + rest) == root[..|root| - k] + WithoutDots(rest)
    ensures InsideRoot(root, Parents(k) + rest) <==> StartsWith(WithoutDots(rest), root[|root| - k..])
  {
    assert root + Parents(k) + rest == root + (Parents(k) + rest);
    ClimbingOutResolves(root, k, rest);
    assert root[..|root| - k] + root[|root| - k..] == root;
    StartsWithCommonPrefix(root[..|root| - k], WithoutDots(rest), root[|root| - k..]);
  }

  lemma ClimbingOutResolves(root: Path, k: nat, rest: Path)
    requires IsNormal(root)
    requires 0 < k <= |root|
    requires ".." !in rest
    ensures Normalize(root + (Parents(k) + rest)) == root[..|root| - k] + WithoutDots(rest)
  {
    NormalizeBelowRoot(root, Parents(k) + rest);
    NormalizeFromAppend(root, Parents(k), rest);
    NormalizeFromParents(root, k);
    NormalizeFromNoParent(root[..|root| - k], rest);
  }

  /** A shared prefix does not change whether one path starts with another. */
  lemma StartsWithCommonPrefix(a: Path, w: Path, b: Path)
    ensures StartsWith(a + w, a + b) <==> StartsWith(w, b)
  {
    if StartsWith(w, b) {
      assert (a + w)[..|a + b|] == a + w[..|b|];
    }
    if StartsWith(a + w, a + b) {
      assert w[..|b|] == (a + w)[..|a + b|][|a|..];
    }
  }

  /** `.` names the root itself and is accepted. */
  lemma DotIsRoot(root: Path)
    requires IsNormal(root)
    ensures Segments(".") == ["."]
    ensures Normalize(root + Segments(".")) == root
    ensures InsideRoot(root, Segments("."))
  {
    assert SeparatorIndex(".") == 1;
    assert "."[..1] == ".";
    DescendingStaysInside(root, ["."]);
    assert WithoutDots(["."]) == [];
  }

  /** "../outside" escapes a workspace whose last name is not "outside". */
  lemma ParentEscapes(root: Path, name: string)
    requires IsNormal(root) && |root| > 0
    requires IsName(name) && name != "." && name != ".."
    requires root[|root| - 1] != name
    ensures Segments(".." + [Separator] + name) == ["..", name]
    ensures !InsideRoot(root, Segments(".." + [Separator] + name))
  {
    assert Join(["..", name]) == ".." + [Separator] + name;
    SegmentsOfJoin(["..", name]);
    assert Parents(1) + [name] == ["..", name];
    ClimbingOut(root, 1, [name]);
    assert WithoutDots([name]) == [name];
  }

  // ---- file-name extension filter ----

  /** Lower-casing of one character (ASCII letters only). */
  function LowerChar(c: char): char {
    if 'A' <= c <= 'Z' then (c as int + 32) as char else c
  }

  function UpperChar(c: char): char {
    if 'a' <= c <= 'z' then (c as int - 32) as char else c
  }

  /** String.toLowerCase(), on ASCII letters. */
  function Lower(s: string): (r: string)
    ensures |r| == |s|
  {
    seq(|s|, i requires 0 <= i < |s| => LowerChar(s[i]))
  }

  /** String.toUpperCase(), on ASCII letters. */
  function Upper(s: string): (r: string)
    ensures |r| == |s|
  {
    seq(|s|, i requires 0 <= i < |s| => UpperChar(s[i]))
  }

  predicate EndsWith(s: string, suffix: string) {
    |suffix| <= |s| && s[|s| - |suffix|..] == suffix
  }

  /** The last component of a path (Path.getFileName); "" for the root. */
  function FileName(p: Path): string {
    if p == [] then "" else p[|p| - 1]
  }

  /** The linter's filter `getFileName().toString().toLowerCase().endsWith(ext)`. */
  predicate HasExtension(name: string, ext: string) {
    EndsWith(Lower(name), ext)
  }

  /** The filter looks only at the last |ext| characters, and ignores their case. */
  lemma ExtensionIsLowerSuffix(name: string, ext: string)
    ensures HasExtension(name, ext) <==> |ext| <= |name| && Lower(name[|name| - |ext|..]) == ext
  {
    if |ext| <= |name| {
      assert Lower(name)[|name| - |ext|..] == Lower(name[|name| - |ext|..]);
    }
  }

  /** Changing the case of a name never changes whether it passes the filter
      for a lower-case extension. */
  lemma ExtensionIgnoresCase(name: string, ext: string)
    ensures HasExtension(Lower(name), ext) == HasExtension(name, ext)
    ensures HasExtension(Upper(name), ext) == HasExtension(name, ext)
  {
    assert Lower(Lower(name)) == Lower(name);
    assert Lower(Upper(name)) == Lower(name);
  }

  /** Any name ending in a case variant of ".xsd" (say "A.XSD") passes. */
  lemma AnyCaseOfExtensionPasses(base: string, tail: string, ext: string)
    requires Lower(tail) == ext
    ensures HasExtension(base + tail, ext)
  {
    var name := base + tail;
    assert name[|name| - |tail|..] == tail;
    ExtensionIsLowerSuffix(name, ext);
  }
}
