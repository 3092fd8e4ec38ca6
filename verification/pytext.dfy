/**
 * The string operations the batch driver relies on: `str.lower()`, the
 * substring test `pat in s`, and `os.path.splitext` with POSIX separators
 * (`mockup_generator.py` lines 148, 196 and 200).
 */
module PyText {

  /** `c.lower()` restricted to ASCII: `A`..`Z` map to `a`..`z`, all else is kept. */
  function LowerChar(c: char): (d: char)
    ensures 'A' <= c <= 'Z' ==> 'a' <= d <= 'z' && d as int - c as int == 32
    ensures !('A' <= c <= 'Z') ==> d == c
  {
    if 'A' <= c <= 'Z' then (c as int + 32) as char else c
  }

  function Lower(s: string): (r: string)
    ensures |r| == |s|
    ensures forall i :: 0 <= i < |s| ==> r[i] == LowerChar(s[i])
  {
    seq(|s|, i requires 0 <= i < |s| => LowerChar(s[i]))
  }

  /** Lower-casing twice is lower-casing once. */
  lemma LowerIdempotent(s: string)
    ensures Lower(Lower(s)) == Lower(s)
  {
  }

  /** `pat` occurs in `s` at position `i`. */
  ghost predicate OccursAt(pat: string, s: string, i: int)
  {
    0 <= i && i + |pat| <= |s| && s[i .. i + |pat|] == pat
  }

  /** Python's `pat in s`, computed by scanning left to right. */
  function HasSubstring(s: string, pat: string): bool
    decreases |s|
  {
    if |s| < |pat| then false
    else if s[..|pat|] == pat then true
    else HasSubstring(s[1..], pat)
  }

  /** The scan answers yes exactly when some position holds the pattern. */
  lemma {:induction false} HasSubstringIff(s: string, pat: string)
    ensures HasSubstring(s, pat) <==> exists i :: OccursAt(pat, s, i)
    decreases |s|
  {
    if |s| < |pat| {
    } else if s[..|pat|] == pat {
      assert OccursAt(pat, s, 0);
    } else {
      HasSubstringIff(s[1..], pat);
      if HasSubstring(s[1..], pat) {
        var i :| OccursAt(pat, s[1..], i);
        assert s[1..][i .. i + |pat|] == s[i + 1 .. i + 1 + |pat|];
        assert OccursAt(pat, s, i + 1);
      }
      if exists i :: OccursAt(pat, s, i) {
        var i :| OccursAt(pat, s, i);
        assert i != 0;
        assert s[1..][i - 1 .. i - 1 + |pat|] == s[i .. i + |pat|];
        assert OccursAt(pat, s[1..], i - 1);
      }
    }
  }

  /** Index of the last `c` in `s`, or -1: Python's `s.rfind(c)`. */
  function LastIndexOf(s: string, c: char): (i: int)
    ensures -1 <= i < |s|
    ensures 0 <= i ==> s[i] == c
    ensures forall k :: i < k < |s| ==> s[k] != c
  {
    if |s| == 0 then -1
    else if s[|s| - 1] == c then |s| - 1
    else LastIndexOf(s[..|s| - 1], c)
  }

  predicate AllDots(s: string)
  {
    forall k :: 0 <= k < |s| ==> s[k] == '.'
  }

  /**
   * The final path component has a dot preceded, within that component, by
   * some character other than a dot: the condition under which
   * `os.path.splitext` splits off an extension.
   */
  ghost predicate HasExtension(p: string)
  {
    exists i, k :: LastIndexOf(p, '/') < i < k < |p| && p[i] != '.' && p[k] == '.'
  }

  /**
   * `os.path.splitext(p)`: the extension starts at the last `.` of the
   * final path component, unless every character before that dot in the
   * component is itself a dot (so ".bashrc" has no extension).
   */
  function SplitExt(p: string): (r: (string, string))
    ensures r.0 + r.1 == p
    ensures r.1 != [] <==> HasExtension(p)
    ensures r.1 == [] || (r.1[0] == '.' && forall k :: 0 < k < |r.1| ==> r.1[k] != '.' && r.1[k] != '/')
  {
    var sep := LastIndexOf(p, '/');
    var dot := LastIndexOf(p, '.');
    SplitCondition(p, sep, dot);
    if dot > sep && !AllDots(p[sep + 1 .. dot]) then
      ExtensionShape(p, sep, dot);
      (p[..dot], p[dot..])
    else (p, [])
  }

  /** The test `splitext` performs on the last dot and separator is exactly `HasExtension`. */
  lemma SplitCondition(p: string, sep: int, dot: int)
    requires sep == LastIndexOf(p, '/') && dot == LastIndexOf(p, '.')
    ensures (dot > sep && !AllDots(p[sep + 1 .. dot])) <==> HasExtension(p)
  {
    if dot > sep && !AllDots(p[sep + 1 .. dot]) {
      StemWitness(p, sep, dot);
    }
    if HasExtension(p) {
      var i, k :| sep < i < k < |p| && p[i] != '.' && p[k] == '.';
      ExtensionWitness(p, sep, dot, i, k);
    }
  }

  lemma StemWitness(p: string, sep: int, dot: int)
    requires sep == LastIndexOf(p, '/') && dot == LastIndexOf(p, '.')
    requires dot > sep && !AllDots(p[sep + 1 .. dot])
    ensures HasExtension(p)
  {
    var stem := p[sep + 1 .. dot];
    var j :| 0 <= j < |stem| && stem[j] != '.';
    assert p[sep + 1 + j] == stem[j];
    assert LastIndexOf(p, '/') < sep + 1 + j < dot < |p| && p[sep + 1 + j] != '.' && p[dot] == '.';
  }

  lemma ExtensionWitness(p: string, sep: int, dot: int, i: int, k: int)
    requires sep == LastIndexOf(p, '/') && dot == LastIndexOf(p, '.')
    requires sep < i < k < |p| && p[i] != '.' && p[k] == '.'
    ensures dot > sep && !AllDots(p[sep + 1 .. dot])
  {
    assert k <= dot;
    assert p[sep + 1 .. dot][i - sep - 1] == p[i];
  }

  /** The text from the last dot on, when that dot follows the last separator, is a single extension. */
  lemma ExtensionShape(p: string, sep: int, dot: int)
    requires sep == LastIndexOf(p, '/') && dot == LastIndexOf(p, '.') && sep < dot
    ensures p[..dot] + p[dot..] == p
    ensures p[dot..][0] == '.'
    ensures forall k :: 0 < k < |p[dot..]| ==> p[dot..][k] != '.' && p[dot..][k] != '/'
  {
    var ext := p[dot..];
    forall k | 0 < k < |ext|
      ensures ext[k] != '.' && ext[k] != '/'
    {
      assert ext[k] == p[dot + k];
    }
  }

  /**
   * `os.path.splitext(p)[0]`: a prefix of the path that is the whole path
   * unless an extension is split off, in which case it stops just before
   * the path's last dot.
   */
  function Root(p: string): (r: string)
    ensures |r| <= |p| && r == p[..|r|]
    ensures !HasExtension(p) ==> r == p
    ensures HasExtension(p) ==> |r| == LastIndexOf(p, '.')
  {
    SplitExt(p).0
  }

  /** The last occurrence is the one with no further occurrence after it. */
  lemma LastIndexIs(s: string, c: char, i: int)
    requires -1 <= i < |s|
    requires 0 <= i ==> s[i] == c
    requires forall k :: i < k < |s| ==> s[k] != c
    ensures LastIndexOf(s, c) == i
  {
  }

  /** The extension is split off whenever the name has a non-dot stem before its last dot. */
  lemma RootDropsExtension(p: string, stem: string, ext: string)
    requires |stem| > 0 && stem[0] != '.'
    requires forall k :: 0 <= k < |stem| ==> stem[k] != '/'
    requires forall k :: 0 <= k < |ext| ==> ext[k] != '.' && ext[k] != '/'
    requires p == stem + "." + ext
    ensures Root(p) == stem
  {
    var n := |stem|;
    forall k | n < k < |p|
      ensures p[k] != '.' && p[k] != '/'
    {
      assert p[k] == ext[k - n - 1];
    }
    forall k | 0 <= k < n
      ensures p[k] != '/'
    {
      assert p[k] == stem[k];
    }
    assert p[n] == '.';
    LastIndexIs(p, '.', n);
    LastIndexIs(p, '/', -1);
    assert p[0 .. n][0] == stem[0];
    assert !AllDots(p[0 .. n]);
    assert p[..n] == stem;
  }

  lemma RootOfPlainName()
    ensures Root("white.png") == "white"
  {
    RootDropsExtension("white.png", "white", "png");
  }

  /** Only the last extension is dropped. */
  lemma RootKeepsInnerDots()
    ensures Root("model_black.tee.jpg") == "model_black.tee"
  {
    RootDropsExtension("model_black.tee.jpg", "model_black.tee", "jpg");
  }

  /** A name that is all extension, or has no dot, is its own root. */
  lemma RootWithoutStem()
    ensures Root(".png") == ".png"
    ensures Root("shirt") == "shirt"
  {
    LastIndexIs(".png", '.', 0);
    LastIndexIs(".png", '/', -1);
    assert AllDots(".png"[0 .. 0]);
    LastIndexIs("shirt", '.', -1);
  }

  /** Leading dots do not make a stem: `..png` has no extension. */
  lemma RootOfDotDotName()
    ensures Root("..png") == "..png"
  {
    LastIndexIs("..png", '.', 1);
    LastIndexIs("..png", '/', -1);
    assert AllDots("..png"[0 .. 1]);
  }
}
