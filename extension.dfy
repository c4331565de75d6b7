/**
 * The extension test of `iter_image_files` (find_jpgs.py:16-18, 36-37):
 * `os.path.splitext(name)` followed by an ASCII `.lower()`, and membership in
 * the active extension set.
 */
module Extension {
  import opened Wrappers

  /** Index of the last '.' in `s` (what `str.rfind('.')` finds). */
  function LastDot(s: string): (r: Option<nat>)
    ensures r.Some? ==> r.value < |s| && s[r.value] == '.'
    ensures r.Some? ==> forall j :: r.value < j < |s| ==> s[j] != '.'
    ensures r.None? ==> forall j :: 0 <= j < |s| ==> s[j] != '.'
  {
    if s == [] then None
    else if s[|s| - 1] == '.' then Some(|s| - 1)
    else LastDot(s[..|s| - 1])
  }

  predicate HasNonDot(s: string) {
    exists j :: 0 <= j < |s| && s[j] != '.'
  }

  /**
   * `os.path.splitext` on a name a directory listing returned (such a name
   * holds no path separator). The extension runs from the last '.' to the
   * end, unless every character before that dot is itself a dot, in which
   * case there is no extension: ".jpg" and "..jpg" have none.
   */
  function SplitExt(name: string): (r: (string, string))
    ensures r.0 + r.1 == name
    ensures r.1 != [] ==> r.1[0] == '.' && HasNonDot(r.0)
    ensures forall j :: 0 < j < |r.1| ==> r.1[j] != '.'
  {
    match LastDot(name)
    case None => (name, "")
    case Some(i) => if HasNonDot(name[..i]) then (name[..i], name[i..]) else (name, "")
  }

  /** An extension-shaped string: a dot followed by no further dot. */
  predicate IsExtension(e: string) {
    |e| > 0 && e[0] == '.' && forall j :: 0 < j < |e| ==> e[j] != '.'
  }

  /**
   * The extension of `name` is exactly `e` if and only if `name` ends with
   * `e` and something other than dots stands before it.
   */
  lemma ExtensionIs(name: string, e: string)
    requires IsExtension(e)
    ensures SplitExt(name).1 == e <==>
              (|e| <= |name| && name[|name| - |e|..] == e && HasNonDot(name[..|name| - |e|]))
  {
    var k := |name| - |e|;
    if SplitExt(name).1 == e {
      assert name[..k] == SplitExt(name).0;
    }
    if |e| <= |name| && name[k..] == e && HasNonDot(name[..k]) {
      assert name[k] == e[0];
      forall j | k < j < |name| ensures name[j] != '.' {
        assert name[j] == e[j - k];
      }
      assert LastDot(name) == Some(k);
    }
  }

  /** ASCII lowercasing of one character, as `str.lower()` does for ASCII. */
  function LowerChar(c: char): char {
    if 'A' <= c <= 'Z' then (c as int + 32) as char else c
  }

  function Lower(s: string): (r: string)
    ensures |r| == |s|
    ensures forall i {:trigger r[i]} :: 0 <= i < |s| ==> r[i] == LowerChar(s[i])
  {
    if s == [] then [] else [LowerChar(s[0])] + Lower(s[1..])
  }

  lemma LowerSlices(s: string, i: nat)
    requires i <= |s|
    ensures Lower(s)[..i] == Lower(s[..i]) && Lower(s)[i..] == Lower(s[i..])
  {
  }

  predicate SameDots(s: string, t: string) {
    |s| == |t| && forall j :: 0 <= j < |s| ==> (s[j] == '.' <==> t[j] == '.')
  }

  /** `rfind('.')` sees only where the dots are. */
  lemma {:induction false} LastDotSameDots(s: string, t: string)
    requires SameDots(s, t)
    ensures LastDot(s) == LastDot(t)
    ensures HasNonDot(s) <==> HasNonDot(t)
  {
    if s != [] {
      LastDotSameDots(s[..|s| - 1], t[..|t| - 1]);
    }
    if HasNonDot(s) {
      var j :| 0 <= j < |s| && s[j] != '.';
      assert t[j] != '.';
    }
    if HasNonDot(t) {
      var j :| 0 <= j < |t| && t[j] != '.';
      assert s[j] != '.';
    }
  }

  lemma LowerKeepsDots(s: string)
    ensures SameDots(Lower(s), s)
    ensures LastDot(Lower(s)) == LastDot(s)
    ensures HasNonDot(Lower(s)) <==> HasNonDot(s)
  {
    LastDotSameDots(Lower(s), s);
  }

  /** Lowercasing the name and taking its extension commute. */
  lemma ExtensionOfLower(name: string)
    ensures SplitExt(Lower(name)).1 == Lower(SplitExt(name).1)
  {
    LowerKeepsDots(name);
    match LastDot(name)
    case None =>
    case Some(i) =>
      LowerSlices(name, i);
      LowerKeepsDots(name[..i]);
  }

  /** The extension set of find_jpgs.py:16-18. */
  function ExtensionSet(includeJpeg: bool): (exts: set<string>)
    ensures ".jpg" in exts
    ensures ".jpeg" in exts <==> includeJpeg
    ensures forall e :: e in exts ==> IsExtension(e) && Lower(e) == e
  {
    var exts := {".jpg"};
    if includeJpeg then exts + {".jpeg"} else exts
  }

  /** The filter of find_jpgs.py:36-37. */
  predicate Matches(name: string, exts: set<string>) {
    Lower(SplitExt(name).1) in exts
  }

  /**
   * `name` has extension `e` up to ASCII case: it ends with `e` in any case
   * and something other than dots stands before that suffix.
   */
  predicate HasSuffixIgnoringCase(name: string, e: string) {
    |e| <= |name| && Lower(name[|name| - |e|..]) == e && HasNonDot(name[..|name| - |e|])
  }

  lemma LowerExtensionIs(name: string, e: string)
    requires IsExtension(e) && Lower(e) == e
    ensures Lower(SplitExt(name).1) == e <==> HasSuffixIgnoringCase(name, e)
  {
    var l := Lower(name);
    assert Lower(SplitExt(name).1) == SplitExt(l).1 by {
      ExtensionOfLower(name);
    }
    assert SplitExt(l).1 == e <==> (|e| <= |l| && l[|l| - |e|..] == e && HasNonDot(l[..|l| - |e|])) by {
      ExtensionIs(l, e);
    }
    if |e| <= |name| {
      var k := |name| - |e|;
      assert l[k..] == Lower(name[k..]) && l[..k] == Lower(name[..k]) by {
        LowerSlices(name, k);
      }
      assert HasNonDot(Lower(name[..k])) <==> HasNonDot(name[..k]) by {
        LowerKeepsDots(name[..k]);
      }
    }
  }

  /**
   * What the filter accepts, stated without `splitext`: a name matches the
   * set for `includeJpeg` exactly when it ends in ".jpg", or (only when
   * `includeJpeg`) in ".jpeg", in any ASCII case, after a non-dot.
   */
  lemma MatchesIff(name: string, includeJpeg: bool)
    ensures Matches(name, ExtensionSet(includeJpeg)) <==>
              HasSuffixIgnoringCase(name, ".jpg") || (includeJpeg && HasSuffixIgnoringCase(name, ".jpeg"))
  {
    LowerExtensionIs(name, ".jpg");
    LowerExtensionIs(name, ".jpeg");
  }

  /** Case-insensitivity: `PHOTO.JPG` matches whichever set is active. */
  lemma UpperCaseJpgMatches(includeJpeg: bool)
    ensures Matches("PHOTO.JPG", ExtensionSet(includeJpeg))
  {
    LowerExtensionIs("PHOTO.JPG", ".jpg");
    assert "PHOTO.JPG"[..5][0] != '.';
    assert "PHOTO.JPG"[5..] == ".JPG";
  }

  /** `--jpg-only` drops ".jpeg" names. */
  lemma JpegMatchesOnlyWhenIncluded(includeJpeg: bool)
    ensures Matches("b.jpeg", ExtensionSet(includeJpeg)) <==> includeJpeg
  {
    LowerExtensionIs("b.jpeg", ".jpeg");
    assert "b.jpeg"[..1][0] != '.';
    assert "b.jpeg"[1..] == ".jpeg";
    LowerExtensionIs("b.jpeg", ".jpg");
    assert "b.jpeg"[2..] == "jpeg";
  }

  /** A name that is only a leading dot and "jpg" has no extension. */
  lemma DotFileNeverMatches(includeJpeg: bool)
    ensures !Matches(".jpg", ExtensionSet(includeJpeg))
  {
    LowerExtensionIs(".jpg", ".jpg");
    LowerExtensionIs(".jpg", ".jpeg");
    assert ".jpg"[..0] == [];
  }
}
