/**
 * The string and path operations the resolver relies on, as the Rust
 * standard library defines them on Unix: `str::trim`, `PathBuf::push` and
 * the last component of a `Path` (what `Path::ends_with` compares for a
 * single-component argument). Paths are strings; '/' is the only separator.
 */
module Paths {

  import opened Wrappers

  /**
   * Rust's `char::is_whitespace`: the 25 characters with the Unicode
   * White_Space property. Among ASCII characters these are space, tab, line
   * feed, vertical tab, form feed and carriage return.
   */
  predicate IsWhitespace(c: char): (b: bool)
    ensures c as int < 128 ==>
      (b <==> c == ' ' || c == '\t' || c == '\n' || c == '\U{000B}' || c == '\U{000C}' || c == '\r')
    ensures b ==> c != '/' && c as int <= 0x3000
  {
    || '\t' <= c <= '\r'
    || c == ' '
    || c == '\U{0085}'
    || c == '\U{00A0}'
    || c == '\U{1680}'
    || '\U{2000}' <= c <= '\U{200A}'
    || c == '\U{2028}'
    || c == '\U{2029}'
    || c == '\U{202F}'
    || c == '\U{205F}'
    || c == '\U{3000}'
  }

  /** Every character of `s` is whitespace (in particular, the empty string). */
  predicate IsBlank(s: string) {
    forall i :: 0 <= i < |s| ==> IsWhitespace(s[i])
  }

  /** `s` without its leading whitespace. */
  function TrimStart(s: string): (r: string)
    ensures |r| <= |s| && r == s[|s| - |r|..]
    ensures r == [] || !IsWhitespace(r[0])
    ensures IsBlank(s[..|s| - |r|])
  {
    if s != [] && IsWhitespace(s[0]) then
      var r := TrimStart(s[1..]);
      var cut := s[..|s| - |r|];
      forall i | 0 <= i < |cut|
        ensures IsWhitespace(cut[i])
      {
        if i > 0 {
          assert cut[i] == s[1..][..|s| - 1 - |r|][i - 1];
        }
      }
      r
    else s
  }

  /** `s` without its trailing whitespace. */
  function TrimEnd(s: string): (r: string)
    ensures |r| <= |s| && r == s[..|r|]
    ensures r == [] || !IsWhitespace(r[|r| - 1])
    ensures IsBlank(s[|r|..])
  {
    if s != [] && IsWhitespace(s[|s| - 1]) then
      var r := TrimEnd(s[..|s| - 1]);
      var cut := s[|r|..];
      forall i | 0 <= i < |cut|
        ensures IsWhitespace(cut[i])
      {
        if i < |cut| - 1 {
          assert cut[i] == s[..|s| - 1][|r|..][i];
        }
      }
      r
    else s
  }

  /** A blank string trims to nothing from the start. */
  lemma {:induction false} TrimStartBlank(s: string)
    requires IsBlank(s)
    ensures TrimStart(s) == []
  {
    if s != [] {
      TrimStartBlank(s[1..]);
    }
  }

  /** A blank string trims to nothing from both ends. */
  lemma BlankTrimsToEmpty(s: string)
    requires IsBlank(s)
    ensures TrimEnd(TrimStart(s)) == []
  {
    TrimStartBlank(s);
  }

  /** A string with a non-whitespace character keeps one after trimming its start. */
  lemma {:induction false} NonBlankTrimStart(s: string)
    requires !IsBlank(s)
    ensures TrimStart(s) != []
  {
    if IsWhitespace(s[0]) {
      var j :| 0 <= j < |s| && !IsWhitespace(s[j]);
      assert s[1..][j - 1] == s[j];
      NonBlankTrimStart(s[1..]);
    }
  }

  /** Trimming the end of a string that starts with a non-whitespace character keeps that character. */
  lemma {:induction false} TrimEndKeepsFirst(t: string)
    requires t != [] && !IsWhitespace(t[0])
    ensures TrimEnd(t) != []
  {
    if IsWhitespace(t[|t| - 1]) {
      var init := t[..|t| - 1];
      assert init[0] == t[0];
      TrimEndKeepsFirst(init);
    }
  }

  /** A string that is not blank does not trim to nothing from both ends. */
  lemma NonBlankTrimsToNonEmpty(s: string)
    requires !IsBlank(s)
    ensures TrimEnd(TrimStart(s)) != []
  {
    NonBlankTrimStart(s);
    TrimEndKeepsFirst(TrimStart(s));
  }

  /** Trimming the start and then the end leaves nothing exactly when the string is blank. */
  lemma TrimBothEndsEmpty(s: string)
    ensures TrimEnd(TrimStart(s)) == [] <==> IsBlank(s)
  {
    if IsBlank(s) {
      BlankTrimsToEmpty(s);
    } else {
      NonBlankTrimsToNonEmpty(s);
    }
  }

  /**
   * Rust's `str::trim`: the input with its leading and trailing whitespace
   * removed. The result is empty exactly when every character is whitespace
   * (`s.trim().is_empty()`); otherwise it starts and ends with a
   * non-whitespace character.
   */
  function Trim(s: string): (r: string)
    ensures r == [] <==> IsBlank(s)
    ensures r == [] || (!IsWhitespace(r[0]) && !IsWhitespace(r[|r| - 1]))
  {
    TrimBothEndsEmpty(s);
    TrimEnd(TrimStart(s))
  }

  /** A prefix `r` of a suffix `t` of `s`, each cut off a blank part, lies between a blank prefix and a blank suffix of `s`. */
  lemma InfixBetweenBlanks(s: string, t: string, r: string)
    requires |t| <= |s| && t == s[|s| - |t|..] && IsBlank(s[..|s| - |t|])
    requires |r| <= |t| && r == t[..|r|] && IsBlank(t[|r|..])
    ensures exists i :: 0 <= i <= |s| - |r| && r == s[i..i + |r|] && IsBlank(s[..i]) && IsBlank(s[i + |r|..])
  {
    var i := |s| - |t|;
    assert s[i..][..|r|] == s[i..i + |r|] && s[i..][|r|..] == s[i + |r|..];
    assert r == s[i..i + |r|] && IsBlank(s[..i]) && IsBlank(s[i + |r|..]);
  }

  /** The trimmed string is the part of `s` between a blank prefix and a blank suffix. */
  lemma TrimIsInfix(s: string)
    ensures var r := Trim(s);
      exists i :: 0 <= i <= |s| - |r| && r == s[i..i + |r|] && IsBlank(s[..i]) && IsBlank(s[i + |r|..])
  {
    InfixBetweenBlanks(s, TrimStart(s), Trim(s));
  }

  /** On Unix a path is absolute when it begins at the root. */
  predicate IsAbsolute(p: string) {
    |p| > 0 && p[0] == '/'
  }

  /**
   * `PathBuf::push`: an absolute `rel` replaces `base`; otherwise `rel` is
   * appended, with a '/' in between unless `base` is empty or already ends
   * with one.
   */
  function Join(base: string, rel: string): (r: string)
    ensures |rel| <= |r| && r[|r| - |rel|..] == rel
    ensures IsAbsolute(rel) ==> r == rel
    ensures !IsAbsolute(rel) ==> |base| <= |r| <= |base| + 1 + |rel| && r[..|base|] == base
    ensures !IsAbsolute(rel) && base != [] ==> |rel| < |r| && r[|r| - |rel| - 1] == '/'
    ensures !IsAbsolute(rel) ==> |base| + |rel| <= |r|
    ensures !IsAbsolute(rel) ==> (|r| == |base| + |rel| <==> base == [] || base[|base| - 1] == '/')
  {
    if IsAbsolute(rel) then rel
    else if base != [] && base[|base| - 1] != '/' then base + "/" + rel
    else base + rel
  }

  /** The characters after the last '/' of `p` (all of `p` if it has none). */
  function LastSegment(p: string): (seg: string)
    ensures |seg| <= |p|
    ensures forall i :: 0 <= i < |seg| ==> seg[i] != '/'
  {
    if p == [] || p[|p| - 1] == '/' then []
    else LastSegment(p[..|p| - 1]) + [p[|p| - 1]]
  }

  /** The last segment is a suffix of the path, preceded by a '/' unless it is the whole path. */
  lemma {:induction false} LastSegmentIsSuffix(p: string)
    ensures var seg := LastSegment(p);
      seg == p[|p| - |seg|..] && (|seg| < |p| ==> p[|p| - |seg| - 1] == '/')
  {
    if p != [] && p[|p| - 1] != '/' {
      var init := p[..|p| - 1];
      LastSegmentIsSuffix(init);
      var seg := LastSegment(init);
      assert init[|init| - |seg|..] + [p[|p| - 1]] == p[|p| - |seg| - 1..];
    }
  }

  /** A segment that `Path::components` drops: empty (between separators) or ".". */
  predicate IsSkipped(seg: string) {
    |seg| == 0 || (|seg| == 1 && seg[0] == '.')
  }

  /** The parent-directory segment "..". */
  predicate IsParent(seg: string) {
    |seg| == 2 && seg[0] == '.' && seg[1] == '.'
  }

  /** A name that `Path::components` yields as a normal component. */
  predicate IsNormalName(n: string) {
    !IsSkipped(n) && !IsParent(n) && forall i :: 0 <= i < |n| ==> n[i] != '/'
  }

  /**
   * The last component of `p` when it is a normal name. Empty segments
   * (repeated or trailing separators) and "." segments are skipped, as
   * `Path::components` skips them; `None` if no normal name is left.
   */
  function FinalName(p: string): (r: Option<string>)
    ensures r.Some? ==> IsNormalName(r.value)
    ensures r.Some? ==> |r.value| <= |p|
    decreases |p|
  {
    var seg := LastSegment(p);
    if !IsSkipped(seg) && !IsParent(seg) then Some(seg)
    else if IsParent(seg) || |seg| == |p| then None
    else FinalName(p[..|p| - |seg| - 1])
  }

  /** Appending a character either starts a new (empty) segment or extends the last one. */
  lemma LastSegmentSnoc(p: string, c: char)
    ensures LastSegment(p + [c]) == if c == '/' then [] else LastSegment(p) + [c]
  {
    assert (p + [c])[..|p|] == p;
  }

  /** A prefix ending at a separator does not change the last segment. */
  lemma {:induction false} LastSegmentAfterSeparator(x: string, rel: string)
    requires x == [] || x[|x| - 1] == '/'
    ensures LastSegment(x + rel) == LastSegment(rel)
    decreases |rel|
  {
    if rel == [] {
      assert x + rel == x;
    } else {
      var init, c := rel[..|rel| - 1], rel[|rel| - 1];
      assert rel == init + [c];
      assert x + rel == (x + init) + [c];
      LastSegmentSnoc(x + init, c);
      LastSegmentSnoc(init, c);
      LastSegmentAfterSeparator(x, init);
    }
  }

  /** An empty or "." last segment is skipped: the final name is that of what precedes its separator. */
  lemma FinalNameSkip(p: string)
    requires IsSkipped(LastSegment(p)) && |LastSegment(p)| < |p|
    ensures FinalName(p) == FinalName(p[..|p| - |LastSegment(p)| - 1])
  {
  }

  /** A path with a final name and a skipped last segment has a separator before that segment. */
  lemma SkippedSegmentHasSeparator(p: string)
    requires IsSkipped(LastSegment(p)) && FinalName(p).Some?
    ensures |LastSegment(p)| < |p|
  {
  }

  /** A prefix ending at a separator does not change the final name, when there is one. */
  lemma {:induction false} FinalNameAfterSeparator(x: string, rel: string)
    requires x == [] || x[|x| - 1] == '/'
    requires FinalName(rel).Some?
    ensures FinalName(x + rel) == FinalName(rel)
    decreases |rel|
  {
    LastSegmentAfterSeparator(x, rel);
    var p, seg := x + rel, LastSegment(rel);
    if IsSkipped(seg) {
      var q := rel[..|rel| - |seg| - 1];
      SkippedSegmentHasSeparator(rel);
      FinalNameSkip(rel);
      FinalNameSkip(p);
      assert FinalName(p) == FinalName(p[..|p| - |seg| - 1]);
      assert p[..|p| - |seg| - 1] == x + q;
      FinalNameAfterSeparator(x, q);
      assert FinalName(x + q) == FinalName(q);
    } else {
      assert FinalName(rel) == Some(seg);
      assert LastSegment(p) == seg;
      assert FinalName(p) == Some(seg);
    }
  }

  /**
   * Joining onto any base keeps the final name of the suffix: which file a
   * request names is decided by the request, not by the root directory.
   */
  lemma FinalNameOfJoin(base: string, rel: string)
    requires FinalName(rel).Some?
    ensures FinalName(Join(base, rel)) == FinalName(rel)
  {
    if !IsAbsolute(rel) {
      if base != [] && base[|base| - 1] != '/' {
        FinalNameAfterSeparator(base + "/", rel);
        assert base + "/" + rel == (base + "/") + rel;
      } else {
        FinalNameAfterSeparator(base, rel);
      }
    }
  }

  /** A string without separators is its own last segment. */
  lemma {:induction false} LastSegmentOfSlashFree(n: string)
    requires forall i :: 0 <= i < |n| ==> n[i] != '/'
    ensures LastSegment(n) == n
  {
    if n != [] {
      LastSegmentOfSlashFree(n[..|n| - 1]);
      assert n == n[..|n| - 1] + [n[|n| - 1]];
    }
  }

  /** A normal name on its own is its own final name. */
  lemma FinalNameOfName(n: string)
    requires IsNormalName(n)
    ensures FinalName(n) == Some(n)
  {
    LastSegmentOfSlashFree(n);
  }
  /**
   * What may follow the final name: nothing, or a '/' and then only empty
   * and "." segments (only '/' and '.' characters, never two '.' in a row).
   */
  predicate SkippedTail(t: string) {
    t == [] ||
    (t[0] == '/'
     && (forall i :: 0 <= i < |t| ==> t[i] == '/' || t[i] == '.')
     && (forall i :: 0 <= i < |t| - 1 ==> t[i] != '.' || t[i + 1] != '.'))
  }

  /**
   * `n` is a normal name that starts a component at index `k` of `p`
   * (at the start or right after a '/') and only skipped segments follow it.
   */
  predicate NameAt(p: string, k: nat, n: string) {
    IsNormalName(n) && k + |n| <= |p| && p[k..k + |n|] == n
    && (k == 0 || p[k - 1] == '/') && SkippedTail(p[k + |n|..])
  }

  /** `n` is the last component of `p` that `Path::components` yields, and a normal name. */
  predicate EndsInName(p: string, n: string) {
    exists k: nat | k <= |p| :: NameAt(p, k, n)
  }

  /** The last segment of a skipped tail is empty or ".". */
  lemma SkippedTailLastSegment(t: string)
    requires SkippedTail(t)
    ensures IsSkipped(LastSegment(t))
  {
    var seg := LastSegment(t);
    LastSegmentIsSuffix(t);
    var j := |t| - |seg|;
    assert forall i :: 0 <= i < |seg| ==> seg[i] == t[j + i];
  }

  /** Cutting the last segment and its '/' off a non-empty skipped tail leaves a skipped tail. */
  lemma SkippedTailInit(t: string)
    requires SkippedTail(t) && t != []
    ensures |LastSegment(t)| < |t| && SkippedTail(t[..|t| - |LastSegment(t)| - 1])
  {
    LastSegmentIsSuffix(t);
    assert t[0] == '/';
  }

  /** A skipped tail extended by a '/' and a skipped segment is a skipped tail. */
  lemma SkippedTailSnoc(t: string, seg: string)
    requires SkippedTail(t) && IsSkipped(seg)
    ensures SkippedTail(t + "/" + seg)
  {
    var u := t + "/" + seg;
    assert u[0] == '/';
    assert forall i :: 0 <= i < |u| ==> u[i] == (if i < |t| then t[i] else if i == |t| then '/' else seg[i - |t| - 1]);
  }

  /** A '/' and a skipped segment after the name keep it the last name. */
  lemma NameAtSnoc(init: string, k: nat, n: string, seg: string)
    requires NameAt(init, k, n) && IsSkipped(seg)
    ensures NameAt(init + "/" + seg, k, n)
  {
    var p := init + "/" + seg;
    var t := init[k + |n|..];
    SkippedTailSnoc(t, seg);
    assert p[k..k + |n|] == init[k..k + |n|];
    assert p[k + |n|..] == t + "/" + seg;
  }

  /** A normal last segment is a name at the end of the path, with nothing after it. */
  lemma LastSegmentNameAt(p: string)
    requires IsNormalName(LastSegment(p))
    ensures NameAt(p, |p| - |LastSegment(p)|, LastSegment(p))
  {
    LastSegmentIsSuffix(p);
    assert p[|p|..] == [];
  }

  /** Soundness: a final name is the last normal component of the path, followed only by skipped segments. */
  lemma {:induction false} FinalNameIsLastName(p: string)
    requires FinalName(p).Some?
    ensures EndsInName(p, FinalName(p).value)
    decreases |p|
  {
    var seg := LastSegment(p);
    var n := FinalName(p).value;
    if !IsSkipped(seg) && !IsParent(seg) {
      LastSegmentNameAt(p);
      assert NameAt(p, |p| - |seg|, n);
    } else {
      SkippedSegmentHasSeparator(p);
      FinalNameSkip(p);
      LastSegmentIsSuffix(p);
      var init := p[..|p| - |seg| - 1];
      FinalNameIsLastName(init);
      var k: nat :| k <= |init| && NameAt(init, k, n);
      assert p == init + "/" + seg;
      NameAtSnoc(init, k, n, seg);
      assert NameAt(p, k, n);
    }
  }

  /** Whatever precedes a '/' does not change the last segment after it. */
  lemma LastSegmentAfterSlash(x: string, t: string)
    requires t != [] && t[0] == '/'
    ensures LastSegment(x + t) == LastSegment(t)
  {
    var u := t[1..];
    assert x + t == (x + "/") + u;
    assert t == "/" + u;
    LastSegmentAfterSeparator(x + "/", u);
    LastSegmentAfterSeparator("/", u);
  }

  /** Completeness: a normal name that starts a component and is followed only by skipped segments is the final name. */
  lemma {:induction false} LastNameIsFinalName(q: string, n: string, t: string)
    requires q == [] || q[|q| - 1] == '/'
    requires IsNormalName(n) && SkippedTail(t)
    ensures FinalName(q + n + t) == Some(n)
    decreases |t|
  {
    var p := q + n + t;
    if t == [] {
      assert p == q + n;
      LastSegmentAfterSeparator(q, n);
      LastSegmentOfSlashFree(n);
    } else {
      LastSegmentAfterSlash(q + n, t);
      var seg := LastSegment(t);
      SkippedTailLastSegment(t);
      SkippedTailInit(t);
      var t' := t[..|t| - |seg| - 1];
      assert p[..|p| - |seg| - 1] == q + n + t';
      FinalNameSkip(p);
      LastNameIsFinalName(q, n, t');
    }
  }

  /** A name at `k` followed only by skipped segments is the final name. */
  lemma NameAtIsFinalName(p: string, k: nat, n: string)
    requires NameAt(p, k, n)
    ensures FinalName(p) == Some(n)
  {
    assert p == p[..k] + n + p[k + |n|..];
    LastNameIsFinalName(p[..k], n, p[k + |n|..]);
  }

  /** `FinalName(p)` is `n` exactly when `n` is the last normal component of `p`, with only skipped segments after it. */
  lemma FinalNameIff(p: string, n: string)
    ensures FinalName(p) == Some(n) <==> EndsInName(p, n)
  {
    if FinalName(p) == Some(n) {
      FinalNameIsLastName(p);
    }
    if EndsInName(p, n) {
      var k: nat :| k <= |p| && NameAt(p, k, n);
      NameAtIsFinalName(p, k, n);
    }
  }

  /** `FinalName(p)` is `None` exactly when `p` has no normal last component: it is `..` or there is none. */
  lemma FinalNameNoneIff(p: string)
    ensures FinalName(p).None? <==> forall n :: !EndsInName(p, n)
  {
    if FinalName(p).Some? {
      FinalNameIff(p, FinalName(p).value);
    }
    forall n | EndsInName(p, n)
      ensures FinalName(p).Some?
    {
      FinalNameIff(p, n);
    }
  }

  /** Trailing "." and empty segments are skipped; a trailing ".." leaves no final name. */
  lemma FinalNameExamples()
    ensures FinalName("a/b/./") == Some("b")
    ensures FinalName("a/..") == None
  {
    assert "a/b/./" == "a/" + "b" + "/./";
    assert SkippedTail("/./");
    LastNameIsFinalName("a/", "b", "/./");
    assert LastSegment("a/..") == ".." by {
      assert LastSegment("a/") == [];
      assert "a/.." == "a/" + "..";
      LastSegmentAfterSeparator("a/", "..");
      LastSegmentOfSlashFree("..");
    }
  }
}
