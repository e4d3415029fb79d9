/**
 * Literal substring rewriting of a request path suffix.
 *
 * `ReplaceAll` is Rust's `str::replace`: the pattern is searched left to
 * right, every non-overlapping occurrence is replaced, scanning resumes after
 * the replaced occurrence and the inserted text is never rescanned. An empty
 * pattern matches at every character boundary, so the replacement is inserted
 * before every character and once at the end.
 *
 * `ApplyRewrites` applies an ordered table of (key, value) pairs one after the
 * other, each to the output of the previous one.
 */
module Rewrite {

  /** An ordered rewrite table: (key, value) pairs, applied first to last. */
  type Table = seq<(string, string)>

  /** `k` occurs in `s` starting at index `i`. */
  predicate OccursAt(s: string, i: nat, k: string) {
    i + |k| <= |s| && s[i..i + |k|] == k
  }

  /** `k` occurs somewhere in `s`. */
  predicate Occurs(s: string, k: string) {
    exists i: nat | i <= |s| :: OccursAt(s, i, k)
  }

  /** Every non-overlapping occurrence of `k` in `s`, found left to right, replaced by `v`. */
  function ReplaceAll(s: string, k: string, v: string): (r: string)
    ensures k == v ==> r == s
    ensures |k| == |v| ==> |r| == |s|
    decreases |s|
  {
    if k == [] then
      if s == [] then v else v + [s[0]] + ReplaceAll(s[1..], k, v)
    else if |s| < |k| then s
    else if s[..|k|] == k then
      var rest := ReplaceAll(s[|k|..], k, v);
      assert k == v ==> v + rest == s[..|k|] + s[|k|..];
      v + rest
    else
      var rest := ReplaceAll(s[1..], k, v);
      assert k == v ==> [s[0]] + rest == [s[0]] + s[1..];
      [s[0]] + rest
  }

  /**
   * `s` cut at the non-overlapping occurrences of `k` found left to right:
   * the pieces between (and around) the matches, in order.
   */
  function SplitOn(s: string, k: string): (ps: seq<string>)
    requires k != []
    ensures |ps| >= 1
    decreases |s|
  {
    if |s| < |k| then [s]
    else if s[..|k|] == k then [[]] + SplitOn(s[|k|..], k)
    else
      var t := SplitOn(s[1..], k);
      [[s[0]] + t[0]] + t[1..]
  }

  /** The pieces joined, with `sep` between each two neighbours. */
  function Intercalate(ps: seq<string>, sep: string): (r: string)
    requires |ps| >= 1
    ensures |r| >= |ps[0]| && r[..|ps[0]|] == ps[0]
  {
    if |ps| == 1 then ps[0] else ps[0] + sep + Intercalate(ps[1..], sep)
  }

  /** Prepending a character to the first piece prepends it to the joined string. */
  lemma {:induction false} IntercalateConsChar(c: char, ps: seq<string>, sep: string)
    requires |ps| >= 1
    ensures Intercalate([[c] + ps[0]] + ps[1..], sep) == [c] + Intercalate(ps, sep)
  {
    var qs := [[c] + ps[0]] + ps[1..];
    assert qs[1..] == ps[1..];
    if |ps| > 1 {
      assert Intercalate(qs, sep) == ([c] + ps[0]) + sep + Intercalate(ps[1..], sep);
    }
  }

  /** Joining the pieces with the pattern itself gives back the original string. */
  lemma {:induction false} SplitOnRoundTrip(s: string, k: string)
    requires k != []
    ensures Intercalate(SplitOn(s, k), k) == s
    decreases |s|
  {
    if |s| < |k| {
    } else if s[..|k|] == k {
      SplitOnRoundTrip(s[|k|..], k);
      var ps := [[]] + SplitOn(s[|k|..], k);
      assert ps[1..] == SplitOn(s[|k|..], k);
      assert s == s[..|k|] + s[|k|..];
    } else {
      SplitOnRoundTrip(s[1..], k);
      IntercalateConsChar(s[0], SplitOn(s[1..], k), k);
      assert s == [s[0]] + s[1..];
    }
  }

  /** Matching at `j > 0` in `s` is matching at `j - 1` in `s` minus its first character. */
  lemma OccursAtTail(s: string, j: nat, k: string)
    requires 0 < j <= |s|
    ensures OccursAt(s, j, k) <==> OccursAt(s[1..], j - 1, k)
  {
    if j + |k| <= |s| {
      var a, b := s[j..j + |k|], s[1..][j - 1..j - 1 + |k|];
      assert |a| == |b|;
      forall i | 0 <= i < |a|
        ensures a[i] == b[i]
      {
        assert a[i] == s[j + i];
        assert b[i] == s[1..][j - 1 + i];
      }
      assert a == b;
    }
  }

  /** No occurrence of `k` starts inside the first piece of the cut. */
  lemma {:induction false} SplitOnFirstPiece(s: string, k: string)
    requires k != []
    ensures var p := SplitOn(s, k)[0];
      |p| <= |s| && forall j: nat :: j < |p| ==> !OccursAt(s, j, k)
    decreases |s|
  {
    if |s| >= |k| && s[..|k|] != k {
      SplitOnFirstPiece(s[1..], k);
      var p := SplitOn(s, k)[0];
      forall j: nat | 0 < j < |p|
        ensures !OccursAt(s, j, k)
      {
        OccursAtTail(s, j, k);
      }
    }
  }

  /** A cut into one piece leaves `s` whole, and then `k` does not occur in `s`. */
  lemma SplitOnSingle(s: string, k: string)
    requires k != [] && |SplitOn(s, k)| == 1
    ensures SplitOn(s, k)[0] == s && !Occurs(s, k)
  {
    SplitOnRoundTrip(s, k);
    SplitOnFirstPiece(s, k);
    assert !OccursAt(s, |s|, k);
  }

  /**
   * In a cut into several pieces, `k` occurs right after the first piece and
   * the remaining pieces are the cut of what follows that occurrence.
   */
  lemma {:induction false} SplitOnNext(s: string, k: string)
    requires k != [] && |SplitOn(s, k)| > 1
    ensures var ps := SplitOn(s, k);
      |ps[0]| + |k| <= |s| && OccursAt(s, |ps[0]|, k) && ps[1..] == SplitOn(s[|ps[0]| + |k|..], k)
    decreases |s|
  {
    var ps := SplitOn(s, k);
    assert |s| >= |k|;
    if s[..|k|] == k {
      assert ps[1..] == SplitOn(s[|k|..], k);
    } else {
      var t := SplitOn(s[1..], k);
      assert ps == [[s[0]] + t[0]] + t[1..];
      SplitOnNext(s[1..], k);
      var n := |t[0]|;
      assert |ps[0]| == n + 1;
      OccursAtTail(s, n + 1, k);
      assert s[1..][n + |k|..] == s[n + 1 + |k|..];
    }
  }

  /** Replacing is cutting at the matches and joining the pieces with the replacement. */
  lemma {:induction false} ReplaceAllBySplit(s: string, k: string, v: string)
    requires k != []
    ensures ReplaceAll(s, k, v) == Intercalate(SplitOn(s, k), v)
    decreases |s|
  {
    if |s| < |k| {
    } else if s[..|k|] == k {
      ReplaceAllBySplit(s[|k|..], k, v);
      var ps := [[]] + SplitOn(s[|k|..], k);
      assert ps[1..] == SplitOn(s[|k|..], k);
    } else {
      ReplaceAllBySplit(s[1..], k, v);
      IntercalateConsChar(s[0], SplitOn(s[1..], k), v);
    }
  }

  /** A non-empty key that does not occur leaves the string unchanged. */
  lemma ReplaceAllAbsent(s: string, k: string, v: string)
    requires k != [] && !Occurs(s, k)
    ensures ReplaceAll(s, k, v) == s
  {
    ReplaceAllBySplit(s, k, v);
    if |SplitOn(s, k)| > 1 {
      SplitOnNext(s, k);
      assert false;
    } else {
      SplitOnSingle(s, k);
    }
  }

  /** Each character of `s` as a one-character string. */
  function Chars(s: string): (cs: seq<string>)
    ensures |cs| == |s| && forall i :: 0 <= i < |s| ==> cs[i] == [s[i]]
  {
    seq(|s|, i requires 0 <= i < |s| => [s[i]])
  }

  /**
   * The empty pattern matches at every character boundary: the result is
   * the characters of `s`, with the replacement before, between and after them.
   */
  lemma {:induction false} ReplaceAllEmptyKey(s: string, v: string)
    ensures ReplaceAll(s, [], v) == Intercalate([[]] + Chars(s) + [[]], v)
  {
    EmptyKeyTail(s, v);
    assert ([[]] + Chars(s) + [[]])[1..] == Chars(s) + [[]];
  }

  lemma {:induction false} EmptyKeyTail(s: string, v: string)
    ensures ReplaceAll(s, [], v) == v + Intercalate(Chars(s) + [[]], v)
    decreases |s|
  {
    if s != [] {
      EmptyKeyTail(s[1..], v);
      var ps := Chars(s) + [[]];
      assert ps[0] == [s[0]];
      assert ps[1..] == Chars(s[1..]) + [[]];
      assert Intercalate(ps, v) == [s[0]] + v + Intercalate(ps[1..], v);
      assert ReplaceAll(s, [], v) == v + [s[0]] + ReplaceAll(s[1..], [], v);
    }
  }

  /** `"axa".replace("a", "b") == "bxb"` and `"ab".replace("", "x") == "xaxbx"`. */
  lemma ReplaceAllExamples()
    ensures ReplaceAll("axa", "a", "b") == "bxb"
    ensures ReplaceAll("ab", "", "x") == "xaxbx"
  {
    assert ReplaceAll("a", "a", "b") == "b" by {
      assert ReplaceAll("", "a", "b") == "";
    }
    assert ReplaceAll("xa", "a", "b") == "xb";
    assert ReplaceAll("b", "", "x") == "xbx" by {
      assert ReplaceAll("", "", "x") == "x";
    }
  }

  /** The table applied pair by pair, first to last. */
  function ApplyRewrites(s: string, table: Table): (r: string)
    ensures (forall i :: 0 <= i < |table| ==> table[i].0 == table[i].1) ==> r == s
    decreases |table|
  {
    if table == [] then s
    else
      var (k, v) := table[|table| - 1];
      ReplaceAll(ApplyRewrites(s, table[..|table| - 1]), k, v)
  }

  /** Applying two tables in sequence is applying their concatenation. */
  lemma {:induction false} ApplyRewritesAppend(s: string, t1: Table, t2: Table)
    ensures ApplyRewrites(s, t1 + t2) == ApplyRewrites(ApplyRewrites(s, t1), t2)
    decreases |t2|
  {
    if t2 == [] {
      assert t1 + t2 == t1;
    } else {
      var init := t2[..|t2| - 1];
      ApplyRewritesAppend(s, t1, init);
      assert (t1 + t2)[..|t1 + t2| - 1] == t1 + init;
      assert (t1 + t2)[|t1 + t2| - 1] == t2[|t2| - 1];
    }
  }

  /** The first pair rewrites the input; the rest of the table rewrites its output. */
  lemma ApplyRewritesFirst(s: string, k: string, v: string, rest: Table)
    ensures ApplyRewrites(s, [(k, v)] + rest) == ApplyRewrites(ReplaceAll(s, k, v), rest)
  {
    ApplyRewritesAppend(s, [(k, v)], rest);
    assert [(k, v)][..0] == [];
  }

  /** A pair whose non-empty key does not occur in the text it is applied to has no effect. */
  lemma ApplyRewritesSkip(s: string, before: Table, k: string, v: string, after: Table)
    requires k != [] && !Occurs(ApplyRewrites(s, before), k)
    ensures ApplyRewrites(s, before + [(k, v)] + after) == ApplyRewrites(s, before + after)
  {
    ApplyRewritesAppend(s, before + [(k, v)], after);
    ApplyRewritesAppend(s, before, after);
    assert (before + [(k, v)])[..|before|] == before;
    ReplaceAllAbsent(ApplyRewrites(s, before), k, v);
  }

  /**
   * The order of the table matters: the same two pairs applied in the two
   * orders send "a" to "c" and to "b".
   */
  lemma RewriteOrderMatters()
    ensures ApplyRewrites("a", [("a", "b"), ("b", "c")]) == "c"
    ensures ApplyRewrites("a", [("b", "c"), ("a", "b")]) == "b"
  {
    ApplyRewritesFirst("a", "a", "b", [("b", "c")]);
    ApplyRewritesFirst("a", "b", "c", [("a", "b")]);
    assert ReplaceAll("a", "a", "b") == "b" by {
      assert ReplaceAll("", "a", "b") == "";
    }
    assert ReplaceAll("b", "b", "c") == "c" by {
      assert ReplaceAll("", "b", "c") == "";
    }
    assert ReplaceAll("a", "b", "c") == "a";
    assert [("b", "c")][..0] == [];
    assert [("a", "b")][..0] == [];
  }

  /**
   * The order also matters when two keys overlap in the input: whichever
   * pair comes first consumes the shared character.
   */
  lemma RewriteOverlapOrder()
    ensures ApplyRewrites("abc", [("ab", "X"), ("bc", "Y")]) == "Xc"
    ensures ApplyRewrites("abc", [("bc", "Y"), ("ab", "X")]) == "aY"
  {
    OverlapReplacements();
    ApplyRewritesFirst("abc", "ab", "X", [("bc", "Y")]);
    ApplyRewritesFirst("abc", "bc", "Y", [("ab", "X")]);
    assert [("bc", "Y")][..0] == [];
    assert [("ab", "X")][..0] == [];
  }

  /** The single replacements behind `RewriteOverlapOrder`. */
  lemma OverlapReplacements()
    ensures ReplaceAll("abc", "ab", "X") == "Xc" && ReplaceAll("Xc", "bc", "Y") == "Xc"
    ensures ReplaceAll("abc", "bc", "Y") == "aY" && ReplaceAll("aY", "ab", "X") == "aY"
  {
    assert ReplaceAll("c", "ab", "X") == "c";
    assert ReplaceAll("c", "bc", "Y") == "c";
    assert ReplaceAll("bc", "bc", "Y") == "Y" by {
      assert ReplaceAll("", "bc", "Y") == "";
    }
    assert ReplaceAll("Y", "ab", "X") == "Y";
  }
}
