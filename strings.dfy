/** Python's substring test (`sub in s`) and `str.replace`, on `seq<char>`. */
module Strings {

  /** `s` begins with `p` (Python's `s.startswith(p)`). */
  predicate StartsWith(s: string, p: string)
  {
    |p| <= |s| && s[..|p|] == p
  }

  /** `s` ends with `p` (Python's `s.endswith(p)`). */
  predicate EndsWith(s: string, p: string)
  {
    |p| <= |s| && s[|s| - |p|..] == p
  }

  /** Python's `sub in s`: `sub` occurs somewhere in `s`; the empty string occurs everywhere. */
  predicate Contains(s: string, sub: string)
    ensures Contains(s, sub) ==> |sub| <= |s|
    decreases |s|
  {
    StartsWith(s, sub) || (|s| > 0 && Contains(s[1..], sub))
  }

  /** Reference definition of an occurrence: `sub` sits in `s` at index `i`. */
  ghost predicate OccursAt(s: string, sub: string, i: int)
  {
    0 <= i && i + |sub| <= |s| && s[i..i + |sub|] == sub
  }

  /** The scanning definition of `Contains` agrees with "there is an index where `sub` occurs". */
  lemma {:induction false} ContainsIffOccurs(s: string, sub: string)
    ensures Contains(s, sub) <==> exists i :: OccursAt(s, sub, i)
    decreases |s|
  {
    if StartsWith(s, sub) {
      assert OccursAt(s, sub, 0);
    } else if |s| == 0 {
      assert |sub| > 0;
    } else {
      ContainsIffOccurs(s[1..], sub);
      OccursInTail(s, sub);
    }
  }

  /** When `sub` does not start `s`, its occurrences in `s` are those in `s[1..]`, shifted by one. */
  lemma OccursInTail(s: string, sub: string)
    requires |s| > 0 && !StartsWith(s, sub)
    ensures (exists i :: OccursAt(s, sub, i)) <==> (exists i :: OccursAt(s[1..], sub, i))
  {
    if i :| OccursAt(s[1..], sub, i) {
      assert s[1..][i..i + |sub|] == s[i + 1..i + 1 + |sub|];
      assert OccursAt(s, sub, i + 1);
    }
    if i :| OccursAt(s, sub, i) {
      assert i != 0;
      assert s[1..][i - 1..i - 1 + |sub|] == s[i..i + |sub|];
      assert OccursAt(s[1..], sub, i - 1);
    }
  }

  /** A string that begins with `p` contains `p`. */
  lemma StartsWithContains(s: string, p: string)
    requires StartsWith(s, p)
    ensures Contains(s, p)
  {
  }

  /** Containment survives putting text in front. */
  lemma {:induction false} ContainsAppendLeft(p: string, s: string, sub: string)
    requires Contains(s, sub)
    ensures Contains(p + s, sub)
    decreases |p|
  {
    if |p| > 0 {
      ContainsAppendLeft(p[1..], s, sub);
      assert (p + s)[1..] == p[1..] + s;
    } else {
      assert p + s == s;
    }
  }

  /**
   * Python's `s.replace(pat, rep)` for a non-empty `pat`: scanning from the left, every
   * occurrence of `pat` that does not overlap an earlier replaced one becomes `rep`.
   */
  function Replace(s: string, pat: string, rep: string): (r: string)
    requires |pat| > 0
    ensures |rep| <= |pat| ==> |r| <= |s|
    ensures |rep| == |pat| ==> |r| == |s|
    decreases |s|
  {
    if |s| < |pat| then s
    else if s[..|pat|] == pat then rep + Replace(s[|pat|..], pat, rep)
    else [s[0]] + Replace(s[1..], pat, rep)
  }

  /** Every character of the result comes from the input or from the replacement. */
  lemma {:induction false} ReplaceCharsFrom(s: string, pat: string, rep: string, c: char)
    requires |pat| > 0
    requires c in Replace(s, pat, rep)
    ensures c in s || c in rep
    decreases |s|
  {
    if |s| < |pat| {
    } else if s[..|pat|] == pat {
      if c !in rep {
        ReplaceCharsFrom(s[|pat|..], pat, rep, c);
        assert c in s[|pat|..];
      }
    } else if c != s[0] {
      ReplaceCharsFrom(s[1..], pat, rep, c);
      if c !in rep {
        assert c in s[1..];
      }
    }
  }

  /** Replacing a one-character pattern leaves none of that character, unless `rep` brings it back. */
  lemma {:induction false} ReplaceRemovesChar(s: string, c: char, rep: string)
    requires c !in rep
    ensures c !in Replace(s, [c], rep)
    decreases |s|
  {
    if |s| >= 1 {
      ReplaceRemovesChar(s[1..], c, rep);
      if s[..1] == [c] {
        assert s[1..] == s[|[c]|..];
      } else {
        assert s[0] != c;
      }
    }
  }

  /** Where `pat` does not occur, `Replace` changes nothing. */
  lemma {:induction false} ReplaceAbsent(s: string, pat: string, rep: string)
    requires |pat| > 0
    requires !Contains(s, pat)
    ensures Replace(s, pat, rep) == s
    decreases |s|
  {
    if |s| >= |pat| {
      ReplaceAbsent(s[1..], pat, rep);
      assert [s[0]] + s[1..] == s;
    }
  }

  /** Replacing a pattern with itself changes nothing. */
  lemma {:induction false} ReplaceSelf(s: string, pat: string)
    requires |pat| > 0
    ensures Replace(s, pat, pat) == s
    decreases |s|
  {
    if |s| < |pat| {
    } else if s[..|pat|] == pat {
      ReplaceSelf(s[|pat|..], pat);
      assert s[..|pat|] + s[|pat|..] == s;
    } else {
      ReplaceSelf(s[1..], pat);
      assert [s[0]] + s[1..] == s;
    }
  }

  /** A leading occurrence is replaced and the scan continues right after it. */
  lemma ReplaceLeading(s: string, pat: string, rep: string)
    requires |pat| > 0
    ensures Replace(pat + s, pat, rep) == rep + Replace(s, pat, rep)
  {
    assert (pat + s)[..|pat|] == pat;
    assert (pat + s)[|pat|..] == s;
  }

  /** A prefix in which no occurrence of the pattern starts passes through unchanged. */
  lemma {:induction false} ReplaceKeepsClearPrefix(p: string, s: string, pat: string, rep: string)
    requires |pat| > 0
    requires forall i :: 0 <= i < |p| ==> !StartsWith((p + s)[i..], pat)
    ensures Replace(p + s, pat, rep) == p + Replace(s, pat, rep)
    decreases |p|
  {
    if |p| > 0 {
      var t := p + s;
      assert t[0..] == t;
      assert t[1..] == p[1..] + s;
      if |t| < |pat| {
        assert Replace(s, pat, rep) == s;
      } else {
        forall i | 0 <= i < |p[1..]| ensures !StartsWith((p[1..] + s)[i..], pat) {
          assert (p[1..] + s)[i..] == t[i + 1..];
        }
        assert !StartsWith(t[0..], pat);
        assert t[..|pat|] != pat;
        assert Replace(t, pat, rep) == [t[0]] + Replace(t[1..], pat, rep);
        ReplaceKeepsClearPrefix(p[1..], s, pat, rep);
        assert [p[0]] + (p[1..] + Replace(s, pat, rep)) == p + Replace(s, pat, rep);
      }
    } else {
      assert p + s == s;
    }
  }

  /** A prefix free of the pattern's first character passes through unchanged. */
  lemma ReplaceKeepsPrefix(p: string, s: string, pat: string, rep: string)
    requires |pat| > 0
    requires pat[0] !in p
    ensures Replace(p + s, pat, rep) == p + Replace(s, pat, rep)
  {
    forall i | 0 <= i < |p| ensures !StartsWith((p + s)[i..], pat) {
      assert (p + s)[i..][0] == p[i];
    }
    ReplaceKeepsClearPrefix(p, s, pat, rep);
  }

  /** A pattern with a character that `s` lacks does not occur in `s`. */
  lemma MissingCharNotContained(s: string, pat: string, k: nat)
    requires k < |pat|
    requires pat[k] !in s
    ensures !Contains(s, pat)
  {
    ContainsIffOccurs(s, pat);
    forall i | 0 <= i && i + |pat| <= |s| ensures !OccursAt(s, pat, i) {
      assert s[i..i + |pat|][k] == s[i + k];
    }
  }

  /** So replacing such a pattern changes nothing. */
  lemma ReplaceMissingChar(s: string, pat: string, rep: string, k: nat)
    requires k < |pat|
    requires pat[k] !in s
    ensures Replace(s, pat, rep) == s
  {
    MissingCharNotContained(s, pat, k);
    ReplaceAbsent(s, pat, rep);
  }

  /** A first character that does not start an occurrence is kept, and the scan moves on. */
  lemma ReplaceSkipOne(c: char, s: string, pat: string, rep: string)
    requires |pat| > 0
    requires !StartsWith([c] + s, pat)
    ensures Replace([c] + s, pat, rep) == [c] + Replace(s, pat, rep)
  {
    assert ([c] + s)[1..] == s;
  }
}
