/**
  The Python `str` operations the generator relies on, over ASCII:
  `upper`, `lower`, `title`, `strip`, `in` (substring test) and `replace`.
  Characters outside ASCII are left unchanged by the casing functions.
 */
module Text {

  predicate IsUpper(c: char) { 'A' <= c <= 'Z' }
  predicate IsLower(c: char) { 'a' <= c <= 'z' }
  /** ASCII letters are exactly the characters Python counts as cased here. */
  predicate IsLetter(c: char) { IsUpper(c) || IsLower(c) }

  /** Python's `str.isspace` restricted to ASCII: space, \t \n \v \f \r and \x1c-\x1f. */
  predicate IsSpace(c: char) {
    c == ' ' || 9 <= c as int <= 13 || 28 <= c as int <= 31
  }

  predicate IsHexDigit(c: char) { '0' <= c <= '9' || 'a' <= c <= 'f' }

  predicate NoUpper(s: string) { forall i :: 0 <= i < |s| ==> !IsUpper(s[i]) }
  predicate NoLower(s: string) { forall i :: 0 <= i < |s| ==> !IsLower(s[i]) }
  predicate AllSpace(s: string) { forall i :: 0 <= i < |s| ==> IsSpace(s[i]) }

  function LowerChar(c: char): (d: char)
    ensures !IsUpper(d) && (IsLetter(d) <==> IsLetter(c))
    ensures !IsLetter(c) ==> d == c
  {
    if IsUpper(c) then (c as int + 32) as char else c
  }

  function UpperChar(c: char): (d: char)
    ensures !IsLower(d) && (IsLetter(d) <==> IsLetter(c))
    ensures !IsLetter(c) ==> d == c
    ensures LowerChar(d) == LowerChar(c)
  {
    if IsLower(c) then (c as int - 32) as char else c
  }

  /** `str.lower` */
  function Lower(s: string): (r: string)
    ensures |r| == |s| && NoUpper(r)
    ensures forall i :: 0 <= i < |s| ==>
      && (!IsLetter(s[i]) ==> r[i] == s[i])
      && (IsLetter(s[i]) ==> IsLetter(r[i]) && UpperChar(r[i]) == UpperChar(s[i]))
  {
    seq(|s|, i requires 0 <= i < |s| => LowerChar(s[i]))
  }

  /** `str.upper` */
  function Upper(s: string): (r: string)
    ensures |r| == |s| && NoLower(r)
    ensures forall i :: 0 <= i < |s| ==>
      && (!IsLetter(s[i]) ==> r[i] == s[i])
      && (IsLetter(s[i]) ==> IsLetter(r[i]) && LowerChar(r[i]) == LowerChar(s[i]))
  {
    seq(|s|, i requires 0 <= i < |s| => UpperChar(s[i]))
  }

  /**
    `str.title`: a letter is upper-cased when the character before it is not
    cased (or it is the first one) and lower-cased otherwise.
   */
  function Title(s: string): (r: string)
    ensures |r| == |s| && IsTitleCased(r)
    ensures forall i :: 0 <= i < |s| ==>
      && (!IsLetter(s[i]) ==> r[i] == s[i])
      && (IsLetter(s[i]) ==> IsLetter(r[i]) && LowerChar(r[i]) == LowerChar(s[i]))
  {
    seq(|s|, i requires 0 <= i < |s| =>
      if i > 0 && IsLetter(s[i - 1]) then LowerChar(s[i]) else UpperChar(s[i]))
  }

  /** Every word starts with an upper-case letter and continues in lower case. */
  predicate IsTitleCased(s: string) {
    forall i :: 0 <= i < |s| && IsLetter(s[i]) ==>
      (IsUpper(s[i]) <==> (i == 0 || !IsLetter(s[i - 1])))
  }

  lemma LowerOfLowerCase(s: string)
    requires NoUpper(s)
    ensures Lower(s) == s
  {
    assert forall i :: 0 <= i < |s| ==> Lower(s)[i] == s[i];
  }

  // ---------------------------------------------------------------- strip

  /** `str.lstrip()`: drops the leading whitespace. */
  function TrimStart(s: string): (r: string)
    ensures |r| <= |s| && r == s[|s| - |r|..]
    ensures AllSpace(s[..|s| - |r|])
    ensures r == [] || !IsSpace(r[0])
    decreases |s|
  {
    if s != [] && IsSpace(s[0]) then
      var r := TrimStart(s[1..]);
      assert s[..|s| - |r|] == [s[0]] + s[1..][..|s| - 1 - |r|];
      AllSpaceJoin([s[0]], s[1..][..|s| - 1 - |r|]);
      r
    else s
  }

  /** `str.rstrip()`: drops the trailing whitespace. */
  function TrimEnd(s: string): (r: string)
    ensures |r| <= |s| && r == s[..|r|]
    ensures AllSpace(s[|r|..])
    ensures r == [] || !IsSpace(r[|r| - 1])
    decreases |s|
  {
    if s != [] && IsSpace(s[|s| - 1]) then
      var r := TrimEnd(s[..|s| - 1]);
      assert s[|r|..] == s[..|s| - 1][|r|..] + [s[|s| - 1]];
      AllSpaceJoin(s[..|s| - 1][|r|..], [s[|s| - 1]]);
      r
    else s
  }

  /** Whitespace followed by whitespace is whitespace. */
  lemma AllSpaceJoin(a: string, b: string)
    requires AllSpace(a) && AllSpace(b)
    ensures AllSpace(a + b)
  {
    forall i | 0 <= i < |a + b| ensures IsSpace((a + b)[i]) {
      if i >= |a| { assert (a + b)[i] == b[i - |a|]; }
    }
  }

  predicate Trimmed(s: string) {
    s == [] || (!IsSpace(s[0]) && !IsSpace(s[|s| - 1]))
  }

  /** `r` is `s` with whitespace, and only whitespace, cut from both ends. */
  ghost predicate IsStripOf(r: string, s: string) {
    exists i, j :: 0 <= i <= j <= |s| && r == s[i..j] && AllSpace(s[..i]) && AllSpace(s[j..])
  }

  /** The slice between the two trimmed ends is what `strip` keeps. */
  lemma StripSlice(s: string)
    ensures IsStripOf(TrimEnd(TrimStart(s)), s)
  {
    var t := TrimStart(s);
    var r := TrimEnd(t);
    var i := |s| - |t|;
    var j := i + |r|;
    assert t == s[i..];
    assert r == s[i..j];
    assert s[j..] == t[|r|..];
  }

  /**
    `str.strip()`: the result is a slice of the input with no whitespace at
    either end, and everything cut off on either side is whitespace.
   */
  function Strip(s: string): (r: string)
    ensures Trimmed(r) && IsStripOf(r, s)
  {
    StripSlice(s);
    var t := TrimStart(s);
    var r := TrimEnd(t);
    assert r != [] ==> r[0] == t[0];
    r
  }

  lemma StripOfTrimmed(s: string)
    requires Trimmed(s)
    ensures Strip(s) == s
  {}

  // ------------------------------------------------- substring and replace

  predicate StartsWith(s: string, p: string) {
    |p| <= |s| && s[..|p|] == p
  }

  /** Python's `p in s`. */
  predicate Contains(s: string, p: string)
    decreases |s|
  {
    StartsWith(s, p) || (s != [] && Contains(s[1..], p))
  }

  /** `p` occurs in `s` at position `k`. */
  predicate OccursAt(s: string, p: string, k: nat) {
    k + |p| <= |s| && s[k..k + |p|] == p
  }

  /** `Contains` finds exactly the texts that occur at some position. */
  lemma {:induction false} ContainsOccurs(s: string, p: string)
    ensures Contains(s, p) <==> exists k: nat :: OccursAt(s, p, k)
    decreases |s|
  {
    if StartsWith(s, p) {
      assert OccursAt(s, p, 0);
    } else if s != [] {
      ContainsOccurs(s[1..], p);
      if Contains(s[1..], p) {
        var k: nat :| OccursAt(s[1..], p, k);
        assert s[k + 1..k + 1 + |p|] == s[1..][k..k + |p|];
        assert OccursAt(s, p, k + 1);
      }
      forall k: nat | OccursAt(s, p, k) ensures Contains(s[1..], p) {
        if k > 0 {
          assert s[1..][k - 1..k - 1 + |p|] == s[k..k + |p|];
          assert OccursAt(s[1..], p, k - 1);
        }
      }
    }
  }

  /**
    Python's `s.replace(pat, rep)` for a non-empty `pat`: occurrences are
    found left to right and do not overlap.
   */
  function ReplaceAll(s: string, pat: string, rep: string): (r: string)
    requires pat != []
    ensures !Contains(s, pat) ==> r == s
    decreases |s|
  {
    if s == [] then []
    else if StartsWith(s, pat) then rep + ReplaceAll(s[|pat|..], pat, rep)
    else [s[0]] + ReplaceAll(s[1..], pat, rep)
  }

  /** An occurrence in the tail is an occurrence one position further on. */
  lemma OccursInTail(s: string, p: string, k: nat)
    requires s != []
    ensures OccursAt(s[1..], p, k) <==> OccursAt(s, p, k + 1)
  {
    if k + |p| <= |s| - 1 {
      assert s[1..][k..k + |p|] == s[k + 1..k + 1 + |p|];
    }
  }

  /** Where the pattern does not start, `replace` copies one character. */
  lemma ReplaceAllSkip(s: string, pat: string, rep: string)
    requires pat != [] && s != [] && !StartsWith(s, pat)
    ensures ReplaceAll(s, pat, rep) == [s[0]] + ReplaceAll(s[1..], pat, rep)
  {}

  /** Where the pattern starts, `replace` writes `rep` and skips the pattern. */
  lemma ReplaceAllHit(s: string, pat: string, rep: string)
    requires pat != [] && StartsWith(s, pat)
    ensures ReplaceAll(s, pat, rep) == rep + ReplaceAll(s[|pat|..], pat, rep)
  {}

  /** No occurrence before `k` in `s` means none before `k - 1` in its tail. */
  lemma NoEarlierInTail(s: string, p: string, k: nat)
    requires s != [] && 0 < k
    requires forall k': nat :: k' < k ==> !OccursAt(s, p, k')
    ensures forall k': nat :: k' < k - 1 ==> !OccursAt(s[1..], p, k')
  {
    forall k': nat | k' < k - 1 ensures !OccursAt(s[1..], p, k') {
      OccursInTail(s, p, k');
    }
  }

  /** A split of the tail's replacement gives a split of the whole text's. */
  lemma ReplaceAllShift(s: string, t: string, pat: string, rep: string, j: nat, k: nat)
    requires pat != [] && s != [] && !StartsWith(s, pat) && t == s[1..] && k == j + 1 && k + |pat| <= |s|
    requires ReplaceAll(t, pat, rep) == t[..j] + rep + ReplaceAll(t[j + |pat|..], pat, rep)
    ensures ReplaceAll(s, pat, rep) == s[..k] + rep + ReplaceAll(s[k + |pat|..], pat, rep)
  {
    ReplaceAllSkip(s, pat, rep);
    TailSlices(s, t, j, k, |pat|);
    Glue(ReplaceAll(s, pat, rep), s[0], ReplaceAll(t, pat, rep), t[..j], s[..k], rep,
      ReplaceAll(t[j + |pat|..], pat, rep), ReplaceAll(s[k + |pat|..], pat, rep));
  }

  /** Slices of the tail are slices of the whole, one position on. */
  lemma TailSlices(s: string, t: string, j: nat, k: nat, m: nat)
    requires s != [] && t == s[1..] && k == j + 1 && k + m <= |s|
    ensures t[j + m..] == s[k + m..] && [s[0]] + t[..j] == s[..k]
  {
    assert [s[0]] + t[..j] == s[..k];
  }

  /** Chaining the equations of one split with the re-attached first character. */
  lemma Glue(x: string, c: char, t: string, a: string, p: string, rep: string, e1: string, e2: string)
    requires x == [c] + t && t == a + rep + e1 && e1 == e2 && p == [c] + a
    ensures x == p + rep + e2
  {}

  /**
    `replace` keeps the text before the first occurrence of the pattern,
    writes `rep` in its place and goes on after it. With the identity on
    text without an occurrence, this determines `replace` completely.
   */
  lemma {:induction false} ReplaceAllAtFirst(s: string, pat: string, rep: string, k: nat)
    requires pat != [] && OccursAt(s, pat, k)
    requires forall k': nat :: k' < k ==> !OccursAt(s, pat, k')
    ensures ReplaceAll(s, pat, rep) == s[..k] + rep + ReplaceAll(s[k + |pat|..], pat, rep)
    decreases k
  {
    if k == 0 {
      assert StartsWith(s, pat);
      ReplaceAllHit(s, pat, rep);
      assert s[..k] + rep == rep;
    } else {
      assert !StartsWith(s, pat) by { assert !OccursAt(s, pat, 0); }
      OccursInTail(s, pat, k - 1);
      NoEarlierInTail(s, pat, k);
      var t, j := s[1..], k - 1;
      ReplaceAllAtFirst(t, pat, rep, j);
      ReplaceAllShift(s, t, pat, rep, j, k);
    }
  }

  lemma StartsWithCons(c: char, t: string, p: string)
    ensures StartsWith([c] + t, p) <==> (p == [] || (c == p[0] && StartsWith(t, p[1..])))
  {
    if p != [] && c == p[0] && StartsWith(t, p[1..]) {
      assert ([c] + t)[..|p|] == [c] + t[..|p| - 1];
    }
    if p != [] && StartsWith([c] + t, p) {
      assert t[..|p| - 1] == ([c] + t)[1..|p|];
    }
  }

  lemma ContainsCons(c: char, t: string, p: string)
    ensures Contains([c] + t, p) <==> (StartsWith([c] + t, p) || Contains(t, p))
  {
    assert ([c] + t)[1..] == t;
  }

  lemma {:induction false} NoCharNotContained(s: string, c: char)
    requires c !in s
    ensures !Contains(s, [c])
    decreases |s|
  {
    if s != [] {
      assert s[0] != c;
      NoCharNotContained(s[1..], c);
    }
  }

  /**
    Inserting a character before every occurrence of `c` lengthens the text
    by the number of occurrences of `c`.
   */
  lemma {:induction false} InsertBeforeLength(s: string, c: char, d: char)
    ensures |ReplaceAll(s, [c], [d, c])| == |s| + multiset(s)[c]
    decreases |s|
  {
    if s != [] {
      InsertBeforeLength(s[1..], c, d);
      assert s == [s[0]] + s[1..];
      assert multiset(s) == multiset([s[0]]) + multiset(s[1..]);
      if s[0] == c {
        assert StartsWith(s, [c]);
      } else {
        assert !StartsWith(s, [c]);
      }
    }
  }

  /** A prefix free of the pattern's only character is copied through unchanged. */
  lemma {:induction false} ReplaceCharAfterPrefix(a: string, t: string, c: char, rep: string)
    requires c !in a
    ensures ReplaceAll(a + t, [c], rep) == a + ReplaceAll(t, [c], rep)
    decreases |a|
  {
    if a != [] {
      var s := a + t;
      assert s[0] == a[0] && s[0] != c;
      assert !StartsWith(s, [c]);
      assert s[1..] == a[1..] + t;
      ReplaceCharAfterPrefix(a[1..], t, c, rep);
      calc {
        ReplaceAll(s, [c], rep);
        [s[0]] + ReplaceAll(s[1..], [c], rep);
        [a[0]] + (a[1..] + ReplaceAll(t, [c], rep));
        { assert a == [a[0]] + a[1..]; }
        a + ReplaceAll(t, [c], rep);
      }
    } else {
      assert a + t == t;
    }
  }
}
