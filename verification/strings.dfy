/** The handful of Python `str` operations the dialect relies on, with the
    Python semantics spelled out: `split` on one character, `join`, `strip`,
    `in` on substrings, `startswith`, `replace`, `lower`, `str(int)` and `int(str)`. */
module Strings {
  import opened Wrappers

  // ---------------------------------------------------------------------------
  // Substrings

  predicate StartsWith(s: string, prefix: string) {
    |prefix| <= |s| && s[..|prefix|] == prefix
  }

  predicate EndsWith(s: string, suffix: string) {
    |suffix| <= |s| && s[|s| - |suffix|..] == suffix
  }

  /** `sub` occurs in `s` at position `i`. */
  predicate OccursAt(s: string, sub: string, i: nat) {
    i + |sub| <= |s| && s[i..i + |sub|] == sub
  }

  /** `sub in s` for strings: `sub` occurs at some position of `s`. */
  predicate Contains(s: string, sub: string) {
    exists i: nat | i <= |s| :: OccursAt(s, sub, i)
  }

  /** Every character of a contained string occurs in the containing one;
      the usual way to show that a literal does not contain another. */
  lemma ContainsHasChars(s: string, sub: string, k: nat)
    requires k < |sub|
    ensures Contains(s, sub) ==> sub[k] in s
  {
    if Contains(s, sub) {
      var i: nat :| i <= |s| && OccursAt(s, sub, i);
      assert s[i..i + |sub|][k] == s[i + k];
    }
  }

  /** A string starts with its first part, and the rest follows it. */
  lemma StartsConcat(a: string, b: string)
    ensures StartsWith(a + b, a) && (a + b)[|a|..] == b
  {
    assert (a + b)[..|a|] == a;
  }

  lemma ConcatAssoc(a: string, b: string, c: string)
    ensures a + b + c == a + (b + c)
  {
  }

  /** A prefix is contained. */
  lemma StartsWithContains(s: string, sub: string)
    requires StartsWith(s, sub)
    ensures Contains(s, sub)
  {
    assert OccursAt(s, sub, 0);
  }

  // ---------------------------------------------------------------------------
  // Case

  function LowerChar(c: char): char {
    if 'A' <= c <= 'Z' then (c as int - 'A' as int + 'a' as int) as char else c
  }

  /** `s.lower()` restricted to ASCII letters. */
  function Lower(s: string): (r: string)
    ensures |r| == |s|
    ensures forall i :: 0 <= i < |s| ==> r[i] == LowerChar(s[i])
  {
    seq(|s|, i requires 0 <= i < |s| => LowerChar(s[i]))
  }

  // ---------------------------------------------------------------------------
  // Whitespace and strip

  /** The characters Python's `str.isspace()` accepts. */
  predicate IsSpace(c: char) {
    var n := c as int;
    (0x09 <= n <= 0x0D) || (0x1C <= n <= 0x20) || n == 0x85 || n == 0xA0
    || n == 0x1680 || (0x2000 <= n <= 0x200A) || n == 0x2028 || n == 0x2029
    || n == 0x202F || n == 0x205F || n == 0x3000
  }

  function LStrip(s: string): (r: string)
    ensures |r| <= |s| && r == s[|s| - |r|..]
    ensures |r| > 0 ==> !IsSpace(r[0])
    ensures forall i :: 0 <= i < |s| - |r| ==> IsSpace(s[i])
  {
    if |s| > 0 && IsSpace(s[0]) then LStrip(s[1..]) else s
  }

  function RStrip(s: string): (r: string)
    ensures |r| <= |s| && r == s[..|r|]
    ensures |r| > 0 ==> !IsSpace(r[|r| - 1])
    ensures forall i :: |r| <= i < |s| ==> IsSpace(s[i])
  {
    if |s| > 0 && IsSpace(s[|s| - 1]) then RStrip(s[..|s| - 1]) else s
  }

  /** `s.strip()`: drops leading and trailing whitespace. */
  function Strip(s: string): string {
    LStrip(RStrip(s))
  }

  predicate NoSpaceAtEnds(s: string) {
    |s| == 0 || (!IsSpace(s[0]) && !IsSpace(s[|s| - 1]))
  }

  /** Stripping a string padded with spaces returns the unpadded text. */
  lemma {:induction false} StripPadded(pre: string, s: string, post: string)
    requires forall i :: 0 <= i < |pre| ==> IsSpace(pre[i])
    requires forall i :: 0 <= i < |post| ==> IsSpace(post[i])
    requires NoSpaceAtEnds(s)
    ensures Strip(pre + s + post) == s
  {
    if |s| == 0 {
      var t := pre + s + post;
      assert forall i :: 0 <= i < |t| ==> IsSpace(t[i]);
      assert RStrip(t) == "";
    } else {
      RStripPadded(pre + s, post);
      assert RStrip(pre + s) == pre + s;
      LStripPadded(pre, s);
    }
  }

  /** `[p.strip() for p in ps]`. */
  function StripAll(ps: seq<string>): (r: seq<string>)
    ensures |r| == |ps| && forall k :: 0 <= k < |ps| ==> r[k] == Strip(ps[k])
  {
    seq(|ps|, k requires 0 <= k < |ps| => Strip(ps[k]))
  }

  /** A string without whitespace at its ends is its own strip. */
  lemma StripClean(s: string)
    requires NoSpaceAtEnds(s)
    ensures Strip(s) == s
  {
    StripPadded("", s, "");
    assert "" + s + "" == s;
  }

  /** Leading whitespace is stripped. */
  lemma StripLeading(pre: string, s: string)
    requires forall i :: 0 <= i < |pre| ==> IsSpace(pre[i])
    requires NoSpaceAtEnds(s)
    ensures Strip(pre + s) == s
  {
    StripPadded(pre, s, "");
    assert pre + s + "" == pre + s;
  }

  lemma {:induction false} RStripPadded(s: string, post: string)
    requires forall i :: 0 <= i < |post| ==> IsSpace(post[i])
    requires |s| == 0 || !IsSpace(s[|s| - 1])
    ensures RStrip(s + post) == s
    decreases |post|
  {
    if |post| > 0 {
      var t := s + post;
      assert t[..|t| - 1] == s + post[..|post| - 1];
      RStripPadded(s, post[..|post| - 1]);
    } else {
      assert s + post == s;
    }
  }

  lemma {:induction false} LStripPadded(pre: string, s: string)
    requires forall i :: 0 <= i < |pre| ==> IsSpace(pre[i])
    requires |s| > 0 && !IsSpace(s[0])
    ensures LStrip(pre + s) == s
    decreases |pre|
  {
    if |pre| > 0 {
      assert (pre + s)[1..] == pre[1..] + s;
      LStripPadded(pre[1..], s);
    } else {
      assert pre + s == s;
    }
  }

  // ---------------------------------------------------------------------------
  // split / join

  /** `s.split(c)` for a one-character separator: the pieces between the
      occurrences of `c`, always at least one. */
  function Split(s: string, c: char): (r: seq<string>)
    ensures |r| >= 1
    decreases |s|
  {
    if |s| == 0 then [""]
    else
      var rest := Split(s[1..], c);
      if s[0] == c then [""] + rest else [[s[0]] + rest[0]] + rest[1..]
  }

  /** `sep.join(pieces)`. */
  function Join(pieces: seq<string>, sep: string): string
    decreases |pieces|
  {
    if |pieces| == 0 then ""
    else if |pieces| == 1 then pieces[0]
    else pieces[0] + sep + Join(pieces[1..], sep)
  }

  lemma {:induction false} SplitPiecesFree(s: string, c: char)
    ensures forall k :: 0 <= k < |Split(s, c)| ==> c !in Split(s, c)[k]
    decreases |s|
  {
    if |s| > 0 {
      SplitPiecesFree(s[1..], c);
    }
  }

  /** Splitting a separator-free string yields the string itself. */
  lemma {:induction false} SplitNoSeparator(s: string, c: char)
    requires c !in s
    ensures Split(s, c) == [s]
    decreases |s|
  {
    if |s| > 0 {
      assert c !in s[1..];
      SplitNoSeparator(s[1..], c);
      assert [s[0]] + s[1..] == s;
    }
  }

  lemma {:induction false} SplitAppend(a: string, c: char, rest: string)
    requires c !in a
    ensures Split(a + [c] + rest, c) == [a] + Split(rest, c)
    decreases |a|
  {
    if |a| == 0 {
      assert a + [c] + rest == [c] + rest;
      assert ([c] + rest)[1..] == rest;
    } else {
      var s := a + [c] + rest;
      assert s[0] == a[0];
      assert s[1..] == a[1..] + [c] + rest;
      assert c !in a[1..];
      SplitAppend(a[1..], c, rest);
      assert [a[0]] + a[1..] == a;
    }
  }

  /** `s.split(c)` has one piece more than `s` has separators. */
  lemma {:induction false} SplitCount(s: string, c: char)
    ensures |Split(s, c)| == multiset(s)[c] + 1
    decreases |s|
  {
    if |s| > 0 {
      SplitCount(s[1..], c);
      assert s == [s[0]] + s[1..];
      assert multiset(s) == multiset([s[0]]) + multiset(s[1..]);
    }
  }

  /** With a single separator, at position i, the pieces are the text before
      and after it. */
  lemma SplitAtOnly(s: string, c: char, i: int)
    requires 0 <= i < |s| && s[i] == c && multiset(s)[c] == 1
    ensures Split(s, c) == [s[..i], s[i + 1..]]
  {
    assert s == s[..i] + [c] + s[i + 1..];
    assert multiset(s) == multiset(s[..i]) + multiset([c]) + multiset(s[i + 1..]);
    assert c !in s[..i] && c !in s[i + 1..];
    SplitAppend(s[..i], c, s[i + 1..]);
    SplitNoSeparator(s[i + 1..], c);
  }

  /** `s.split(c)` undoes `c.join(pieces)` when no piece holds `c`. */
  lemma {:induction false} SplitJoin(pieces: seq<string>, c: char)
    requires |pieces| >= 1
    requires forall k :: 0 <= k < |pieces| ==> c !in pieces[k]
    ensures Split(Join(pieces, [c]), c) == pieces
    decreases |pieces|
  {
    if |pieces| == 1 {
      SplitNoSeparator(pieces[0], c);
    } else {
      SplitJoin(pieces[1..], c);
      SplitAppend(pieces[0], c, Join(pieces[1..], [c]));
      assert [pieces[0]] + pieces[1..] == pieces;
    }
  }

  // ---------------------------------------------------------------------------
  // replace

  /** `s.replace(pat, rep)` for a non-empty pattern: every occurrence, found
      left to right without overlapping, is replaced. */
  function Replace(s: string, pat: string, rep: string): string
    requires |pat| > 0
    decreases |s|
  {
    if |s| < |pat| then s
    else if s[..|pat|] == pat then rep + Replace(s[|pat|..], pat, rep)
    else [s[0]] + Replace(s[1..], pat, rep)
  }

  /** A string without the pattern is left unchanged. */
  lemma {:induction false} ReplaceAbsent(s: string, pat: string, rep: string)
    requires |pat| > 0
    requires !Contains(s, pat)
    ensures Replace(s, pat, rep) == s
    decreases |s|
  {
    if |s| >= |pat| {
      assert !OccursAt(s, pat, 0);
      if Contains(s[1..], pat) {
        var i: nat :| i <= |s[1..]| && OccursAt(s[1..], pat, i);
        assert s[1..][i..i + |pat|] == s[i + 1..i + 1 + |pat|];
        assert OccursAt(s, pat, i + 1);
      }
      ReplaceAbsent(s[1..], pat, rep);
      assert [s[0]] + s[1..] == s;
    }
  }

  /** When the first occurrence of `pat` in `a + pat` is the appended one,
      replacement distributes over the concatenation. */
  lemma {:induction false} ReplaceSplits(a: string, pat: string, b: string, rep: string)
    requires |pat| > 0
    requires forall p: nat :: p < |a| ==> !OccursAt(a + pat, pat, p)
    ensures Replace(a + pat + b, pat, rep) == Replace(a, pat, rep) + rep + Replace(b, pat, rep)
    decreases |a|
  {
    var s := a + pat + b;
    if |a| == 0 {
      assert s == pat + b;
      assert s[..|pat|] == pat;
      assert s[|pat|..] == b;
    } else {
      assert !OccursAt(a + pat, pat, 0);
      assert (a + pat)[..|pat|] == s[..|pat|];
      assert !OccursAt(s, pat, 0);
      ReplaceHead(s, pat, rep);
      assert s[1..] == a[1..] + pat + b;
      NoEarlyOccurrenceTail(a, pat);
      ReplaceSplits(a[1..], pat, b, rep);
      NoOccurrenceHead(a, pat);
      ReplaceHead(a, pat, rep);
    }
  }

  /** Without a match at the start, the first character is kept. */
  lemma ReplaceHead(s: string, pat: string, rep: string)
    requires |pat| > 0 && |s| > 0 && !OccursAt(s, pat, 0)
    ensures Replace(s, pat, rep) == [s[0]] + Replace(s[1..], pat, rep)
  {
    if |s| < |pat| {
      assert [s[0]] + s[1..] == s;
    }
  }

  lemma NoOccurrenceHead(a: string, pat: string)
    requires |pat| > 0 && |a| > 0 && !OccursAt(a + pat, pat, 0)
    ensures !OccursAt(a, pat, 0)
  {
    if |a| >= |pat| {
      assert (a + pat)[..|pat|] == a[..|pat|];
    }
  }

  lemma NoEarlyOccurrenceTail(a: string, pat: string)
    requires |a| > 0
    requires forall p: nat :: p < |a| ==> !OccursAt(a + pat, pat, p)
    ensures forall p: nat :: p < |a[1..]| ==> !OccursAt(a[1..] + pat, pat, p)
  {
    assert a[1..] + pat == (a + pat)[1..];
    forall p: nat | p < |a[1..]|
      ensures !OccursAt(a[1..] + pat, pat, p)
    {
      assert !OccursAt(a + pat, pat, p + 1);
      assert (a[1..] + pat)[p..p + |pat|] == (a + pat)[p + 1..p + 1 + |pat|];
    }
  }


  // ---------------------------------------------------------------------------
  // Occurrences a replacement cannot create

  /** `a` and `b` agree on their common length: one is a prefix of the other. */
  predicate Agree(a: string, b: string)
    decreases |a|
  {
    |a| == 0 || |b| == 0 || (a[0] == b[0] && Agree(a[1..], b[1..]))
  }

  /** No non-empty suffix of `w` agrees with `u`. */
  predicate NoSuffixAgrees(w: string, u: string)
    decreases |w|
  {
    |w| == 0 || (!Agree(w, u) && NoSuffixAgrees(w[1..], u))
  }

  /** From position `k` of `w` on, every suffix disagrees with `u` within
      its first three characters: a check that unfolds on literals. */
  predicate BreaksFrom(w: string, u: string, k: nat)
    decreases |w| - k
  {
    k >= |w| || |u| == 0 ||
    ((w[k] != u[0] || (k + 1 < |w| && |u| > 1 && (w[k + 1] != u[1] || (k + 2 < |w| && |u| > 2 && w[k + 2] != u[2]))))
     && BreaksFrom(w, u, k + 1))
  }

  lemma {:induction false} BreaksNoSuffix(w: string, u: string, k: nat)
    requires |u| > 0 && k <= |w| && BreaksFrom(w, u, k)
    ensures NoSuffixAgrees(w[k..], u)
    decreases |w| - k
  {
    if k < |w| {
      BreaksNoSuffix(w, u, k + 1);
      var v := w[k..];
      assert v[1..] == w[k + 1..];
      if v[0] == u[0] {
        assert v[1..][0] == w[k + 1] && u[1..][0] == u[1];
        if w[k + 1] == u[1] {
          assert v[1..][1..][0] == w[k + 2] && u[1..][1..][0] == u[2];
          assert !Agree(v[1..][1..], u[1..][1..]);
        }
        assert !Agree(v[1..], u[1..]);
      }
    }
  }

  lemma {:induction false} AgreeSym(a: string, b: string)
    ensures Agree(a, b) <==> Agree(b, a)
    decreases |a|
  {
    if |a| > 0 && |b| > 0 {
      AgreeSym(a[1..], b[1..]);
    }
  }

  /** A prefix of a string that starts with `q` agrees with `q`. */
  lemma {:induction false} AgreeStart(a: string, rest: string, q: string)
    requires StartsWith(a + rest, q)
    ensures Agree(a, q)
    decreases |a|
  {
    if |a| > 0 && |q| > 0 {
      var s := a + rest;
      assert s[0] == s[..|q|][0] == q[0];
      assert s[1..] == a[1..] + rest;
      assert s[1..][..|q| - 1] == s[..|q|][1..];
      AgreeStart(a[1..], rest, q[1..]);
    }
  }

  lemma {:induction false} NoSuffixAt(w: string, u: string, k: nat)
    requires NoSuffixAgrees(w, u) && k < |w|
    ensures !Agree(w[k..], u)
    decreases k
  {
    if k > 0 {
      assert w[1..][k - 1..] == w[k..];
      NoSuffixAt(w[1..], u, k - 1);
    }
  }

  /** A slice holds only occurrences the whole string holds. */
  lemma SliceContains(s: string, a: nat, b: nat, q: string)
    requires a <= b <= |s|
    ensures Contains(s[a..b], q) ==> Contains(s, q)
  {
    if Contains(s[a..b], q) {
      var i: nat :| i <= |s[a..b]| && OccursAt(s[a..b], q, i);
      var t := s[a..b];
      assert forall k :: 0 <= k < |q| ==> q[k] == t[i..i + |q|][k] == s[a + i + k];
      assert s[a + i..a + i + |q|] == q;
      assert OccursAt(s, q, a + i);
    }
  }

  /** `strip` holds only occurrences the string holds. */
  lemma StripContains(s: string, q: string)
    ensures Contains(Strip(s), q) ==> Contains(s, q)
  {
    var r := RStrip(s);
    var l := LStrip(r);
    assert r == s[0..|r|];
    assert l == r[|r| - |l|..|r|];
    SliceContains(s, 0, |r|, q);
    SliceContains(r, |r| - |l|, |r|, q);
  }

  /** The replaced text starts with `w` only when the text does, if no suffix
      of `w` agrees with the replacement. */
  lemma {:induction false} ReplaceStart(t: string, pat: string, rep: string, w: string)
    requires |pat| > 0 && NoSuffixAgrees(w, rep) && StartsWith(Replace(t, pat, rep), w)
    ensures StartsWith(t, w)
    decreases |t|
  {
    if |w| > 0 && |t| >= |pat| {
      if t[..|pat|] == pat {
        AgreeStart(rep, Replace(t[|pat|..], pat, rep), w);
        AgreeSym(rep, w);
      } else {
        var o := Replace(t[1..], pat, rep);
        var s := [t[0]] + o;
        assert s[1..] == o;
        assert s[1..][..|w| - 1] == s[..|w|][1..];
        ReplaceStart(t[1..], pat, rep, w[1..]);
        assert t[..|w|] == [t[0]] + t[1..][..|w| - 1];
      }
    }
  }

  /** Prepending `u` creates no occurrence of `q` when no suffix of `u`
      agrees with `q`. */
  lemma PrependClean(u: string, o: string, q: string)
    requires NoSuffixAgrees(u, q) && !Contains(o, q)
    ensures !Contains(u + o, q)
  {
    if Contains(u + o, q) {
      var i: nat :| i <= |u + o| && OccursAt(u + o, q, i);
      if i < |u| {
        NoSuffixAt(u, q, i);
        assert (u + o)[i..] == u[i..] + o;
        assert (u + o)[i..][..|q|] == (u + o)[i..i + |q|];
        AgreeStart(u[i..], o, q);
      } else {
        assert (u + o)[i..i + |q|] == o[i - |u|..i - |u| + |q|];
        assert OccursAt(o, q, i - |u|);
      }
    }
  }

  /** Appending `u` creates no occurrence of `q` when `u` starts none and no
      proper suffix of `q` agrees with `u`. */
  lemma AppendClean(t: string, u: string, q: string)
    requires |q| > 0 && !Contains(t, q) && NoSuffixAgrees(q[1..], u) && NoSuffixAgrees(u, q)
    ensures !Contains(t + u, q)
  {
    SuffixesClean(u, q);
    forall i: nat | i <= |t + u| ensures !OccursAt(t + u, q, i) {
      OccursLeft(t, u, q, i);
      OccursRight(t, u, q, i);
      AcrossEnd(t, u, q, i);
    }
  }

  /** A string none of whose suffixes agrees with `q` does not hold `q`. */
  lemma SuffixesClean(u: string, q: string)
    requires |q| > 0 && NoSuffixAgrees(u, q)
    ensures !Contains(u, q)
  {
    assert !OccursAt([], q, 0);
    PrependClean(u, [], q);
    assert u + [] == u;
  }

  lemma OccursLeft(t: string, u: string, q: string, i: nat)
    ensures i + |q| <= |t| ==> (OccursAt(t + u, q, i) <==> OccursAt(t, q, i))
  {
    if i + |q| <= |t| {
      assert (t + u)[i..i + |q|] == t[i..i + |q|];
    }
  }

  lemma OccursRight(t: string, u: string, q: string, i: nat)
    ensures |t| <= i ==> (OccursAt(t + u, q, i) <==> OccursAt(u, q, i - |t|))
  {
    if |t| <= i && i + |q| <= |t + u| {
      assert (t + u)[i..i + |q|] == u[i - |t|..i - |t| + |q|];
    }
  }

  /** An occurrence that starts in `t` and ends in `u` makes a proper suffix
      of `q` agree with `u`. */
  lemma AcrossEnd(t: string, u: string, q: string, i: nat)
    ensures |q| > 0 && i < |t| < i + |q| && NoSuffixAgrees(q[1..], u) ==> !OccursAt(t + u, q, i)
  {
    if |q| > 0 && i < |t| < i + |q| && NoSuffixAgrees(q[1..], u) {
      var m := |t| - i;
      assert q[1..][m - 1..] == q[m..];
      NoSuffixAt(q[1..], u, m - 1);
      AgreeSym(u, q[m..]);
      if OccursAt(t + u, q, i) {
        var s := t + u;
        assert u[..|q| - m] == s[i..i + |q|][m..] == q[m..];
        assert u + [] == u;
        AgreeStart(u, [], q[m..]);
      }
    }
  }

  /** A string whose tail starts with the tail of `q`, and whose first
      character is that of `q`, starts with `q`. */
  lemma HeadStart(t: string, q: string)
    ensures |t| > 0 && |q| > 0 && t[0] == q[0] && StartsWith(t[1..], q[1..]) ==> StartsWith(t, q) && Contains(t, q)
  {
    if |t| > 0 && |q| > 0 && t[0] == q[0] && StartsWith(t[1..], q[1..]) {
      assert t[..|q|] == [t[0]] + t[1..][..|q| - 1];
      StartsWithContains(t, q);
    }
  }

  /** Replacing `pat` by `rep` leaves no occurrence of `q`, where `q` is the
      pattern itself or absent from the text, when no suffix of `rep` agrees
      with `q` and no proper suffix of `q` agrees with `rep`. */
  lemma {:induction false} ReplaceClean(t: string, pat: string, rep: string, q: string)
    requires |pat| > 0 && |q| > 0
    requires q == pat || !Contains(t, q)
    requires NoSuffixAgrees(q[1..], rep) && NoSuffixAgrees(rep, q)
    ensures !Contains(Replace(t, pat, rep), q)
    decreases |t|
  {
    if |t| < |pat| {
    } else if t[..|pat|] == pat {
      SliceContains(t, |pat|, |t|, q);
      assert t[|pat|..|t|] == t[|pat|..];
      ReplaceClean(t[|pat|..], pat, rep, q);
      PrependClean(rep, Replace(t[|pat|..], pat, rep), q);
    } else {
      SliceContains(t, 1, |t|, q);
      assert t[1..|t|] == t[1..];
      ReplaceClean(t[1..], pat, rep, q);
      var o := Replace(t[1..], pat, rep);
      var s := [t[0]] + o;
      assert Replace(t, pat, rep) == s;
      if StartsWith(s, q) {
        assert s[1..] == o;
        assert s[1..][..|q| - 1] == s[..|q|][1..];
        assert o[..|q| - 1] == q[1..];
        ReplaceStart(t[1..], pat, rep, q[1..]);
        HeadStart(t, q);
      }
      ConsClean(t[0], o, q);
    }
  }

  /** `ReplaceClean` with its side conditions in a form that unfolds on literals. */
  lemma ReplaceKeepsOut(t: string, pat: string, rep: string, q: string)
    requires |pat| > 0 && |q| > 0 && |rep| > 0
    requires q == pat || !Contains(t, q)
    requires BreaksFrom(q, rep, 1) && BreaksFrom(rep, q, 0)
    ensures !Contains(Replace(t, pat, rep), q)
  {
    BreaksNoSuffix(q, rep, 1);
    BreaksNoSuffix(rep, q, 0);
    assert rep[0..] == rep;
    ReplaceClean(t, pat, rep, q);
  }

  /** `AppendClean` with its side conditions in a form that unfolds on literals. */
  lemma AppendKeepsOut(t: string, u: string, q: string)
    requires |q| > 0 && |u| > 0 && !Contains(t, q)
    requires BreaksFrom(q, u, 1) && BreaksFrom(u, q, 0)
    ensures !Contains(t + u, q)
  {
    BreaksNoSuffix(q, u, 1);
    BreaksNoSuffix(u, q, 0);
    assert u[0..] == u;
    AppendClean(t, u, q);
  }

  /** One more character in front creates at most an occurrence at the start. */
  lemma ConsClean(c: char, o: string, q: string)
    requires !Contains(o, q) && !StartsWith([c] + o, q)
    ensures !Contains([c] + o, q)
  {
    if Contains([c] + o, q) {
      var i: nat :| i <= |[c] + o| && OccursAt([c] + o, q, i);
      assert i > 0;
      assert ([c] + o)[i..i + |q|] == o[i - 1..i - 1 + |q|];
      assert OccursAt(o, q, i - 1);
    }
  }

  /** Strings that differ at a common position do not agree. */
  lemma {:induction false} AgreeDiffers(a: string, b: string, d: nat)
    requires d < |a| && d < |b| && a[d] != b[d]
    ensures !Agree(a, b)
    decreases d
  {
    if d > 0 && a[0] == b[0] {
      AgreeDiffers(a[1..], b[1..], d - 1);
    }
  }

  /** `BreaksFrom` from position 1, with the whole of `w` told apart from `u`
      by one differing position. */
  lemma NoSuffixFrom(w: string, u: string, d: nat)
    requires |u| > 0 && d < |w| && d < |u| && w[d] != u[d] && BreaksFrom(w, u, 1)
    ensures NoSuffixAgrees(w, u)
  {
    BreaksNoSuffix(w, u, 1);
    AgreeDiffers(w, u, d);
  }

  /** An occurrence of `q` that covers all of `w` makes a proper suffix of `q`
      agree with `w`. */
  lemma Spanning(a: string, w: string, b: string, q: string, i: nat)
    ensures i < |a| && |a + w| < i + |q| && NoSuffixAgrees(q[1..], w) ==> !OccursAt(a + w + b, q, i)
  {
    if i < |a| && |a + w| < i + |q| && NoSuffixAgrees(q[1..], w) {
      var m := |a| - i;
      assert q[1..][m - 1..] == q[m..];
      NoSuffixAt(q[1..], w, m - 1);
      if OccursAt(a + w + b, q, i) {
        var s := a + w + b;
        assert forall k :: 0 <= k < |w| ==> q[m + k] == s[i..i + |q|][m + k] == s[|a| + k] == w[k];
        assert w + q[m + |w|..] == q[m..];
        AgreeStart(w, q[m + |w|..], q[m..]);
        AgreeSym(w, q[m..]);
      }
    }
  }

  /** The first occurrence of a pattern that cannot overlap itself, after
      text without it, is replaced, and the rest is replaced as on its own. */
  lemma ReplaceFirst(a: string, pat: string, rep: string, b: string)
    requires |pat| > 0 && !Contains(a, pat) && BreaksFrom(pat, pat, 1)
    ensures Replace(a + pat + b, pat, rep) == a + rep + Replace(b, pat, rep)
  {
    BreaksNoSuffix(pat, pat, 1);
    forall p: nat | p < |a| ensures !OccursAt(a + pat, pat, p) {
      OccursLeft(a, pat, pat, p);
      AcrossEnd(a, pat, pat, p);
    }
    ReplaceSplits(a, pat, b, rep);
    ReplaceAbsent(a, pat, rep);
  }

  /** Text in which no occurrence starts is kept in front of the replaced rest. */
  lemma {:induction false} ReplacePrefix(t: string, c: string, pat: string, rep: string)
    requires |pat| > 0
    requires forall p: nat :: p < |t| ==> !OccursAt(t + c, pat, p)
    ensures Replace(t + c, pat, rep) == t + Replace(c, pat, rep)
    decreases |t|
  {
    if |t| == 0 {
      assert t + c == c;
    } else {
      var s := t + c;
      assert !OccursAt(s, pat, 0);
      ReplaceHead(s, pat, rep);
      assert s[1..] == t[1..] + c;
      forall p: nat | p < |t[1..]| ensures !OccursAt(t[1..] + c, pat, p) {
        assert !OccursAt(s, pat, p + 1);
        if p + |pat| <= |t[1..] + c| {
          assert (t[1..] + c)[p..p + |pat|] == s[p + 1..p + 1 + |pat|];
        }
      }
      ReplacePrefix(t[1..], c, pat, rep);
      assert [t[0]] + (t[1..] + Replace(c, pat, rep)) == t + Replace(c, pat, rep);
    }
  }

  /** An occurrence of `q` that starts inside `w` makes a suffix of `w` agree with `q`. */
  lemma StartsInside(a: string, w: string, c: string, q: string, p: nat)
    ensures |a| <= p < |a + w| && NoSuffixAgrees(w, q) ==> !OccursAt(a + w + c, q, p)
  {
    if |a| <= p < |a + w| && NoSuffixAgrees(w, q) && OccursAt(a + w + c, q, p) {
      var k := p - |a|;
      var s := a + w + c;
      assert s[p..] == w[k..] + c;
      assert s[p..][..|q|] == s[p..p + |q|];
      AgreeStart(w[k..], c, q);
      NoSuffixAt(w, q, k);
    }
  }

  /** Text without `pat` followed by a word that can neither start nor
      complete `pat` is kept in front of the replaced rest. */
  lemma ReplaceAfter(a: string, w: string, c: string, pat: string, rep: string)
    requires |pat| > 0 && !Contains(a, pat)
    requires NoSuffixAgrees(pat[1..], w) && NoSuffixAgrees(w, pat)
    ensures Replace(a + w + c, pat, rep) == a + w + Replace(c, pat, rep)
  {
    var t := a + w;
    forall p: nat | p < |t| ensures !OccursAt(t + c, pat, p) {
      if p + |pat| <= |a| {
        OccursLeft(t, c, pat, p);
        OccursLeft(a, w, pat, p);
      } else if p < |a| && p + |pat| <= |t| {
        OccursLeft(t, c, pat, p);
        AcrossEnd(a, w, pat, p);
      } else if p < |a| {
        Spanning(a, w, c, pat, p);
      } else {
        StartsInside(a, w, c, pat, p);
      }
    }
    ReplacePrefix(t, c, pat, rep);
  }

  /** `ReplaceAfter` with its side conditions in a form that unfolds on literals. */
  lemma ReplaceAfterWord(a: string, w: string, c: string, pat: string, rep: string, d: nat)
    requires |pat| > 0 && !Contains(a, pat)
    requires BreaksFrom(pat, w, 1) && d < |w| && d < |pat| && w[d] != pat[d] && BreaksFrom(w, pat, 1)
    ensures Replace(a + w + c, pat, rep) == a + w + Replace(c, pat, rep)
  {
    BreaksNoSuffix(pat, w, 1);
    NoSuffixFrom(w, pat, d);
    ReplaceAfter(a, w, c, pat, rep);
  }

  // ---------------------------------------------------------------------------
  // Integers

  predicate IsDigit(c: char) {
    '0' <= c <= '9'
  }

  predicate AllDigits(s: string) {
    forall i :: 0 <= i < |s| ==> IsDigit(s[i])
  }

  function DigitChar(d: nat): char
    requires d < 10
  {
    ('0' as int + d) as char
  }

  /** `str(n)` for a non-negative integer. */
  function NatToString(n: nat): (r: string)
    ensures |r| >= 1 && AllDigits(r)
  {
    if n < 10 then [DigitChar(n)] else NatToString(n / 10) + [DigitChar(n % 10)]
  }

  /** `str(i)`. */
  function IntToString(i: int): (r: string)
    ensures |r| >= 1
    ensures i >= 0 ==> AllDigits(r)
    ensures i < 0 ==> r[0] == '-' && AllDigits(r[1..])
  {
    if i < 0 then "-" + NatToString(-i) else NatToString(i)
  }

  /** The value of a string of decimal digits. */
  function DigitsValue(s: string): nat
    requires AllDigits(s)
  {
    if |s| == 0 then 0
    else DigitsValue(s[..|s| - 1]) * 10 + (s[|s| - 1] as int - '0' as int)
  }

  /** `int(s)` for an already stripped string: an optional sign followed by at
      least one decimal digit; anything else raises ValueError. */
  function ParseInt(s: string): (r: Result<int>)
    ensures r.Success? <==>
              ((|s| >= 1 && AllDigits(s))
               || (|s| >= 2 && (s[0] == '-' || s[0] == '+') && AllDigits(s[1..])))
  {
    if |s| >= 1 && AllDigits(s) then Success(DigitsValue(s))
    else if |s| >= 2 && (s[0] == '-' || s[0] == '+') && AllDigits(s[1..]) then
      Success(if s[0] == '-' then -(DigitsValue(s[1..]) as int) else DigitsValue(s[1..]))
    else Failure(ValueError("invalid literal for int() with base 10: " + s))
  }

  lemma {:induction false} DigitsOfNat(n: nat)
    ensures DigitsValue(NatToString(n)) == n
  {
    if n >= 10 {
      var s := NatToString(n);
      assert s[..|s| - 1] == NatToString(n / 10);
      DigitsOfNat(n / 10);
    }
  }

  /** `int(str(i)) == i`. */
  lemma IntRoundTrip(i: int)
    ensures ParseInt(IntToString(i)) == Success(i)
  {
    if i < 0 {
      DigitsOfNat(-i);
      assert IntToString(i)[1..] == NatToString(-i);
    } else {
      DigitsOfNat(i);
    }
  }

  /** `str(i)` never holds any of the separators the catalog strings use. */
  lemma IntToStringChars(i: int)
    ensures forall k :: 0 <= k < |IntToString(i)| ==> IntToString(i)[k] == '-' || IsDigit(IntToString(i)[k])
    ensures NoSpaceAtEnds(IntToString(i))
  {
  }

  // ---------------------------------------------------------------------------
  // re.sub(r"\(\d+\)", "", s)

  /** The length of the run of decimal digits that starts `s`. */
  function DigitRun(s: string): (r: nat)
    ensures r <= |s| && AllDigits(s[..r])
    ensures r < |s| ==> !IsDigit(s[r])
  {
    if |s| == 0 || !IsDigit(s[0]) then 0
    else
      var n := DigitRun(s[1..]);
      assert s[..n + 1] == [s[0]] + s[1..][..n];
      n + 1
  }

  lemma {:induction false} DigitRunOf(d: string, rest: string)
    requires AllDigits(d)
    requires |rest| == 0 || !IsDigit(rest[0])
    ensures DigitRun(d + rest) == |d|
    decreases |d|
  {
    if |d| > 0 {
      assert (d + rest)[1..] == d[1..] + rest;
      DigitRunOf(d[1..], rest);
    }
  }

  /** `s` starts with a parenthesised size such as `(35)`. */
  predicate SizeAtStart(s: string) {
    |s| > 0 && s[0] == '(' && var n := DigitRun(s[1..]); n > 0 && n + 1 < |s| && s[n + 1] == ')'
  }

  /** Removes every parenthesised run of decimal digits, scanning left to right. */
  function RemoveSizes(s: string): string
    decreases |s|
  {
    if |s| == 0 then ""
    else if SizeAtStart(s) then RemoveSizes(s[DigitRun(s[1..]) + 2..])
    else [s[0]] + RemoveSizes(s[1..])
  }

  /** A string without `(` has nothing to remove. */
  lemma {:induction false} RemoveSizesNoParen(s: string)
    requires '(' !in s
    ensures RemoveSizes(s) == s
    decreases |s|
  {
    if |s| > 0 {
      assert s[0] in s;
      assert forall k :: 0 <= k < |s[1..]| ==> s[1..][k] == s[k + 1];
      RemoveSizesNoParen(s[1..]);
      assert [s[0]] + s[1..] == s;
    }
  }

  /** A first character other than `(` is kept. */
  lemma RemoveSizesHead(c: char, t: string)
    requires c != '('
    ensures RemoveSizes([c] + t) == [c] + RemoveSizes(t)
  {
    assert ([c] + t)[1..] == t;
  }

  /** Parenthesis-free text passes through unchanged. */
  lemma {:induction false} RemoveSizesPrefix(a: string, rest: string)
    requires '(' !in a
    ensures RemoveSizes(a + rest) == a + RemoveSizes(rest)
    decreases |a|
  {
    if |a| > 0 {
      assert a[0] in a;
      assert a + rest == [a[0]] + (a[1..] + rest);
      RemoveSizesHead(a[0], a[1..] + rest);
      assert forall k :: 0 <= k < |a[1..]| ==> a[1..][k] == a[k + 1];
      RemoveSizesPrefix(a[1..], rest);
      assert [a[0]] + a[1..] == a;
    } else {
      assert a + rest == rest;
    }
  }

  /** A rendered size `(n)` at the start is removed. */
  lemma RemoveSizesAtSize(n: nat, b: string)
    ensures RemoveSizes("(" + NatToString(n) + ")" + b) == RemoveSizes(b)
  {
    var digits := NatToString(n);
    var s := "(" + NatToString(n) + ")" + b;
    assert s == "(" + (digits + (")" + b));
    assert s[1..] == digits + (")" + b);
    DigitRunOf(digits, ")" + b);
    assert s[|digits| + 1] == ')';
    assert s[|digits| + 2..] == b;
  }

  /** A rendered size `(n)` after a parenthesis-free prefix is removed. */
  lemma RemoveSizesSkip(a: string, n: nat, b: string)
    requires '(' !in a
    ensures RemoveSizes(a + ("(" + NatToString(n) + ")") + b) == a + RemoveSizes(b)
  {
    var size := "(" + NatToString(n) + ")";
    assert a + size + b == a + (size + b);
    RemoveSizesPrefix(a, size + b);
    RemoveSizesAtSize(n, b);
  }
}
