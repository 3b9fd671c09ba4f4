/** Option, for results that may be absent: an attribute looked up by
    name in a live attribute list, the first occurrence of a pattern, a
    snippet or command read back, and the theme effect when the class list
    rejects a token. */
module Wrappers {

  datatype Option<+T> = None | Some(value: T)
}

/** ASCII character classes, case mapping and the JavaScript string
    operations the site calls: `toLowerCase`, `includes`, `replace` with a
    string pattern and `Array.prototype.join`. `IndexOf` defines the first
    occurrence, where `replace` acts; `Split` is the model's own inverse of
    `join`, which the site never calls. */
module Strings {
  import opened Wrappers

  predicate IsLower(c: char) { 'a' <= c <= 'z' }
  predicate IsUpper(c: char) { 'A' <= c <= 'Z' }
  predicate IsLetter(c: char) { IsLower(c) || IsUpper(c) }
  predicate IsDigit(c: char) { '0' <= c <= '9' }

  /** ASCII `toLowerCase` of one character. */
  function ToLowerChar(c: char): (r: char)
    ensures IsUpper(c) ==> IsLower(r) && r as int == c as int + 32
    ensures !IsUpper(c) ==> r == c
  {
    if IsUpper(c) then (c as int + 32) as char else c
  }

  /** ASCII `toUpperCase` of one character. */
  function ToUpperChar(c: char): (r: char)
    ensures IsLower(c) ==> IsUpper(r) && ToLowerChar(r) == c
    ensures !IsLower(c) ==> r == c
  {
    if IsLower(c) then (c as int - 32) as char else c
  }

  /** ASCII `String.prototype.toLowerCase`. */
  function Lower(s: string): (r: string)
    ensures |r| == |s|
    ensures forall i :: 0 <= i < |s| ==> r[i] == ToLowerChar(s[i])
    ensures forall i :: 0 <= i < |r| ==> !IsUpper(r[i])
  {
    seq(|s|, i requires 0 <= i < |s| => ToLowerChar(s[i]))
  }

  lemma LowerIdempotent(s: string)
    ensures Lower(Lower(s)) == Lower(s)
  {
  }

  lemma LowerAppend(a: string, b: string)
    ensures Lower(a + b) == Lower(a) + Lower(b)
  {
  }

  /** `s` has `pat` at index `i`. */
  predicate OccursAt(s: string, pat: string, i: nat)
  {
    i + |pat| <= |s| && s[i..i + |pat|] == pat
  }

  /** `String.prototype.includes`. */
  predicate Contains(s: string, pat: string)
  {
    exists i: nat :: i <= |s| && OccursAt(s, pat, i)
  }

  /** `i` is where `indexOf` finds `pat` in `s`. */
  predicate IsFirstOccurrence(s: string, pat: string, i: nat)
  {
    OccursAt(s, pat, i) && forall j: nat :: j < i ==> !OccursAt(s, pat, j)
  }

  /** `indexOf(pat, from)`: the least index at or after `from` where `pat` occurs. */
  function IndexOfFrom(s: string, pat: string, from: nat): (r: Option<nat>)
    decreases |s| - from
    ensures r.Some? ==> from <= r.value && OccursAt(s, pat, r.value)
    ensures r.Some? ==> forall j: nat :: from <= j < r.value ==> !OccursAt(s, pat, j)
    ensures r.None? ==> forall j: nat :: from <= j ==> !OccursAt(s, pat, j)
  {
    if from + |pat| > |s| then None
    else if s[from..from + |pat|] == pat then Some(from)
    else IndexOfFrom(s, pat, from + 1)
  }

  /** `String.prototype.indexOf`; `None` stands for JavaScript's -1. */
  function IndexOf(s: string, pat: string): (r: Option<nat>)
    ensures r.Some? <==> Contains(s, pat)
    ensures r.Some? ==> IsFirstOccurrence(s, pat, r.value)
  {
    IndexOfFrom(s, pat, 0)
  }

  /** `s.replace(pat, rep)` with a string pattern: only the first occurrence is
      replaced, and nothing changes when `pat` does not occur. The replacement
      is taken literally (callers never pass a `$` in it). */
  function ReplaceFirst(s: string, pat: string, rep: string): (r: string)
    ensures !Contains(s, pat) ==> r == s
    ensures forall i: nat :: IsFirstOccurrence(s, pat, i) ==> r == s[..i] + rep + s[i + |pat|..]
  {
    match IndexOf(s, pat)
    case None => s
    case Some(i) =>
      assert forall k: nat :: IsFirstOccurrence(s, pat, k) ==> k == i by {
        forall k: nat | IsFirstOccurrence(s, pat, k) ensures k == i {
          if k < i {} else if i < k {}
        }
      }
      s[..i] + rep + s[i + |pat|..]
  }

  /** After a replacement the replacement text is present. */
  lemma ReplaceFirstInstalls(s: string, pat: string, rep: string)
    requires Contains(s, pat)
    ensures Contains(ReplaceFirst(s, pat, rep), rep)
  {
    var i := IndexOf(s, pat).value;
    var r := ReplaceFirst(s, pat, rep);
    assert r == s[..i] + rep + s[i + |pat|..];
    assert r[i..i + |rep|] == rep;
    assert OccursAt(r, rep, i);
  }

  /** Replacing a pattern by itself changes nothing. */
  lemma ReplaceFirstSame(s: string, pat: string)
    ensures ReplaceFirst(s, pat, pat) == s
  {
    if Contains(s, pat) {
      var i := IndexOf(s, pat).value;
      assert s[..i] + pat + s[i + |pat|..] == s[..i] + s[i..i + |pat|] + s[i + |pat|..];
      assert s[..i] + s[i..i + |pat|] + s[i + |pat|..] == s;
    }
  }

  /** Two patterns that can never overlap in any string: neither's first
      character occurs later in the other, and they differ in their first
      two characters. */
  predicate Apart(p: string, q: string)
  {
    |p| >= 2 && |q| >= 2 && p[0] !in q[1..] && q[0] !in p[1..] && p[..2] != q[..2]
  }

  /** Occurrences of two patterns that are apart never overlap. */
  lemma NoOverlap(s: string, p: string, q: string, i: nat, j: nat)
    requires OccursAt(s, p, i) && OccursAt(s, q, j)
    requires Apart(p, q)
    ensures j + |q| <= i || i + |p| <= j
  {
    assert s[i] == p[0] && s[j] == q[0];
    assert s[i + 1] == p[1] && s[j + 1] == q[1];
    if i < j < i + |p| {
      assert false;
    } else if j < i < j + |q| {
      assert false;
    } else if i == j {
      assert false;
    }
  }

  /** An occurrence inside a prefix survives whatever follows it. */
  lemma OccursInPrefix(a: string, b: string, c: string, x: string, j: nat)
    requires OccursAt(a + b, x, j) && j + |x| <= |a|
    ensures OccursAt(a + c, x, j)
  {
    assert (a + c)[j..j + |x|] == a[j..j + |x|] == (a + b)[j..j + |x|];
  }

  /** An occurrence inside a suffix survives whatever precedes it. */
  lemma OccursInSuffix(a: string, b: string, c: string, x: string, j: nat)
    requires OccursAt(a + b, x, j) && |a| <= j
    ensures OccursAt(c + b, x, j - |a| + |c|)
  {
    var k := j - |a| + |c|;
    assert (c + b)[k..k + |x|] == b[j - |a|..j - |a| + |x|] == (a + b)[j..j + |x|];
  }

  /** Splicing `rep` over an occurrence of `pat` keeps every occurrence
      of a pattern that cannot overlap `pat`. */
  lemma SpliceKeeps(head: string, pat: string, tail: string, rep: string, x: string, j: nat)
    requires OccursAt(head + pat + tail, x, j)
    requires Apart(pat, x)
    ensures Contains(head + rep + tail, x)
  {
    var s := head + pat + tail;
    assert OccursAt(s, pat, |head|) by { Infix(head, pat, tail); }
    NoOverlap(s, pat, x, |head|, j);
    assert s == head + (pat + tail);
    var r := head + rep + tail;
    assert r == head + (rep + tail);
    if j + |x| <= |head| {
      OccursInPrefix(head, pat + tail, rep + tail, x, j);
      assert OccursAt(r, x, j);
    } else {
      OccursInSuffix(head + pat, tail, head + rep, x, j);
      assert OccursAt(r, x, j - |pat| + |rep|);
    }
  }

  /** Replacing `pat` keeps an occurrence of a pattern it cannot overlap. */
  lemma ReplaceFirstKeeps(s: string, pat: string, rep: string, x: string)
    requires Contains(s, x)
    requires Apart(pat, x)
    ensures Contains(ReplaceFirst(s, pat, rep), x)
  {
    if Contains(s, pat) {
      var i := IndexOf(s, pat).value;
      var head, tail := s[..i], s[i + |pat|..];
      assert s == head + pat + tail;
      var j: nat :| j <= |s| && OccursAt(s, x, j);
      SpliceKeeps(head, pat, tail, rep, x, j);
    }
  }

  /** `Array.prototype.join(sep)`. */
  function Join(xs: seq<string>, sep: string): (r: string)
    ensures |xs| == 0 ==> r == ""
    ensures |xs| > 0 ==> |r| >= |xs[0]|
  {
    if |xs| == 0 then ""
    else if |xs| == 1 then xs[0]
    else xs[0] + sep + Join(xs[1..], sep)
  }

  /** A separator-free character stays out of the joined string. */
  lemma {:induction false} JoinAvoids(xs: seq<string>, sep: string, c: char)
    requires c !in sep
    requires forall i :: 0 <= i < |xs| ==> c !in xs[i]
    ensures c !in Join(xs, sep)
  {
    if |xs| > 1 {
      JoinAvoids(xs[1..], sep, c);
    }
  }

  /** Every piece appears in the joined string. */
  lemma {:induction false} JoinContains(xs: seq<string>, sep: string, i: nat)
    requires i < |xs|
    ensures Contains(Join(xs, sep), xs[i])
  {
    if |xs| == 1 {
      Infix([], xs[0], []);
      assert [] + xs[0] + [] == xs[0];
    } else if i == 0 {
      Infix([], xs[0], sep + Join(xs[1..], sep));
      assert Join(xs, sep) == [] + xs[0] + (sep + Join(xs[1..], sep));
    } else {
      JoinContains(xs[1..], sep, i - 1);
      Infix(xs[0] + sep, Join(xs[1..], sep), []);
      assert Join(xs, sep) == (xs[0] + sep) + Join(xs[1..], sep) + [];
      ContainsTransitive(Join(xs, sep), Join(xs[1..], sep), xs[i]);
    }
  }

  /** A string contains each of its infixes. */
  lemma Infix(a: string, x: string, b: string)
    ensures OccursAt(a + x + b, x, |a|)
    ensures Contains(a + x + b, x)
  {
    assert (a + x + b)[|a|..|a| + |x|] == x;
    assert |a| <= |a + x + b| && OccursAt(a + x + b, x, |a|);
  }

  lemma ContainsTransitive(s: string, x: string, y: string)
    requires Contains(s, x) && Contains(x, y)
    ensures Contains(s, y)
  {
    var i: nat :| i <= |s| && OccursAt(s, x, i);
    var j: nat :| j <= |x| && OccursAt(x, y, j);
    assert s[i..i + |x|] == x;
    forall k | 0 <= k < |y|
      ensures s[i + j..i + j + |y|][k] == y[k]
    {
      assert s[i + j + k] == s[i..i + |x|][j + k];
      assert y[k] == x[j..j + |y|][k];
    }
    assert s[i + j..i + j + |y|] == y;
    assert OccursAt(s, y, i + j);
  }

  /** `String.prototype.split` on a one-character separator; an empty string
      splits into one empty piece. */
  function Split(s: string, c: char): (r: seq<string>)
    ensures |r| >= 1
  {
    if |s| == 0 then [""]
    else
      var rest := Split(s[1..], c);
      if s[0] == c then [""] + rest else [[s[0]] + rest[0]] + rest[1..]
  }

  lemma {:induction false} SplitNoSeparator(a: string, c: char)
    requires c !in a
    ensures Split(a, c) == [a]
  {
    if |a| > 0 {
      SplitNoSeparator(a[1..], c);
      assert [a[0]] + a[1..] == a;
    }
  }

  lemma {:induction false} SplitAfterPiece(a: string, c: char, b: string)
    requires c !in a
    ensures Split(a + [c] + b, c) == [a] + Split(b, c)
  {
    if |a| == 0 {
      assert a + [c] + b == [c] + b;
      assert ([c] + b)[1..] == b;
    } else {
      SplitAfterPiece(a[1..], c, b);
      assert (a + [c] + b)[1..] == a[1..] + [c] + b;
      assert [a[0]] + a[1..] == a;
    }
  }

  /** Joining a non-empty list of pieces that do not contain the separator
      and splitting again gives the pieces back. The empty list is
      excluded: it joins to "", which splits to `[""]`. */
  lemma {:induction false} SplitJoin(xs: seq<string>, c: char)
    requires |xs| > 0
    requires forall i :: 0 <= i < |xs| ==> c !in xs[i]
    ensures Split(Join(xs, [c]), c) == xs
  {
    if |xs| == 1 {
      SplitNoSeparator(xs[0], c);
    } else {
      SplitJoin(xs[1..], c);
      SplitAfterPiece(xs[0], c, Join(xs[1..], [c]));
      assert [xs[0]] + xs[1..] == xs;
    }
  }

  /** The string with every `c` deleted. */
  function Delete(s: string, c: char): (r: string)
    ensures |r| <= |s|
    ensures c !in r
  {
    if |s| == 0 then ""
    else (if s[0] == c then "" else [s[0]]) + Delete(s[1..], c)
  }

  lemma {:induction false} DeleteAppend(a: string, b: string, c: char)
    ensures Delete(a + b, c) == Delete(a, c) + Delete(b, c)
  {
    if |a| > 0 {
      DeleteAppend(a[1..], b, c);
      assert (a + b)[1..] == a[1..] + b;
    } else {
      assert a + b == b;
    }
  }

  /** Lower-casing does not create or destroy the (non-letter) deleted character. */
  lemma {:induction false} DeleteLower(s: string, c: char)
    requires !IsUpper(c) && !IsLower(c)
    ensures Delete(Lower(s), c) == Lower(Delete(s, c))
  {
    if |s| > 0 {
      DeleteLower(s[1..], c);
      assert Lower(s)[1..] == Lower(s[1..]);
    }
  }
}
