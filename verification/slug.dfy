/** `slugify`, which turns an icon name such as `ArrowUpRight2` into the
    download file name stem `arrow-up-right-2`: three global regular
    expression rewrites, each inserting `-` inside a matched two-character
    pair, then lower-casing. */
module Slug {
  import opened Strings

  /** The three rewrites: `([a-z])([A-Z])`, `([A-Z])([A-Z])` and
      `([a-zA-Z])(\d)`, each replaced by `$1-$2`. */
  datatype Rule = LowerUpper | UpperUpper | LetterDigit

  /** The first capture group's class. */
  predicate Left(rule: Rule, c: char)
  {
    match rule
    case LowerUpper => IsLower(c)
    case UpperUpper => IsUpper(c)
    case LetterDigit => IsLetter(c)
  }

  /** The second capture group's class. */
  predicate Right(rule: Rule, c: char)
  {
    match rule
    case LowerUpper => IsUpper(c)
    case UpperUpper => IsUpper(c)
    case LetterDigit => IsDigit(c)
  }

  /** The rule's pattern matches the two characters `a` then `b`. */
  predicate Joins(rule: Rule, a: char, b: char)
  {
    Left(rule, a) && Right(rule, b)
  }

  /** No adjacent pair of `s` matches the rule. */
  predicate NoBoundary(rule: Rule, s: string)
  {
    forall i :: 0 <= i < |s| - 1 ==> !Joins(rule, s[i], s[i + 1])
  }

  /** One global `replace`: the scan tries each position from the left, and
      after a match it resumes behind the matched pair, so matches never
      overlap. */
  function Hyphenate(rule: Rule, s: string): (r: string)
    ensures |s| <= |r|
    ensures |s| > 0 ==> |r| > 0 && r[0] == s[0]
  {
    if |s| < 2 then s
    else if Joins(rule, s[0], s[1]) then [s[0], '-', s[1]] + Hyphenate(rule, s[2..])
    else [s[0]] + Hyphenate(rule, s[1..])
  }

  /** Reference: a hyphen at every adjacent pair that matches, whether or
      not pairs share a character. */
  function Separate(rule: Rule, s: string): (r: string)
    ensures |s| <= |r|
    ensures |s| > 0 ==> |r| > 0 && r[0] == s[0]
  {
    if |s| < 2 then s
    else [s[0]] + (if Joins(rule, s[0], s[1]) then "-" else "") + Separate(rule, s[1..])
  }

  /** `slugify`: the three rewrites in source order, then `toLowerCase`. */
  function Slugify(name: string): (r: string)
    ensures |name| <= |r|
    ensures forall i :: 0 <= i < |r| ==> !IsUpper(r[i])
  {
    Lower(Hyphenate(LetterDigit, Hyphenate(UpperUpper, Hyphenate(LowerUpper, name))))
  }

  // ---------------------------------------------------------------------
  // One rewrite.
  // ---------------------------------------------------------------------

  /** A rewrite only inserts hyphens: with every `-` deleted, input and
      output agree. */
  lemma {:induction false} HyphenateOnlyInserts(rule: Rule, s: string)
    ensures Delete(Hyphenate(rule, s), '-') == Delete(s, '-')
    decreases |s|
  {
    if |s| >= 2 {
      if Joins(rule, s[0], s[1]) {
        HyphenateOnlyInserts(rule, s[2..]);
        DeleteAppend([s[0], '-', s[1]], Hyphenate(rule, s[2..]), '-');
        DeleteAppend([s[0], s[1]], s[2..], '-');
        assert [s[0], s[1]] + s[2..] == s;
        assert Delete([s[0], '-', s[1]], '-') == Delete([s[0], s[1]], '-');
      } else {
        HyphenateOnlyInserts(rule, s[1..]);
        DeleteAppend([s[0]], Hyphenate(rule, s[1..]), '-');
        DeleteAppend([s[0]], s[1..], '-');
        assert [s[0]] + s[1..] == s;
      }
    }
  }

  /** A rewrite with nothing to match changes nothing. */
  lemma {:induction false} HyphenateIdentity(rule: Rule, s: string)
    requires NoBoundary(rule, s)
    ensures Hyphenate(rule, s) == s
    decreases |s|
  {
    if |s| >= 2 {
      assert !Joins(rule, s[0], s[1]);
      assert NoBoundary(rule, s[1..]) by {
        forall i | 0 <= i < |s[1..]| - 1 ensures !Joins(rule, s[1..][i], s[1..][i + 1]) {
          assert s[1..][i] == s[i + 1] && s[1..][i + 1] == s[i + 2];
        }
      }
      HyphenateIdentity(rule, s[1..]);
      assert [s[0]] + s[1..] == s;
    }
  }

  /** The reference leaves no matching pair behind, for every rule. */
  lemma {:induction false} SeparateNoBoundary(rule: Rule, s: string)
    ensures NoBoundary(rule, Separate(rule, s))
    decreases |s|
  {
    if |s| >= 2 {
      SeparateNoBoundary(rule, s[1..]);
      var tail := Separate(rule, s[1..]);
      var mid: string := if Joins(rule, s[0], s[1]) then "-" else "";
      var r := Separate(rule, s);
      assert r == [s[0]] + mid + tail;
      assert tail[0] == s[1];
      forall i | 0 <= i < |r| - 1 ensures !Joins(rule, r[i], r[i + 1]) {
        if i == 0 {
          if |mid| == 1 {
            assert r[1] == '-';
          } else {
            assert r[1] == s[1];
          }
        } else if i == 1 && |mid| == 1 {
          assert r[1] == '-';
        } else {
          var k := i - 1 - |mid|;
          assert r[i] == tail[k] && r[i + 1] == tail[k + 1];
        }
      }
    }
  }

  /** A rule whose second class never overlaps its first: matches can
      never share a character. True of lower/upper and letter/digit. */
  predicate Disjoint(rule: Rule)
  {
    rule != UpperUpper
  }

  /** For such a rule the scan finds every matching pair: the rewrite is the
      reference. */
  lemma {:induction false} HyphenateIsSeparate(rule: Rule, s: string)
    requires Disjoint(rule)
    ensures Hyphenate(rule, s) == Separate(rule, s)
    decreases |s|
  {
    if |s| >= 2 {
      if Joins(rule, s[0], s[1]) {
        HyphenateIsSeparate(rule, s[2..]);
        var t := s[1..];
        assert t[0] == s[1] && t[1..] == s[2..];
        if |t| >= 2 {
          assert !Joins(rule, t[0], t[1]);
          assert Separate(rule, t) == [s[1]] + Separate(rule, s[2..]);
        }
      } else {
        HyphenateIsSeparate(rule, s[1..]);
      }
    }
  }

  /** For such a rule one rewrite leaves no matching pair. */
  lemma HyphenateNoBoundary(rule: Rule, s: string)
    requires Disjoint(rule)
    ensures NoBoundary(rule, Hyphenate(rule, s))
  {
    HyphenateIsSeparate(rule, s);
    SeparateNoBoundary(rule, s);
  }

  /** Runs of capitals are where the scan misses pairs: in `ABC` the pair
      `BC` overlaps the match `AB`, so only one hyphen is inserted. */
  lemma UpperRunExample()
    ensures Hyphenate(UpperUpper, "ABC") == "A-BC"
    ensures Separate(UpperUpper, "ABC") == "A-B-C"
    ensures !NoBoundary(UpperUpper, Hyphenate(UpperUpper, "ABC"))
  {
    assert "ABC"[2..] == "C";
    assert "ABC"[1..] == "BC";
    assert "BC"[1..] == "C";
    assert Hyphenate(UpperUpper, "ABC")[2] == 'B' && Hyphenate(UpperUpper, "ABC")[3] == 'C';
  }

  // ---------------------------------------------------------------------
  // The whole slugifier.
  // ---------------------------------------------------------------------

  /** Slugifying only inserts hyphens and lower-cases. */
  lemma SlugifyOnlyInserts(name: string)
    ensures Delete(Slugify(name), '-') == Lower(Delete(name, '-'))
  {
    var a := Hyphenate(LowerUpper, name);
    var b := Hyphenate(UpperUpper, a);
    var c := Hyphenate(LetterDigit, b);
    HyphenateOnlyInserts(LowerUpper, name);
    HyphenateOnlyInserts(UpperUpper, a);
    HyphenateOnlyInserts(LetterDigit, b);
    DeleteLower(c, '-');
  }

  /** Without capitals neither capital rule can match. */
  lemma NoUpperNoBoundary(s: string)
    requires forall i :: 0 <= i < |s| ==> !IsUpper(s[i])
    ensures NoBoundary(LowerUpper, s) && NoBoundary(UpperUpper, s)
  {
  }

  /** Lower-casing keeps letters letters and digits digits. */
  lemma LowerNoBoundary(s: string)
    requires NoBoundary(LetterDigit, s)
    ensures NoBoundary(LetterDigit, Lower(s))
  {
    var t := Lower(s);
    forall i | 0 <= i < |t| - 1 ensures !Joins(LetterDigit, t[i], t[i + 1]) {
      assert !Joins(LetterDigit, s[i], s[i + 1]);
    }
  }

  /** A slug is its own slug. */
  lemma SlugifyIdempotent(name: string)
    ensures Slugify(Slugify(name)) == Slugify(name)
  {
    var b := Hyphenate(UpperUpper, Hyphenate(LowerUpper, name));
    var t := Slugify(name);
    HyphenateNoBoundary(LetterDigit, b);
    LowerNoBoundary(Hyphenate(LetterDigit, b));
    NoUpperNoBoundary(t);
    HyphenateIdentity(LowerUpper, t);
    HyphenateIdentity(UpperUpper, t);
    HyphenateIdentity(LetterDigit, t);
    LowerIdempotent(Hyphenate(LetterDigit, b));
  }

  /** A name that is already lower case with no letter directly before a
      digit is its own slug. */
  lemma SlugifyFixed(name: string)
    requires forall i :: 0 <= i < |name| ==> !IsUpper(name[i])
    requires NoBoundary(LetterDigit, name)
    ensures Slugify(name) == name
  {
    NoUpperNoBoundary(name);
    HyphenateIdentity(LowerUpper, name);
    HyphenateIdentity(UpperUpper, name);
    HyphenateIdentity(LetterDigit, name);
    assert Lower(name) == name;
  }

  /** `ABC` becomes `a-bc`. */
  lemma SlugifyUpperRun()
    ensures Slugify("ABC") == "a-bc"
  {
    UpperRunExample();
    assert Hyphenate(LowerUpper, "ABC") == "ABC" by {
      HyphenateIdentity(LowerUpper, "ABC");
    }
    assert Hyphenate(LetterDigit, "A-BC") == "A-BC" by {
      HyphenateIdentity(LetterDigit, "A-BC");
    }
  }

  /** A rewrite works piecewise when the seam between two pieces does not
      match: the scan reaches the second piece at its start either way. */
  lemma {:induction false} HyphenateAppend(rule: Rule, a: string, b: string)
    requires |a| > 0 && |b| > 0
    requires !Joins(rule, a[|a| - 1], b[0])
    ensures Hyphenate(rule, a + b) == Hyphenate(rule, a) + Hyphenate(rule, b)
    decreases |a|, 1
  {
    if |a| == 1 {
      HyphenateLastStep(rule, a, b);
    } else {
      HyphenateAppendLonger(rule, a, b);
    }
  }

  lemma {:induction false} HyphenateAppendLonger(rule: Rule, a: string, b: string)
    requires |a| >= 2 && |b| > 0
    requires !Joins(rule, a[|a| - 1], b[0])
    ensures Hyphenate(rule, a + b) == Hyphenate(rule, a) + Hyphenate(rule, b)
    decreases |a|, 0
  {
    var k, head := HyphenateFirstStep(rule, a, b);
    var rest := a[k..];
    assert Hyphenate(rule, rest + b) == Hyphenate(rule, rest) + Hyphenate(rule, b) by {
      if |rest| > 0 {
        assert rest[|rest| - 1] == a[|a| - 1];
        HyphenateAppend(rule, rest, b);
      } else {
        assert rest + b == b;
      }
    }
    Glue(Hyphenate(rule, a + b), Hyphenate(rule, a), head, Hyphenate(rule, rest), Hyphenate(rule, b));
  }

  /** Sequence glue: `x == h + (r + t)` and `y == h + r` give `x == y + t`.
      Kept apart so that `HyphenateAppendLonger` reasons about the
      concatenation without the recursive unfolding in scope. */
  lemma Glue(x: string, y: string, h: string, r: string, t: string)
    requires x == h + (r + t) && y == h + r
    ensures x == y + t
  {
  }

  /** The scan's first step on a one-character piece before a seam that does
      not match. */
  lemma HyphenateLastStep(rule: Rule, a: string, b: string)
    requires |a| == 1 && |b| > 0
    requires !Joins(rule, a[0], b[0])
    ensures Hyphenate(rule, a + b) == a + Hyphenate(rule, b)
  {
    var s := a + b;
    assert s[0] == a[0] && s[1] == b[0] && s[1..] == b;
  }

  /** The scan's first step inside the first piece consumes the same `k`
      characters whether or not the second piece follows. */
  lemma HyphenateFirstStep(rule: Rule, a: string, b: string) returns (k: nat, head: string)
    requires |a| >= 2
    ensures k == 1 || k == 2
    ensures k <= |a|
    ensures Hyphenate(rule, a + b) == head + Hyphenate(rule, a[k..] + b)
    ensures Hyphenate(rule, a) == head + Hyphenate(rule, a[k..])
  {
    var s := a + b;
    k := if Joins(rule, a[0], a[1]) then 2 else 1;
    head := if k == 2 then [a[0], '-', a[1]] else [a[0]];
    assert s[0] == a[0] && s[1] == a[1] && s[k..] == a[k..] + b;
    assert Hyphenate(rule, s) == head + Hyphenate(rule, a[k..] + b);
  }

  // ---------------------------------------------------------------------
  // `ArrowUpRight2`, one rewrite at a time. The solver evaluates string
  // literals eagerly, and one lemma that spells out a literal and also
  // reasons about it runs out of resource. So the name is cut into pieces
  // (`Arrow`, `Up`, `Right2`): the `Join...` and `...Pieces...` lemmas only
  // spell how the pieces concatenate, the `RightPiece...` lemmas apply one
  // rewrite to one piece, and the remaining lemmas glue the pieces with
  // `HyphenateAppend`. None of the spelling lemmas states anything about
  // the site; `SlugifyArrowUpRight2` is the example.
  // ---------------------------------------------------------------------

  lemma JoinArrowUpR()
    ensures "Arro" + "wUpR" == "ArrowUpR"
    ensures "Arro" + "w-Up-R" == "Arrow-Up-R"
    ensures "ArrowUpR" + "ight2" == "ArrowUpRight2"
    ensures "Arrow-Up-R" + "ight2" == "Arrow-Up-Right2"
  {
  }

  lemma JoinArrowUpRight()
    ensures "Arrow-" + "Up-" == "Arrow-Up-"
    ensures "Arrow-Up-" + "Right2" == "Arrow-Up-Right2"
    ensures "Arrow-Up-" + "Right-2" == "Arrow-Up-Right-2"
  {
  }

  lemma ArrowPiecesLowerUpper()
    ensures Hyphenate(LowerUpper, "Arro") == "Arro"
    ensures Hyphenate(LowerUpper, "wUpR") == "w-Up-R"
  {
  }

  lemma RightPieceLowerUpper()
    ensures Hyphenate(LowerUpper, "ight2") == "ight2"
  {
  }

  lemma ArrowUpRLowerUpper()
    ensures Hyphenate(LowerUpper, "ArrowUpR") == "Arrow-Up-R"
  {
    HyphenateAppend(LowerUpper, "Arro", "wUpR");
    ArrowPiecesLowerUpper();
    JoinArrowUpR();
  }

  lemma ArrowLowerUpper()
    ensures Hyphenate(LowerUpper, "ArrowUpRight2") == "Arrow-Up-Right2"
  {
    HyphenateAppend(LowerUpper, "ArrowUpR", "ight2");
    ArrowUpRLowerUpper();
    RightPieceLowerUpper();
    JoinArrowUpR();
  }

  lemma ArrowPiecesUpperUpper()
    ensures Hyphenate(UpperUpper, "Arrow-") == "Arrow-"
    ensures Hyphenate(UpperUpper, "Up-") == "Up-"
  {
  }

  lemma RightPieceUpperUpper()
    ensures Hyphenate(UpperUpper, "Right2") == "Right2"
  {
  }

  lemma ArrowUpUpperUpper()
    ensures Hyphenate(UpperUpper, "Arrow-Up-") == "Arrow-Up-"
  {
    HyphenateAppend(UpperUpper, "Arrow-", "Up-");
    ArrowPiecesUpperUpper();
    JoinArrowUpRight();
  }

  lemma ArrowUpperUpper()
    ensures Hyphenate(UpperUpper, "Arrow-Up-Right2") == "Arrow-Up-Right2"
  {
    HyphenateAppend(UpperUpper, "Arrow-Up-", "Right2");
    ArrowUpUpperUpper();
    RightPieceUpperUpper();
    JoinArrowUpRight();
  }

  lemma ArrowPiecesLetterDigit()
    ensures Hyphenate(LetterDigit, "Arrow-") == "Arrow-"
    ensures Hyphenate(LetterDigit, "Up-") == "Up-"
  {
  }

  lemma RightPieceLetterDigit()
    ensures Hyphenate(LetterDigit, "Right2") == "Right-2"
  {
  }

  lemma ArrowLetterDigit()
    ensures Hyphenate(LetterDigit, "Arrow-Up-Right2") == "Arrow-Up-Right-2"
  {
    HyphenateAppend(LetterDigit, "Arrow-", "Up-");
    ArrowPiecesLetterDigit();
    JoinArrowUpRight();
    HyphenateAppend(LetterDigit, "Arrow-Up-", "Right2");
    RightPieceLetterDigit();
  }

  lemma ArrowPiecesLower()
    ensures Lower("Arrow-Up-") == "arrow-up-"
    ensures Lower("Right-2") == "right-2"
    ensures "arrow-up-" + "right-2" == "arrow-up-right-2"
  {
  }

  lemma ArrowLower()
    ensures Lower("Arrow-Up-Right-2") == "arrow-up-right-2"
  {
    LowerAppend("Arrow-Up-", "Right-2");
    JoinArrowUpRight();
    ArrowPiecesLower();
  }

  /** `ArrowUpRight2` becomes `arrow-up-right-2`. */
  lemma SlugifyArrowUpRight2()
    ensures Slugify("ArrowUpRight2") == "arrow-up-right-2"
  {
    ArrowLowerUpper();
    ArrowUpperUpper();
    ArrowLetterDigit();
    ArrowLower();
  }
}
