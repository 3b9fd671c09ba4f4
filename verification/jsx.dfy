/** `convertSvgToJsx` (src/components/handle-copy.tsx): attribute names are
    camel-cased on every element, then the tree is written back out as
    markup. The parse of the SVG string is done by the browser and is not
    modelled: the converter starts from the parsed tree. */
module Jsx {
  import opened Wrappers
  import opened Strings
  import opened Dom

  // ---------------------------------------------------------------------
  // Camel-casing of one attribute name: `name.replace(/-([a-z])/g, ...)`.
  // ---------------------------------------------------------------------

  /** The regex `-([a-z])` matches at index `i`. */
  predicate HyphenLowerAt(s: string, i: nat)
  {
    i + 1 < |s| && s[i] == '-' && IsLower(s[i + 1])
  }

  /** The regex matches somewhere in `s`. */
  ghost predicate HasHyphenLower(s: string)
  {
    exists i: nat :: HyphenLowerAt(s, i)
  }

  /** Scans left to right; a match `-x` becomes `X` and scanning resumes
      after it, every other character is copied. */
  function CamelCase(name: string): (r: string)
    ensures |r| <= |name|
    ensures |r| == 0 <==> |name| == 0
  {
    if |name| == 0 then ""
    else if HyphenLowerAt(name, 0) then [ToUpperChar(name[1])] + CamelCase(name[2..])
    else [name[0]] + CamelCase(name[1..])
  }

  /** The name `convertAttributes` leaves alone. */
  predicate IsCamel(name: string)
  {
    CamelCase(name) == name
  }

  /** The first character of the camel form. */
  lemma CamelCaseHead(s: string)
    requires |s| > 0
    ensures CamelCase(s)[0] == if HyphenLowerAt(s, 0) then ToUpperChar(s[1]) else s[0]
  {
  }

  /** No `-` followed by a lower-case letter survives camel-casing. */
  lemma {:induction false} CamelCaseNormal(s: string)
    ensures !HasHyphenLower(CamelCase(s))
  {
    if |s| > 0 {
      var r := CamelCase(s);
      if HyphenLowerAt(s, 0) {
        var rest := CamelCase(s[2..]);
        CamelCaseNormal(s[2..]);
        assert r == [ToUpperChar(s[1])] + rest;
        forall i: nat ensures !HyphenLowerAt(r, i) {
          if i > 0 { assert HyphenLowerAt(r, i) == HyphenLowerAt(rest, i - 1); }
        }
      } else {
        var rest := CamelCase(s[1..]);
        CamelCaseNormal(s[1..]);
        assert r == [s[0]] + rest;
        forall i: nat ensures !HyphenLowerAt(r, i) {
          if i > 0 {
            assert HyphenLowerAt(r, i) == HyphenLowerAt(rest, i - 1);
          } else if |r| > 1 {
            assert r[1] == rest[0];
            CamelCaseHead(s[1..]);
          }
        }
      }
    }
  }

  /** A name without a match is its own camel form. */
  lemma {:induction false} CamelCaseFixed(s: string)
    requires !HasHyphenLower(s)
    ensures CamelCase(s) == s
  {
    if |s| > 0 {
      assert !HyphenLowerAt(s, 0);
      assert !HasHyphenLower(s[1..]) by {
        forall i: nat | HyphenLowerAt(s[1..], i) ensures false {
          assert HyphenLowerAt(s, i + 1);
        }
      }
      CamelCaseFixed(s[1..]);
      assert [s[0]] + s[1..] == s;
    }
  }

  /** A name with a match gets shorter. */
  lemma {:induction false} CamelCaseShrinks(s: string)
    requires HasHyphenLower(s)
    ensures |CamelCase(s)| < |s|
  {
    var i: nat :| HyphenLowerAt(s, i);
    if !HyphenLowerAt(s, 0) {
      assert HyphenLowerAt(s[1..], i - 1);
      CamelCaseShrinks(s[1..]);
    }
  }

  /** A name is left alone exactly when the regex finds nothing in it. */
  lemma CamelIff(s: string)
    ensures IsCamel(s) <==> !HasHyphenLower(s)
  {
    if HasHyphenLower(s) {
      CamelCaseShrinks(s);
    } else {
      CamelCaseFixed(s);
    }
  }

  /** Camel-casing twice is camel-casing once. */
  lemma CamelCaseIdempotent(s: string)
    ensures IsCamel(CamelCase(s))
    ensures CamelCase(CamelCase(s)) == CamelCase(s)
  {
    CamelCaseNormal(s);
    CamelCaseFixed(CamelCase(s));
  }

  /** Camel-casing only drops hyphens and changes letter case: with hyphens
      deleted and letters lower-cased, name and result agree. */
  lemma {:induction false} CamelCaseOnlyDropsHyphens(s: string)
    ensures Delete(Lower(CamelCase(s)), '-') == Delete(Lower(s), '-')
  {
    if |s| > 0 {
      var r := CamelCase(s);
      if HyphenLowerAt(s, 0) {
        CamelCaseOnlyDropsHyphens(s[2..]);
        assert r == [ToUpperChar(s[1])] + CamelCase(s[2..]);
        assert s == [s[0]] + [s[1]] + s[2..];
        LowerAppend([ToUpperChar(s[1])], CamelCase(s[2..]));
        DeleteAppend(Lower([ToUpperChar(s[1])]), Lower(CamelCase(s[2..])), '-');
        LowerAppend([s[0]] + [s[1]], s[2..]);
        LowerAppend([s[0]], [s[1]]);
        DeleteAppend(Lower([s[0]]) + Lower([s[1]]), Lower(s[2..]), '-');
        DeleteAppend(Lower([s[0]]), Lower([s[1]]), '-');
        assert Lower([ToUpperChar(s[1])]) == Lower([s[1]]) == [s[1]];
      } else {
        CamelCaseOnlyDropsHyphens(s[1..]);
        assert r == [s[0]] + CamelCase(s[1..]);
        assert s == [s[0]] + s[1..];
        LowerAppend([s[0]], CamelCase(s[1..]));
        LowerAppend([s[0]], s[1..]);
        DeleteAppend(Lower([s[0]]), Lower(CamelCase(s[1..])), '-');
        DeleteAppend(Lower([s[0]]), Lower(s[1..]), '-');
      }
    }
  }

  /** What camel-casing makes of the character at index `i`, read off the
      name itself: a hyphen that starts a match disappears, the letter after
      it becomes its capital, and any other character stays as it is. */
  function CamelPiece(s: string, i: nat): (r: string)
    requires i < |s|
  {
    if HyphenLowerAt(s, i) then ""
    else if i > 0 && HyphenLowerAt(s, i - 1) then [ToUpperChar(s[i])]
    else [s[i]]
  }

  /** The pieces of the characters from index `i` on, in order. */
  function CamelPieces(s: string, i: nat): (r: string)
    requires i <= |s|
    decreases |s| - i
  {
    if i == |s| then "" else CamelPiece(s, i) + CamelPieces(s, i + 1)
  }

  /** Position-by-position reference for the rename: every character
      contributes its own piece. */
  function CamelRef(s: string): (r: string)
  {
    CamelPieces(s, 0)
  }

  /** From an index that does not follow a match, the scan and the
      positional reference agree on the rest of the name. */
  lemma {:induction false} CamelCaseFrom(s: string, k: nat)
    requires k <= |s|
    requires !(k > 0 && HyphenLowerAt(s, k - 1))
    ensures CamelCase(s[k..]) == CamelPieces(s, k)
    decreases |s| - k
  {
    if k < |s| {
      var t := s[k..];
      assert HyphenLowerAt(t, 0) == HyphenLowerAt(s, k);
      if HyphenLowerAt(s, k) {
        assert !HyphenLowerAt(s, k + 1);
        assert t[2..] == s[k + 2..];
        CamelCaseFrom(s, k + 2);
        assert CamelPieces(s, k + 1) == [ToUpperChar(s[k + 1])] + CamelPieces(s, k + 2);
      } else {
        assert t[1..] == s[k + 1..];
        CamelCaseFrom(s, k + 1);
      }
    }
  }

  /** The rename drops exactly the hyphens that precede a lower-case
      letter, capitalises exactly those letters, and keeps every other
      character, in order. Matches of `-[a-z]` cannot overlap, so reading
      each position on its own gives the same answer as the scan. */
  lemma CamelCaseIsRef(s: string)
    ensures CamelCase(s) == CamelRef(s)
  {
    assert s[0..] == s;
    CamelCaseFrom(s, 0);
  }

  /** A character that is not an upper-case letter is never introduced. */
  lemma {:induction false} CamelCaseAvoids(s: string, c: char)
    requires c !in s && !IsUpper(c)
    ensures c !in CamelCase(s)
  {
    if |s| > 0 {
      if HyphenLowerAt(s, 0) {
        CamelCaseAvoids(s[2..], c);
      } else {
        CamelCaseAvoids(s[1..], c);
      }
    }
  }

  lemma NoHyphenIsCamel(s: string)
    requires '-' !in s
    ensures IsCamel(s)
  {
    CamelIff(s);
  }

  /** Camel-casing works piecewise when the first piece does not end in `-`. */
  lemma {:induction false} CamelCaseAppend(a: string, b: string)
    requires |a| > 0 ==> a[|a| - 1] != '-'
    ensures CamelCase(a + b) == CamelCase(a) + CamelCase(b)
  {
    if |a| == 0 {
      assert a + b == b;
    } else if HyphenLowerAt(a, 0) {
      assert (a + b)[2..] == a[2..] + b;
      CamelCaseAppend(a[2..], b);
    } else {
      assert (a + b)[1..] == a[1..] + b;
      assert !HyphenLowerAt(a + b, 0);
      CamelCaseAppend(a[1..], b);
    }
  }

  /** One match in context: a match-free prefix not ending in `-` is kept,
      the match `-c` becomes the capital of `c`, and the rest is renamed on
      its own. */
  lemma CamelCaseSplice(a: string, c: char, b: string)
    requires !HasHyphenLower(a) && (|a| > 0 ==> a[|a| - 1] != '-')
    requires IsLower(c)
    ensures CamelCase(a + ['-', c] + b) == a + [ToUpperChar(c)] + CamelCase(b)
  {
    var m := ['-', c] + b;
    assert a + ['-', c] + b == a + m;
    CamelCaseAppend(a, m);
    CamelCaseFixed(a);
    assert HyphenLowerAt(m, 0) && m[2..] == b;
  }

  // ---------------------------------------------------------------------
  // Worked examples on literal names. The solver evaluates string literals
  // eagerly, and a lemma that both spells a literal out and reasons about
  // it runs out of resource. So each spelling fact ("stroke" + "-w" +
  // "idth" is "stroke-width", and the like) is a tiny lemma of its own,
  // named `...Spelled`, and the example lemmas only combine them with the
  // general lemmas above. The spelling lemmas state nothing about the site.
  // ---------------------------------------------------------------------

  lemma StrokeWidthSpelled()
    ensures "stroke" + ['-', 'w'] + "idth" == "stroke-width"
  {
  }

  lemma StrokeWidthCamelSpelled()
    ensures "stroke" + ['W'] + "idth" == "strokeWidth"
  {
  }

  lemma StrokeNoMatch()
    ensures !HasHyphenLower("stroke") && "stroke"[|"stroke"| - 1] != '-'
  {
    assert '-' !in "stroke";
  }

  /** `stroke-width` becomes `strokeWidth`. */
  lemma CamelCaseStrokeWidth()
    ensures CamelCase("stroke-width") == "strokeWidth"
  {
    StrokeNoMatch();
    CamelCaseSplice("stroke", 'w', "idth");
    NoHyphenIsCamel("idth");
    StrokeWidthSpelled();
    StrokeWidthCamelSpelled();
  }

  /** `class` stays `class`. */
  lemma CamelCaseClass()
    ensures CamelCase("class") == "class"
  {
    NoHyphenIsCamel("class");
  }

  // ---------------------------------------------------------------------
  // `convertAttributes`: iterate over a snapshot of the attribute list,
  // and for each attribute whose camel form differs, `setAttribute` the
  // camel name with the attribute's (live) value, then `removeAttribute`
  // the old name.
  // ---------------------------------------------------------------------

  /** `attr.value` read from the live list: an `Attr` object reflects
      earlier `setAttribute` calls on its name. */
  function LiveValue(live: seq<Attr>, a: Attr): string
  {
    match Get(live, a.name)
    case Some(v) => v
    case None => a.value
  }

  /** One iteration of the `forEach`. */
  function ConvertStep(live: seq<Attr>, a: Attr): seq<Attr>
  {
    var camel := CamelCase(a.name);
    if a.name == camel then live
    else RemoveAttribute(SetAttribute(live, camel, LiveValue(live, a)), a.name)
  }

  /** The `forEach` over the remaining snapshot entries `pending`. */
  function ConvertFrom(live: seq<Attr>, pending: seq<Attr>): seq<Attr>
    decreases |pending|
  {
    if |pending| == 0 then live
    else ConvertFrom(ConvertStep(live, pending[0]), pending[1..])
  }

  /** `convertAttributes(node)`: the snapshot is the list as it was on entry. */
  function ConvertAttributes(attrs: seq<Attr>): seq<Attr>
  {
    ConvertFrom(attrs, attrs)
  }

  /** The attributes `convertAttributes` leaves where they are. */
  function KeepCamel(attrs: seq<Attr>): (r: seq<Attr>)
    ensures forall a :: a in r ==> a in attrs && IsCamel(a.name)
  {
    if |attrs| == 0 then []
    else (if IsCamel(attrs[0].name) then [attrs[0]] else []) + KeepCamel(attrs[1..])
  }

  /** The `setAttribute` calls `convertAttributes` makes, in order. */
  function RenamedPairs(attrs: seq<Attr>): (r: seq<Attr>)
    ensures |r| <= |attrs|
  {
    if |attrs| == 0 then []
    else
      var a := attrs[0];
      (if IsCamel(a.name) then [] else [Attr(CamelCase(a.name), a.value)]) + RenamedPairs(attrs[1..])
  }

  lemma KeepCamelCons(attrs: seq<Attr>)
    requires |attrs| > 0
    ensures KeepCamel(attrs)
         == if IsCamel(attrs[0].name) then [attrs[0]] + KeepCamel(attrs[1..]) else KeepCamel(attrs[1..])
  {
    assert [] + KeepCamel(attrs[1..]) == KeepCamel(attrs[1..]);
  }

  lemma RenamedPairsCons(attrs: seq<Attr>)
    requires |attrs| > 0
    ensures RenamedPairs(attrs)
         == if IsCamel(attrs[0].name) then RenamedPairs(attrs[1..])
            else [Attr(CamelCase(attrs[0].name), attrs[0].value)] + RenamedPairs(attrs[1..])
  {
    assert [] + RenamedPairs(attrs[1..]) == RenamedPairs(attrs[1..]);
  }

  lemma {:induction false} KeepCamelHasName(attrs: seq<Attr>, n: string)
    ensures HasName(KeepCamel(attrs), n) <==> HasName(attrs, n) && IsCamel(n)
  {
    if |attrs| > 0 {
      KeepCamelHasName(attrs[1..], n);
      KeepCamelCons(attrs);
      if IsCamel(attrs[0].name) {
        Cons(attrs[0], KeepCamel(attrs[1..]));
      }
    }
  }

  lemma {:induction false} KeepCamelGet(attrs: seq<Attr>, n: string)
    requires IsCamel(n)
    ensures Get(KeepCamel(attrs), n) == Get(attrs, n)
  {
    if |attrs| > 0 {
      KeepCamelGet(attrs[1..], n);
      KeepCamelCons(attrs);
      if IsCamel(attrs[0].name) {
        Cons(attrs[0], KeepCamel(attrs[1..]));
      }
    }
  }

  lemma {:induction false} KeepCamelUnique(attrs: seq<Attr>)
    requires UniqueNames(attrs)
    ensures UniqueNames(KeepCamel(attrs))
  {
    if |attrs| > 0 {
      KeepCamelUnique(attrs[1..]);
      KeepCamelCons(attrs);
      if IsCamel(attrs[0].name) {
        Cons(attrs[0], KeepCamel(attrs[1..]));
        KeepCamelHasName(attrs[1..], attrs[0].name);
      }
    }
  }

  lemma {:induction false} RenamedPairsHasName(attrs: seq<Attr>, n: string)
    ensures HasName(RenamedPairs(attrs), n) ==> IsCamel(n)
  {
    if |attrs| > 0 {
      RenamedPairsHasName(attrs[1..], n);
      RenamedPairsCons(attrs);
      var a := attrs[0];
      if !IsCamel(a.name) {
        Cons(Attr(CamelCase(a.name), a.value), RenamedPairs(attrs[1..]));
        CamelCaseIdempotent(a.name);
      }
    }
  }

  lemma {:induction false} RenamedPairsCover(attrs: seq<Attr>, b: Attr)
    requires b in attrs && !IsCamel(b.name)
    ensures HasName(RenamedPairs(attrs), CamelCase(b.name))
  {
    RenamedPairsCons(attrs);
    var a := attrs[0];
    if !IsCamel(a.name) {
      Cons(Attr(CamelCase(a.name), a.value), RenamedPairs(attrs[1..]));
    }
    if b != a {
      assert b in attrs[1..];
      RenamedPairsCover(attrs[1..], b);
    }
  }

  /** Every `setAttribute` call comes from a renamed attribute of the list. */
  lemma {:induction false} RenamedPairsFrom(attrs: seq<Attr>, p: Attr)
    requires p in RenamedPairs(attrs)
    ensures exists a :: a in attrs && !IsCamel(a.name) && p == Attr(CamelCase(a.name), a.value)
  {
    RenamedPairsCons(attrs);
    var a := attrs[0];
    if !(!IsCamel(a.name) && p == Attr(CamelCase(a.name), a.value)) {
      assert p in RenamedPairs(attrs[1..]);
      RenamedPairsFrom(attrs[1..], p);
      var b :| b in attrs[1..] && !IsCamel(b.name) && p == Attr(CamelCase(b.name), b.value);
      assert b in attrs;
    }
  }

  /** Removing a non-camel name does not touch the kept attributes. */
  lemma {:induction false} KeepCamelRemove(attrs: seq<Attr>, n: string)
    requires !IsCamel(n)
    ensures KeepCamel(RemoveAttribute(attrs, n)) == KeepCamel(attrs)
  {
    if |attrs| > 0 {
      KeepCamelCons(attrs);
      if attrs[0].name != n {
        KeepCamelRemove(attrs[1..], n);
        var r := RemoveAttribute(attrs[1..], n);
        Cons(attrs[0], r);
        KeepCamelCons([attrs[0]] + r);
      }
    }
  }

  /** Setting a camel name commutes with keeping the camel attributes. */
  lemma {:induction false} KeepCamelSet(attrs: seq<Attr>, c: string, v: string)
    requires IsCamel(c)
    ensures KeepCamel(SetAttribute(attrs, c, v)) == SetAttribute(KeepCamel(attrs), c, v)
  {
    var x := Attr(c, v);
    if |attrs| == 0 {
      KeepCamelCons([x]);
      assert [x][1..] == [];
    } else {
      KeepCamelCons(attrs);
      if attrs[0].name == c {
        var r := [x] + attrs[1..];
        Cons(x, attrs[1..]);
        KeepCamelCons(r);
        Cons(attrs[0], KeepCamel(attrs[1..]));
      } else {
        KeepCamelSet(attrs[1..], c, v);
        var r := SetAttribute(attrs[1..], c, v);
        Cons(attrs[0], r);
        KeepCamelCons([attrs[0]] + r);
        if IsCamel(attrs[0].name) {
          Cons(attrs[0], KeepCamel(attrs[1..]));
        }
      }
    }
  }

  /** What stays true of the live list while the snapshot is processed. */
  ghost predicate ConvertInv(live: seq<Attr>, pending: seq<Attr>)
  {
    && UniqueNames(live)
    && UniqueNames(pending)
    && (forall a :: a in pending && !IsCamel(a.name) ==> Get(live, a.name) == Some(a.value))
    && (forall n :: HasName(live, n) && !IsCamel(n) ==> HasName(pending, n))
  }

  lemma {:induction false} KeepCamelAll(attrs: seq<Attr>)
    requires forall n :: HasName(attrs, n) ==> IsCamel(n)
    ensures KeepCamel(attrs) == attrs
  {
    if |attrs| > 0 {
      Cons(attrs[0], attrs[1..]);
      assert [attrs[0]] + attrs[1..] == attrs;
      KeepCamelAll(attrs[1..]);
    }
  }

  /** Processing the rest of the snapshot equals keeping the camel
      attributes of the live list and replaying the remaining renames. */
  lemma {:induction false} ConvertFromSpec(live: seq<Attr>, pending: seq<Attr>)
    requires ConvertInv(live, pending)
    ensures ConvertFrom(live, pending) == SetAll(KeepCamel(live), RenamedPairs(pending))
    decreases |pending|
  {
    if |pending| == 0 {
      KeepCamelAll(live);
    } else {
      var a := pending[0];
      var rest := pending[1..];
      Cons(a, rest);
      assert [a] + rest == pending;
      assert forall b :: b in rest ==> b in pending;
      RenamedPairsCons(pending);
      if IsCamel(a.name) {
        assert ConvertInv(live, rest);
        ConvertFromSpec(live, rest);
      } else {
        var c := CamelCase(a.name);
        CamelCaseIdempotent(a.name);
        assert LiveValue(live, a) == a.value;
        var withCamel := SetAttribute(live, c, a.value);
        var next := RemoveAttribute(withCamel, a.name);
        assert ConvertStep(live, a) == next;
        SetAttributePlace(live, c, a.value);
        RemoveAttributeNames(withCamel, a.name);
        forall b | b in rest && !IsCamel(b.name)
          ensures Get(next, b.name) == Some(b.value)
        {
          HasNameIn(rest, b);
        }
        assert ConvertInv(next, rest);
        ConvertFromSpec(next, rest);
        KeepCamelRemove(withCamel, a.name);
        KeepCamelSet(live, c, a.value);
        var p := Attr(c, a.value);
        assert RenamedPairs(pending) == [p] + RenamedPairs(rest);
        assert ([p] + RenamedPairs(rest))[0] == p;
        assert ([p] + RenamedPairs(rest))[1..] == RenamedPairs(rest);
      }
    }
  }

  /** `convertAttributes` keeps the attributes whose names are already camel
      case where they are, and then performs, in snapshot order, one
      `setAttribute(camel, value)` per renamed attribute. */
  lemma ConvertAttributesSpec(attrs: seq<Attr>)
    requires UniqueNames(attrs)
    ensures ConvertAttributes(attrs) == SetAll(KeepCamel(attrs), RenamedPairs(attrs))
  {
    forall n | HasName(attrs, n) && !IsCamel(n) ensures HasName(attrs, n) {}
    forall a | a in attrs && !IsCamel(a.name) ensures Get(attrs, a.name) == Some(a.value) {
      GetUnique(attrs, a);
    }
    ConvertFromSpec(attrs, attrs);
  }

  lemma {:induction false} ConvertFromAllCamel(live: seq<Attr>, pending: seq<Attr>)
    requires forall a :: a in pending ==> IsCamel(a.name)
    ensures ConvertFrom(live, pending) == live
    decreases |pending|
  {
    if |pending| > 0 {
      assert pending[0] in pending;
      assert forall a :: a in pending[1..] ==> a in pending;
      ConvertFromAllCamel(live, pending[1..]);
    }
  }

  /** The attribute names after conversion: unique, all in camel case, the
      untouched names first and in their old order, and exactly the camel
      forms of the old names; every renamed attribute's old name is gone. */
  lemma ConvertAttributesNames(attrs: seq<Attr>)
    requires UniqueNames(attrs)
    ensures UniqueNames(ConvertAttributes(attrs))
    ensures forall n :: HasName(ConvertAttributes(attrs), n) ==> IsCamel(n)
    ensures Names(KeepCamel(attrs)) <= Names(ConvertAttributes(attrs))
    ensures forall n :: HasName(ConvertAttributes(attrs), n)
                    <==> exists a :: a in attrs && CamelCase(a.name) == n
    ensures forall a :: a in attrs && !IsCamel(a.name) ==> !HasName(ConvertAttributes(attrs), a.name)
  {
    var r := ConvertAttributes(attrs);
    var keep := KeepCamel(attrs);
    var pairs := RenamedPairs(attrs);
    ConvertAttributesSpec(attrs);
    KeepCamelUnique(attrs);
    SetAllNames(keep, pairs);
    forall n ensures HasName(r, n) ==> IsCamel(n) {
      KeepCamelHasName(attrs, n);
      RenamedPairsHasName(attrs, n);
    }
    forall n ensures HasName(r, n) <==> exists a :: a in attrs && CamelCase(a.name) == n {
      KeepCamelHasName(attrs, n);
      if HasName(r, n) {
        if HasName(keep, n) {
          HasNameWitness(attrs, n);
        } else {
          HasNameWitness(pairs, n);
          var p :| p in pairs && p.name == n;
          RenamedPairsFrom(attrs, p);
        }
      }
      if exists a :: a in attrs && CamelCase(a.name) == n {
        var a :| a in attrs && CamelCase(a.name) == n;
        if IsCamel(a.name) {
          HasNameIn(attrs, a);
        } else {
          RenamedPairsCover(attrs, a);
        }
      }
    }
  }

  /** The attribute values after conversion: a renamed attribute keeps its
      value under its camel name unless another renamed attribute with the
      same camel name but a different value comes after it; an untouched
      attribute keeps its value unless a renamed one lands on its name. */
  lemma ConvertAttributesValues(attrs: seq<Attr>)
    requires UniqueNames(attrs)
    ensures forall n :: IsCamel(n) && !HasName(RenamedPairs(attrs), n)
                    ==> Get(ConvertAttributes(attrs), n) == Get(attrs, n)
    ensures forall a :: a in attrs && !IsCamel(a.name)
                    && (forall b :: b in attrs && !IsCamel(b.name) && CamelCase(b.name) == CamelCase(a.name)
                                   ==> b.value == a.value)
                    ==> Get(ConvertAttributes(attrs), CamelCase(a.name)) == Some(a.value)
  {
    var pairs := RenamedPairs(attrs);
    ConvertAttributesSpec(attrs);
    forall n | IsCamel(n) && !HasName(pairs, n)
      ensures Get(ConvertAttributes(attrs), n) == Get(attrs, n)
    {
      SetAllGet(KeepCamel(attrs), pairs, n);
      KeepCamelGet(attrs, n);
    }
    forall a | a in attrs && !IsCamel(a.name)
               && (forall b :: b in attrs && !IsCamel(b.name) && CamelCase(b.name) == CamelCase(a.name)
                               ==> b.value == a.value)
      ensures Get(ConvertAttributes(attrs), CamelCase(a.name)) == Some(a.value)
    {
      var c := CamelCase(a.name);
      RenamedPairsCover(attrs, a);
      SetAllGet(KeepCamel(attrs), pairs, c);
      var v := LastValue(pairs, c).value;
      RenamedPairsFrom(attrs, Attr(c, v));
    }
  }

  /** Converting an already converted attribute list changes nothing. */
  lemma ConvertAttributesIdempotent(attrs: seq<Attr>)
    requires UniqueNames(attrs)
    ensures ConvertAttributes(ConvertAttributes(attrs)) == ConvertAttributes(attrs)
  {
    var r := ConvertAttributes(attrs);
    ConvertAttributesNames(attrs);
    forall a | a in r ensures IsCamel(a.name) {
      HasNameIn(r, a);
    }
    ConvertFromAllCamel(r, r);
  }

  // ---------------------------------------------------------------------
  // The parsed tree and `transformNode`.
  // ---------------------------------------------------------------------

  /** A parsed DOM node: an element, a text node, or any other kind
      (comment, CDATA section, processing instruction). */
  datatype Node =
    | Element(tag: string, attrs: seq<Attr>, children: seq<Node>)
    | Text(content: string)
    | Other

  /** `${attr.name}="${attr.value}"`, with no escaping. */
  function RenderAttr(a: Attr): (r: string)
    ensures |r| >= 3
  {
    a.name + "=\"" + a.value + "\""
  }

  function RenderAttrs(attrs: seq<Attr>): (r: seq<string>)
    ensures |r| == |attrs|
    ensures forall i :: 0 <= i < |attrs| ==> r[i] == RenderAttr(attrs[i])
  {
    seq(|attrs|, i requires 0 <= i < |attrs| => RenderAttr(attrs[i]))
  }

  /** What follows the tag name in an opening tag: nothing when there are no
      attributes, otherwise a space and the attributes joined by spaces. */
  function AttrPart(attrs: seq<Attr>): (r: string)
    ensures r == "" <==> |attrs| == 0
  {
    var text := Join(RenderAttrs(attrs), " ");
    if text != "" then " " + text else ""
  }

  /** Attributes are written in list order, each after a single space. */
  lemma AttrPartCons(a: Attr, rest: seq<Attr>)
    ensures AttrPart([a] + rest) == " " + RenderAttr(a) + AttrPart(rest)
  {
    var xs := RenderAttrs([a] + rest);
    assert xs[0] == RenderAttr(a) && xs[1..] == RenderAttrs(rest);
    if |rest| > 0 {
      assert Join(xs, " ") == RenderAttr(a) + " " + Join(RenderAttrs(rest), " ");
      assert Join(RenderAttrs(rest), " ") != "";
    }
  }

  /** An element written with an explicit closing tag. */
  function ElementMarkup(name: string, part: string, inner: string): string
  {
    "<" + name + part + ">" + inner + "</" + name + ">"
  }

  /** `transformNode` as written: converts an element's attributes in place,
      then serialises the element with its children. */
  function TransformNode(n: Node): (r: string)
    decreases n
    ensures n.Text? ==> r == n.content
    ensures n.Other? ==> r == ""
  {
    match n
    case Element(tag, attrs, children) =>
      ElementMarkup(Lower(tag), AttrPart(ConvertAttributes(attrs)), TransformChildren(children))
    case Text(content) => content
    case Other => ""
  }

  /** `Array.from(element.childNodes).map(transformNode).join('')`. */
  function TransformChildren(children: seq<Node>): string
    decreases children
  {
    if |children| == 0 then "" else TransformNode(children[0]) + TransformChildren(children[1..])
  }

  /** `convertSvgToJsx`, from the parsed document element. */
  function ConvertSvgToJsx(root: Node): string
  {
    TransformNode(root)
  }

  /** The attribute normaliser alone: `convertAttributes` on every element. */
  function Normalize(n: Node): (r: Node)
    decreases n
    ensures n.Element? <==> r.Element?
    ensures n.Element? ==> r.tag == n.tag && |r.children| == |n.children|
    ensures !n.Element? ==> r == n
  {
    match n
    case Element(tag, attrs, children) => Element(tag, ConvertAttributes(attrs), NormalizeChildren(children))
    case _ => n
  }

  function NormalizeChildren(children: seq<Node>): (r: seq<Node>)
    decreases children
    ensures |r| == |children|
  {
    if |children| == 0 then [] else [Normalize(children[0])] + NormalizeChildren(children[1..])
  }

  /** The serialiser alone: no attribute is renamed. */
  function Serialize(n: Node): string
    decreases n
  {
    match n
    case Element(tag, attrs, children) =>
      ElementMarkup(Lower(tag), AttrPart(attrs), SerializeChildren(children))
    case Text(content) => content
    case Other => ""
  }

  function SerializeChildren(children: seq<Node>): string
    decreases children
  {
    if |children| == 0 then "" else Serialize(children[0]) + SerializeChildren(children[1..])
  }

  /** Every element has unique attribute names, as in any parsed tree. */
  predicate WellFormed(n: Node)
    decreases n
  {
    match n
    case Element(_, attrs, children) => UniqueNames(attrs) && WellFormedChildren(children)
    case _ => true
  }

  predicate WellFormedChildren(children: seq<Node>)
    decreases children
  {
    |children| == 0 || (WellFormed(children[0]) && WellFormedChildren(children[1..]))
  }

  /** `transformNode` is the normaliser followed by the serialiser: every
      element's attributes are converted before that element is written. */
  lemma {:induction false} TransformIsNormalizeThenSerialize(n: Node)
    ensures TransformNode(n) == Serialize(Normalize(n))
    decreases n
  {
    match n
    case Element(tag, attrs, children) =>
      TransformChildrenIsNormalizeThenSerialize(children);
    case Text(_) =>
    case Other =>
  }

  lemma {:induction false} TransformChildrenIsNormalizeThenSerialize(children: seq<Node>)
    ensures TransformChildren(children) == SerializeChildren(NormalizeChildren(children))
    decreases children
  {
    if |children| > 0 {
      TransformIsNormalizeThenSerialize(children[0]);
      TransformChildrenIsNormalizeThenSerialize(children[1..]);
      var r := NormalizeChildren(children);
      assert r[0] == Normalize(children[0]) && r[1..] == NormalizeChildren(children[1..]);
    }
  }

  /** Normalising twice is normalising once. */
  lemma {:induction false} NormalizeIdempotent(n: Node)
    requires WellFormed(n)
    ensures Normalize(Normalize(n)) == Normalize(n)
    decreases n
  {
    match n
    case Element(tag, attrs, children) =>
      ConvertAttributesIdempotent(attrs);
      NormalizeChildrenIdempotent(children);
    case Text(_) =>
    case Other =>
  }

  lemma {:induction false} NormalizeChildrenIdempotent(children: seq<Node>)
    requires WellFormedChildren(children)
    ensures NormalizeChildren(NormalizeChildren(children)) == NormalizeChildren(children)
    decreases children
  {
    if |children| > 0 {
      NormalizeIdempotent(children[0]);
      NormalizeChildrenIdempotent(children[1..]);
      var r := NormalizeChildren(children);
      assert r[0] == Normalize(children[0]) && r[1..] == NormalizeChildren(children[1..]);
    }
  }

  /** Converting an already converted tree gives the same markup. */
  lemma TransformNormalized(n: Node)
    requires WellFormed(n)
    ensures TransformNode(Normalize(n)) == TransformNode(n)
  {
    TransformIsNormalizeThenSerialize(n);
    TransformIsNormalizeThenSerialize(Normalize(n));
    NormalizeIdempotent(n);
  }

  lemma MarkupShape(name: string, part: string, inner: string)
    requires part == "" || part[0] == ' '
    ensures var r := ElementMarkup(name, part, inner);
            && r[..|name| + 1] == "<" + name
            && r[|name| + 1] == (if part == "" then '>' else ' ')
            && r[|r| - |name| - 3..] == "</" + name + ">"
  {
    var r := ElementMarkup(name, part, inner);
    assert r == ("<" + name) + (part + ">" + inner) + ("</" + name + ">");
  }

  /** An element always comes out as an opening tag with the lower-cased
      tag name, followed by a space only when it has attributes, and an
      explicit closing tag, even when it has no children. */
  lemma TransformElementShape(tag: string, attrs: seq<Attr>, children: seq<Node>)
    ensures var r := TransformNode(Element(tag, attrs, children));
            && r[..|tag| + 1] == "<" + Lower(tag)
            && r[|tag| + 1] == (if |ConvertAttributes(attrs)| == 0 then '>' else ' ')
            && r[|r| - |tag| - 3..] == "</" + Lower(tag) + ">"
            && (|children| == 0 && |ConvertAttributes(attrs)| == 0 ==> r == "<" + Lower(tag) + "></" + Lower(tag) + ">")
  {
    var part := AttrPart(ConvertAttributes(attrs));
    MarkupShape(Lower(tag), part, TransformChildren(children));
  }

  // ---------------------------------------------------------------------
  // Text is kept verbatim and in document order.
  // ---------------------------------------------------------------------

  /** The data of all text nodes in document order. */
  function Texts(n: Node): string
    decreases n
  {
    match n
    case Element(_, _, children) => TextsOf(children)
    case Text(content) => content
    case Other => ""
  }

  function TextsOf(children: seq<Node>): string
    decreases children
  {
    if |children| == 0 then "" else Texts(children[0]) + TextsOf(children[1..])
  }

  /** The rest of `s` after the first `>`. */
  function AfterClose(s: string): (r: string)
    ensures |r| <= |s|
  {
    if |s| == 0 then ""
    else if s[0] == '>' then s[1..]
    else AfterClose(s[1..])
  }

  /** Markup with every tag `<...>` removed. */
  function StripTags(s: string): string
    decreases |s|
  {
    if |s| == 0 then ""
    else if s[0] == '<' then StripTags(AfterClose(s[1..]))
    else [s[0]] + StripTags(s[1..])
  }

  lemma {:induction false} AfterCloseSkips(t: string, rest: string)
    requires '>' !in t
    ensures AfterClose(t + ">" + rest) == rest
  {
    if |t| == 0 {
      assert t + ">" + rest == ">" + rest;
      assert (">" + rest)[1..] == rest;
    } else {
      assert (t + ">" + rest)[1..] == t[1..] + ">" + rest;
      AfterCloseSkips(t[1..], rest);
    }
  }

  /** A tag without `>` inside it disappears. */
  lemma StripTag(t: string, rest: string)
    requires '>' !in t
    ensures StripTags("<" + t + ">" + rest) == StripTags(rest)
  {
    var s := "<" + t + ">" + rest;
    assert s[0] == '<';
    assert s[1..] == t + ">" + rest;
    AfterCloseSkips(t, rest);
  }

  /** Text without `<` is kept. */
  lemma {:induction false} StripText(t: string, rest: string)
    requires '<' !in t
    ensures StripTags(t + rest) == t + StripTags(rest)
  {
    if |t| == 0 {
      assert t + rest == rest;
    } else {
      assert (t + rest)[1..] == t[1..] + rest;
      StripText(t[1..], rest);
      assert [t[0]] + t[1..] == t;
    }
  }

  /** Text is printed without escaping, so a `<` in text (a parsed
      `&lt;`) reads back as the start of a tag: `a<b` strips to `a`. */
  lemma UnescapedTextLost()
    ensures ConvertSvgToJsx(Text("a<b")) == "a<b"
    ensures StripTags(ConvertSvgToJsx(Text("a<b"))) == "a"
  {
    assert "a<b"[1..] == "<b";
    assert StripTags("<b") == "";
  }

  /** No `>` in any tag name, attribute name or value, and no `<` in text:
      then the markup can be taken apart again. */
  predicate AngleFree(n: Node)
    decreases n
  {
    match n
    case Element(tag, attrs, children) =>
      && '>' !in tag
      && (forall a :: a in attrs ==> '>' !in a.name && '>' !in a.value)
      && AngleFreeChildren(children)
    case Text(content) => '<' !in content
    case Other => true
  }

  predicate AngleFreeChildren(children: seq<Node>)
    decreases children
  {
    |children| == 0 || (AngleFree(children[0]) && AngleFreeChildren(children[1..]))
  }

  lemma {:induction false} ConvertFromAngleFree(live: seq<Attr>, pending: seq<Attr>)
    requires forall a :: a in live ==> '>' !in a.name && '>' !in a.value
    requires forall a :: a in pending ==> '>' !in a.name && '>' !in a.value
    ensures forall a :: a in ConvertFrom(live, pending) ==> '>' !in a.name && '>' !in a.value
    decreases |pending|
  {
    if |pending| > 0 {
      var a := pending[0];
      assert a in pending;
      if a.name != CamelCase(a.name) {
        CamelCaseAvoids(a.name, '>');
        var v := LiveValue(live, a);
        SetAttributeMembers(live, CamelCase(a.name), v);
      }
      assert forall b :: b in pending[1..] ==> b in pending;
      ConvertFromAngleFree(ConvertStep(live, a), pending[1..]);
    }
  }

  lemma {:induction false} SetAttributeMembers(attrs: seq<Attr>, name: string, value: string)
    ensures forall x :: x in SetAttribute(attrs, name, value) ==> x in attrs || x == Attr(name, value)
  {
    if |attrs| > 0 && attrs[0].name != name {
      SetAttributeMembers(attrs[1..], name, value);
    }
  }

  lemma AttrPartAngleFree(attrs: seq<Attr>)
    requires forall a :: a in attrs ==> '>' !in a.name && '>' !in a.value
    ensures '>' !in AttrPart(attrs)
  {
    var rendered := RenderAttrs(attrs);
    forall i | 0 <= i < |rendered| ensures '>' !in rendered[i] {
      assert attrs[i] in attrs;
    }
    JoinAvoids(rendered, " ", '>');
  }

  lemma MarkupStrip(name: string, part: string, inner: string, rest: string)
    requires '>' !in name && '>' !in part
    ensures StripTags(ElementMarkup(name, part, inner) + rest)
         == StripTags(inner + ("</" + name + ">" + rest))
    ensures StripTags("</" + name + ">" + rest) == StripTags(rest)
  {
    var close := "</" + name + ">";
    assert ElementMarkup(name, part, inner) + rest == "<" + (name + part) + ">" + (inner + (close + rest));
    StripTag(name + part, inner + (close + rest));
    assert close + rest == "<" + ("/" + name) + ">" + rest;
    StripTag("/" + name, rest);
  }

  /** With the tags taken out, the converted markup is exactly the text of
      the tree in document order: text is copied verbatim and nothing of
      other node kinds is emitted. */
  lemma {:induction false} TransformKeepsText(n: Node, rest: string)
    requires AngleFree(n)
    ensures StripTags(TransformNode(n) + rest) == Texts(n) + StripTags(rest)
    decreases n
  {
    match n
    case Element(tag, attrs, children) =>
      ConvertFromAngleFree(attrs, attrs);
      AttrPartAngleFree(ConvertAttributes(attrs));
      assert '>' !in Lower(tag);
      var inner := TransformChildren(children);
      MarkupStrip(Lower(tag), AttrPart(ConvertAttributes(attrs)), inner, rest);
      TransformChildrenKeepText(children, "</" + Lower(tag) + ">" + rest);
    case Text(content) =>
      StripText(content, rest);
    case Other =>
      assert "" + rest == rest;
  }

  lemma {:induction false} TransformChildrenKeepText(children: seq<Node>, rest: string)
    requires AngleFreeChildren(children)
    ensures StripTags(TransformChildren(children) + rest) == TextsOf(children) + StripTags(rest)
    decreases children
  {
    if |children| == 0 {
      assert "" + rest == rest;
    } else {
      var head := TransformNode(children[0]);
      var tail := TransformChildren(children[1..]);
      assert head + tail + rest == head + (tail + rest);
      TransformKeepsText(children[0], tail + rest);
      TransformChildrenKeepText(children[1..], rest);
    }
  }

  /** `convertSvgToJsx` loses no text and invents none. */
  lemma ConvertSvgToJsxKeepsText(root: Node)
    requires AngleFree(root)
    ensures StripTags(ConvertSvgToJsx(root)) == Texts(root)
  {
    TransformKeepsText(root, "");
    assert ConvertSvgToJsx(root) + "" == ConvertSvgToJsx(root);
  }

  // ---------------------------------------------------------------------
  // What a copied JSX snippet shows.
  // ---------------------------------------------------------------------

  lemma AttrPartContains(attrs: seq<Attr>, a: Attr)
    requires a in attrs
    ensures Contains(AttrPart(attrs), RenderAttr(a))
  {
    var i :| 0 <= i < |attrs| && attrs[i] == a;
    var text := Join(RenderAttrs(attrs), " ");
    JoinContains(RenderAttrs(attrs), " ", i);
    assert |text| >= 3;
    Infix(" ", text, "");
    assert AttrPart(attrs) == " " + text + "";
    ContainsTransitive(AttrPart(attrs), text, RenderAttr(a));
  }

  lemma MarkupContainsPart(name: string, part: string, inner: string)
    ensures Contains(ElementMarkup(name, part, inner), part)
  {
    Infix("<" + name, part, ">" + inner + "</" + name + ">");
    assert ElementMarkup(name, part, inner) == ("<" + name) + part + (">" + inner + "</" + name + ">");
  }

  /** A hyphenated attribute shows up in the JSX under its camel-case name
      with its value, provided no other attribute camel-cases to the same
      name with a different value. */
  lemma RenamedAttributeShown(tag: string, attrs: seq<Attr>, children: seq<Node>, a: Attr)
    requires UniqueNames(attrs)
    requires a in attrs && !IsCamel(a.name)
    requires forall b :: b in attrs && !IsCamel(b.name) && CamelCase(b.name) == CamelCase(a.name)
                         ==> b.value == a.value
    ensures Contains(TransformNode(Element(tag, attrs, children)), CamelCase(a.name) + "=\"" + a.value + "\"")
  {
    var r := ConvertAttributes(attrs);
    ConvertAttributesValues(attrs);
    var shown := Attr(CamelCase(a.name), a.value);
    assert Get(r, shown.name) == Some(a.value);
    assert shown in r;
    AttrPartContains(r, shown);
    MarkupContainsPart(Lower(tag), AttrPart(r), TransformChildren(children));
    ContainsTransitive(TransformNode(Element(tag, attrs, children)), AttrPart(r), RenderAttr(shown));
  }

  /** An attribute whose name is already camel case keeps its value in the
      JSX, unless some hyphenated attribute camel-cases onto its name. */
  lemma CamelAttributeShown(tag: string, attrs: seq<Attr>, children: seq<Node>, a: Attr)
    requires UniqueNames(attrs)
    requires a in attrs && IsCamel(a.name)
    requires forall b :: b in attrs && !IsCamel(b.name) ==> CamelCase(b.name) != a.name
    ensures Contains(TransformNode(Element(tag, attrs, children)), a.name + "=\"" + a.value + "\"")
  {
    var r := ConvertAttributes(attrs);
    ConvertAttributesValues(attrs);
    if HasName(RenamedPairs(attrs), a.name) {
      HasNameWitness(RenamedPairs(attrs), a.name);
      var p :| p in RenamedPairs(attrs) && p.name == a.name;
      RenamedPairsFrom(attrs, p);
      assert false;
    }
    GetUnique(attrs, a);
    assert Get(r, a.name) == Some(a.value);
    assert a in r;
    AttrPartContains(r, a);
    MarkupContainsPart(Lower(tag), AttrPart(r), TransformChildren(children));
    ContainsTransitive(TransformNode(Element(tag, attrs, children)), AttrPart(r), RenderAttr(a));
  }

  lemma ConvertStrokeWidth(v: string)
    ensures ConvertAttributes([Attr("stroke-width", v)]) == [Attr("strokeWidth", v)]
  {
    var sw := Attr("stroke-width", v);
    CamelCaseStrokeWidth();
    assert |sw.name| == 12 && sw.name != "strokeWidth";
    assert [sw][1..] == [];
    var set1 := SetAttribute([sw], "strokeWidth", v);
    assert set1 == [sw] + SetAttribute([], "strokeWidth", v);
    assert set1 == [sw, Attr("strokeWidth", v)];
    assert RemoveAttribute(set1, sw.name) == [Attr("strokeWidth", v)];
    assert LiveValue([sw], sw) == v;
    assert ConvertStep([sw], sw) == [Attr("strokeWidth", v)];
    assert ConvertAttributes([sw]) == ConvertFrom(ConvertStep([sw], sw), []);
  }

  lemma KeepD()
    ensures ConvertAttributes([Attr("d", "M0 0")]) == [Attr("d", "M0 0")]
  {
    NoHyphenIsCamel("d");
    ConvertFromAllCamel([Attr("d", "M0 0")], [Attr("d", "M0 0")]);
  }

  lemma RenderD()
    ensures AttrPart([Attr("d", "M0 0")]) == " d=\"M0 0\""
  {
  }

  lemma PathMarkup()
    ensures ElementMarkup("path", " d=\"M0 0\"", "") == "<path d=\"M0 0\"></path>"
  {
  }

  lemma PathExample()
    ensures TransformNode(Element("path", [Attr("d", "M0 0")], [])) == "<path d=\"M0 0\"></path>"
  {
    var attrs := [Attr("d", "M0 0")];
    assert TransformNode(Element("path", attrs, []))
        == ElementMarkup(Lower("path"), AttrPart(ConvertAttributes(attrs)), TransformChildren([]));
    KeepD();
    RenderD();
    assert Lower("path") == "path";
    PathMarkup();
  }

  lemma StrokeWidthAttrSpelled()
    ensures " " + ("strokeWidth" + "=\"" + "2" + "\"") + "" == " strokeWidth=\"2\""
  {
  }

  lemma RenderStrokeWidth()
    ensures AttrPart([Attr("strokeWidth", "2")]) == " strokeWidth=\"2\""
  {
    var a := Attr("strokeWidth", "2");
    assert [a] + [] == [a];
    AttrPartCons(a, []);
    StrokeWidthAttrSpelled();
  }

  lemma SvgMarkup(inner: string)
    ensures ElementMarkup("svg", " strokeWidth=\"2\"", inner)
         == "<svg strokeWidth=\"2\">" + inner + "</svg>"
  {
    assert "<" + "svg" + " strokeWidth=\"2\"" + ">" == "<svg strokeWidth=\"2\">";
    assert "</" + "svg" + ">" == "</svg>";
  }

  /** The `svg` element's own part of the example: its attribute is
      renamed and its tag kept, whatever its children. */
  lemma SvgStrokeNode(children: seq<Node>)
    ensures TransformNode(Element("svg", [Attr("stroke-width", "2")], children))
         == ElementMarkup("svg", " strokeWidth=\"2\"", TransformChildren(children))
  {
    ConvertStrokeWidth("2");
    RenderStrokeWidth();
    assert Lower("svg") == "svg";
  }

  lemma PathChildren()
    ensures TransformChildren([Element("path", [Attr("d", "M0 0")], [])]) == "<path d=\"M0 0\"></path>"
  {
    var path := Element("path", [Attr("d", "M0 0")], []);
    assert TransformChildren([path]) == TransformNode(path) + TransformChildren([]);
    PathExample();
  }

  /** `<svg stroke-width="2"><path d="M0 0"/></svg>` becomes
      `<svg strokeWidth="2"><path d="M0 0"></path></svg>`. */
  lemma StrokeWidthExample()
    ensures TransformNode(Element("svg", [Attr("stroke-width", "2")],
                                  [Element("path", [Attr("d", "M0 0")], [])]))
         == "<svg strokeWidth=\"2\">" + "<path d=\"M0 0\"></path>" + "</svg>"
  {
    SvgStrokeNode([Element("path", [Attr("d", "M0 0")], [])]);
    PathChildren();
    SvgMarkup("<path d=\"M0 0\"></path>");
  }

  lemma ClipPathLower()
    ensures Lower("clipPath") == "clippath"
  {
  }

  /** Tag names are lower-cased even where SVG spells them in camel case. */
  lemma ClipPathLowered()
    ensures TransformNode(Element("clipPath", [], [])) == "<clippath></clippath>"
  {
    TransformElementShape("clipPath", [], []);
    ClipPathLower();
  }
}
