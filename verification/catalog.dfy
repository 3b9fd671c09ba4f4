/** The icon catalogue page: its initial state, and the effect that
    recomputes the visible icon names whenever the search query changes. */
module Catalog {
  import opened Strings
  import opened Export

  /** One entry of the icon catalogue. */
  datatype Icon = Icon(name: string, keywords: seq<string>)

  /** The page state: chosen size and stroke, the query, and the names shown. */
  datatype App = App(size: Size, stroke: Stroke, query: string, icons: seq<string>)

  /** The catalogue's names in catalogue order. */
  function IconNames(catalog: seq<Icon>): (r: seq<string>)
    ensures |r| == |catalog|
    ensures forall i :: 0 <= i < |catalog| ==> r[i] == catalog[i].name
  {
    if |catalog| == 0 then [] else [catalog[0].name] + IconNames(catalog[1..])
  }

  /** Some keyword contains the needle. Keywords are compared as stored:
      they are not lower-cased. */
  predicate SomeKeyword(keywords: seq<string>, needle: string)
  {
    exists i :: 0 <= i < |keywords| && Contains(keywords[i], needle)
  }

  /** The filter's test for a non-empty query. */
  predicate Matches(icon: Icon, query: string)
  {
    Contains(Lower(icon.name), Lower(query)) || SomeKeyword(icon.keywords, Lower(query))
  }

  /** The matching entries' names, in catalogue order. */
  function Select(catalog: seq<Icon>, query: string): (r: seq<string>)
    ensures |r| <= |catalog|
  {
    if |catalog| == 0 then []
    else (if Matches(catalog[0], query) then [catalog[0].name] else []) + Select(catalog[1..], query)
  }

  /** The effect's result: every name for an empty query, otherwise the
      names of the matching entries. */
  function FilterIcons(catalog: seq<Icon>, query: string): (r: seq<string>)
    ensures |r| <= |catalog|
  {
    if query == "" then IconNames(catalog) else Select(catalog, query)
  }

  /** The state on first render. */
  function InitialApp(catalog: seq<Icon>): (r: App)
    ensures r.size == Size5 && r.stroke == Stroke2 && r.query == ""
    ensures r.icons == IconNames(catalog)
  {
    App(Size5, Stroke2, "", IconNames(catalog))
  }

  /** Typing a query: the query is stored and the effect recomputes the list
      from the whole catalogue, whatever was shown before. */
  function SetQuery(app: App, catalog: seq<Icon>, query: string): (r: App)
    ensures r.size == app.size && r.stroke == app.stroke && r.query == query
    ensures r.icons == FilterIcons(catalog, query)
    ensures |r.icons| <= |catalog|
  {
    app.(query := query, icons := FilterIcons(catalog, query))
  }

  /** `a` is `b` with some elements left out, order kept. */
  predicate Subsequence<T(==)>(a: seq<T>, b: seq<T>)
    decreases |b|
  {
    if |a| == 0 then true
    else if |b| == 0 then false
    else (a[0] == b[0] && Subsequence(a[1..], b[1..])) || Subsequence(a, b[1..])
  }

  // ---------------------------------------------------------------------
  // The filter.
  // ---------------------------------------------------------------------

  /** An empty query shows the whole catalogue in order. */
  lemma EmptyQueryShowsAll(catalog: seq<Icon>)
    ensures FilterIcons(catalog, "") == IconNames(catalog)
  {
  }

  lemma {:induction false} SelectMembers(catalog: seq<Icon>, query: string)
    ensures forall x :: x in Select(catalog, query)
                    <==> exists i :: 0 <= i < |catalog| && catalog[i].name == x && Matches(catalog[i], query)
  {
    if |catalog| > 0 {
      SelectMembers(catalog[1..], query);
      var r := Select(catalog, query);
      var head: seq<string> := if Matches(catalog[0], query) then [catalog[0].name] else [];
      assert r == head + Select(catalog[1..], query);
      forall x
        ensures x in r <==> exists i :: 0 <= i < |catalog| && catalog[i].name == x && Matches(catalog[i], query)
      {
        if x in r {
          if x in head {
            assert catalog[0].name == x && Matches(catalog[0], query);
          } else {
            assert x in Select(catalog[1..], query);
            var i :| 0 <= i < |catalog[1..]| && catalog[1..][i].name == x && Matches(catalog[1..][i], query);
            assert catalog[i + 1].name == x;
          }
        }
        if exists i :: 0 <= i < |catalog| && catalog[i].name == x && Matches(catalog[i], query) {
          var i :| 0 <= i < |catalog| && catalog[i].name == x && Matches(catalog[i], query);
          if i > 0 {
            assert catalog[1..][i - 1] == catalog[i];
            assert x in Select(catalog[1..], query);
          }
        }
      }
    }
  }

  /** With a query, a name is shown exactly when some entry with that name
      has the lower-cased query inside its lower-cased name, or inside one
      of its keywords as stored. */
  lemma FilterMembers(catalog: seq<Icon>, query: string, x: string)
    requires query != ""
    ensures x in FilterIcons(catalog, query)
        <==> exists i :: 0 <= i < |catalog| && catalog[i].name == x
                        && (Contains(Lower(catalog[i].name), Lower(query))
                            || SomeKeyword(catalog[i].keywords, Lower(query)))
  {
    SelectMembers(catalog, query);
  }

  lemma {:induction false} SelectSubsequence(catalog: seq<Icon>, query: string)
    ensures Subsequence(Select(catalog, query), IconNames(catalog))
  {
    if |catalog| > 0 {
      SelectSubsequence(catalog[1..], query);
      var names := IconNames(catalog);
      assert names[1..] == IconNames(catalog[1..]);
      var r := Select(catalog, query);
      if Matches(catalog[0], query) {
        assert r[0] == names[0] && r[1..] == Select(catalog[1..], query);
      } else {
        assert r == Select(catalog[1..], query);
        if |r| > 0 {
          assert Subsequence(r, names[1..]);
        }
      }
    }
  }

  /** The shown names keep catalogue order and leave entries out, never
      add or repeat them. */
  lemma FilterSubsequence(catalog: seq<Icon>, query: string)
    ensures Subsequence(FilterIcons(catalog, query), IconNames(catalog))
  {
    if query == "" {
      SubsequenceReflexive(IconNames(catalog));
    } else {
      SelectSubsequence(catalog, query);
    }
  }

  lemma {:induction false} SubsequenceReflexive<T>(a: seq<T>)
    ensures Subsequence(a, a)
  {
    if |a| > 0 {
      SubsequenceReflexive(a[1..]);
    }
  }

  /** The case of the query does not matter. */
  lemma FilterIgnoresQueryCase(catalog: seq<Icon>, query: string)
    ensures FilterIcons(catalog, Lower(query)) == FilterIcons(catalog, query)
  {
    LowerIdempotent(query);
    if query != "" {
      assert Lower(query) != "";
      SelectSameMatches(catalog, Lower(query), query);
    }
  }

  lemma {:induction false} SelectSameMatches(catalog: seq<Icon>, q1: string, q2: string)
    requires Lower(q1) == Lower(q2)
    ensures Select(catalog, q1) == Select(catalog, q2)
  {
    if |catalog| > 0 {
      SelectSameMatches(catalog[1..], q1, q2);
    }
  }

  /** Narrowing the query never brings an icon back: if the new query
      (lower-cased) contains the old one, the new result is a subsequence
      of the old. */
  lemma {:induction false} SelectNarrows(catalog: seq<Icon>, wide: string, narrow: string)
    requires Contains(Lower(narrow), Lower(wide))
    ensures Subsequence(Select(catalog, narrow), Select(catalog, wide))
  {
    if |catalog| > 0 {
      SelectNarrows(catalog[1..], wide, narrow);
      var icon := catalog[0];
      var a := Select(catalog, narrow);
      var b := Select(catalog, wide);
      if Matches(icon, narrow) {
        if Contains(Lower(icon.name), Lower(narrow)) {
          ContainsTransitive(Lower(icon.name), Lower(narrow), Lower(wide));
        } else {
          var i :| 0 <= i < |icon.keywords| && Contains(icon.keywords[i], Lower(narrow));
          ContainsTransitive(icon.keywords[i], Lower(narrow), Lower(wide));
        }
        assert Matches(icon, wide);
        assert a[0] == b[0] && a[1..] == Select(catalog[1..], narrow) && b[1..] == Select(catalog[1..], wide);
      } else {
        assert a == Select(catalog[1..], narrow);
        if Matches(icon, wide) {
          assert b[1..] == Select(catalog[1..], wide);
          if |a| > 0 {
            assert Subsequence(a, b[1..]);
          }
        } else {
          assert b == Select(catalog[1..], wide);
        }
      }
    }
  }

  lemma FilterNarrows(catalog: seq<Icon>, wide: string, narrow: string)
    requires Contains(Lower(narrow), Lower(wide))
    ensures Subsequence(FilterIcons(catalog, narrow), FilterIcons(catalog, wide))
  {
    if wide == "" {
      FilterSubsequence(catalog, narrow);
    } else {
      assert |Lower(wide)| > 0;
      assert narrow != "";
      SelectNarrows(catalog, wide, narrow);
    }
  }

  lemma ArrowMatches()
    ensures Matches(Icon("ArrowRight", ["direction"]), "arr")
  {
    assert Lower("arr") == "arr";
    assert Lower("ArrowRight")[0..3] == "arr";
    assert OccursAt(Lower("ArrowRight"), "arr", 0);
  }

  lemma SunMisses()
    ensures !Matches(Icon("Sun", ["weather"]), "arr")
  {
    assert Lower("arr") == "arr";
    assert Lower("Sun") == "sun";
    forall i: nat | i <= 3 ensures !OccursAt("sun", "arr", i) {
      if i == 0 { assert "sun"[0..3][0] == 's'; }
    }
    forall i: nat | i <= 7 ensures !OccursAt("weather", "arr", i) {
      if i + 3 <= 7 {
        assert "weather"[i..i + 3][0] == "weather"[i] && "weather"[i..i + 3][1] == "weather"[i + 1];
      }
    }
    assert !SomeKeyword(["weather"], "arr");
  }

  /** Searching `arr` over ArrowRight and Sun shows ArrowRight only. */
  lemma SearchExample()
    ensures FilterIcons([Icon("ArrowRight", ["direction"]), Icon("Sun", ["weather"])], "arr")
         == ["ArrowRight"]
  {
    var arrow := Icon("ArrowRight", ["direction"]);
    var sun := Icon("Sun", ["weather"]);
    ArrowMatches();
    SunMisses();
    assert [arrow, sun][1..] == [sun];
    assert [sun][1..] == [];
  }

  /** Keywords are not lower-cased: the query `weather` misses an icon
      whose only keyword is `Weather`. */
  lemma KeywordCaseExample()
    ensures FilterIcons([Icon("Sun", ["Weather"])], "weather") == []
  {
    var sun := Icon("Sun", ["Weather"]);
    assert Lower("weather") == "weather";
    assert Lower("Sun") == "sun";
    assert !Contains("sun", "weather");
    forall i: nat | i <= 7 ensures !OccursAt("Weather", "weather", i) {
      if i == 0 { assert "Weather"[0] != "weather"[0]; }
    }
    assert !Matches(sun, "weather");
  }

  // ---------------------------------------------------------------------
  // The page state.
  // ---------------------------------------------------------------------

  /** The effect on mount recomputes the initial list unchanged, and
      clearing the query brings back every icon. */
  lemma InitialAppStable(catalog: seq<Icon>, app: App)
    ensures SetQuery(InitialApp(catalog), catalog, "") == InitialApp(catalog)
    ensures SetQuery(app, catalog, "").icons == InitialApp(catalog).icons
  {
  }
}
