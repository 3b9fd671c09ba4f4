/** An element's attribute list as the DOM Standard keeps it: an ordered
    list of name/value pairs. `setAttribute` changes the value of the first
    attribute with that name in place, or appends a new attribute at the end;
    `removeAttribute` deletes the first attribute with that name. Names are
    compared exactly: the attributes of an element parsed as `image/svg+xml`
    are not in an HTML document, so no lower-casing applies. */
module Dom {
  import opened Wrappers

  datatype Attr = Attr(name: string, value: string)

  /** Some attribute of the list is called `n`. */
  predicate HasName(attrs: seq<Attr>, n: string)
  {
    |attrs| > 0 && (attrs[0].name == n || HasName(attrs[1..], n))
  }

  /** No two attributes share a name, as in every element a parser builds. */
  predicate UniqueNames(attrs: seq<Attr>)
  {
    |attrs| == 0 || (!HasName(attrs[1..], attrs[0].name) && UniqueNames(attrs[1..]))
  }

  /** The attribute names in list order. */
  function Names(attrs: seq<Attr>): (r: seq<string>)
    ensures |r| == |attrs|
  {
    if |attrs| == 0 then [] else [attrs[0].name] + Names(attrs[1..])
  }

  /** How the definitions see an attribute put in front of a list. */
  lemma Cons(a: Attr, attrs: seq<Attr>)
    ensures ([a] + attrs)[0] == a && ([a] + attrs)[1..] == attrs
    ensures Names([a] + attrs) == [a.name] + Names(attrs)
    ensures forall n :: HasName([a] + attrs, n) <==> a.name == n || HasName(attrs, n)
    ensures UniqueNames([a] + attrs) <==> !HasName(attrs, a.name) && UniqueNames(attrs)
  {
    assert ([a] + attrs)[1..] == attrs;
  }

  /** `getAttribute`: the value of the first attribute called `name`. */
  function Get(attrs: seq<Attr>, name: string): (r: Option<string>)
    ensures r.None? <==> !HasName(attrs, name)
    ensures r.Some? ==> Attr(name, r.value) in attrs
  {
    if |attrs| == 0 then None
    else if attrs[0].name == name then Some(attrs[0].value)
    else Get(attrs[1..], name)
  }

  /** With unique names, the attribute found by name is the one in the list. */
  lemma {:induction false} GetUnique(attrs: seq<Attr>, a: Attr)
    requires UniqueNames(attrs)
    requires a in attrs
    ensures Get(attrs, a.name) == Some(a.value)
  {
    if attrs[0] != a {
      assert a in attrs[1..];
      GetUnique(attrs[1..], a);
      HasNameIn(attrs[1..], a);
    }
  }

  lemma {:induction false} HasNameIn(attrs: seq<Attr>, a: Attr)
    requires a in attrs
    ensures HasName(attrs, a.name)
  {
    if attrs[0] != a {
      assert a in attrs[1..];
      HasNameIn(attrs[1..], a);
    }
  }

  /** `setAttribute(name, value)`. */
  function SetAttribute(attrs: seq<Attr>, name: string, value: string): (r: seq<Attr>)
    ensures Get(r, name) == Some(value)
    ensures forall n :: n != name ==> Get(r, n) == Get(attrs, n)
  {
    if |attrs| == 0 then [Attr(name, value)]
    else if attrs[0].name == name then [Attr(name, value)] + attrs[1..]
    else [attrs[0]] + SetAttribute(attrs[1..], name, value)
  }

  /** An existing attribute is changed in place; a new one goes at the end;
      names stay unique. */
  lemma {:induction false} SetAttributePlace(attrs: seq<Attr>, name: string, value: string)
    ensures HasName(attrs, name) ==> Names(SetAttribute(attrs, name, value)) == Names(attrs)
    ensures !HasName(attrs, name) ==> SetAttribute(attrs, name, value) == attrs + [Attr(name, value)]
    ensures forall n :: HasName(SetAttribute(attrs, name, value), n) <==> HasName(attrs, n) || n == name
    ensures UniqueNames(attrs) ==> UniqueNames(SetAttribute(attrs, name, value))
  {
    var x := Attr(name, value);
    if |attrs| == 0 {
      Cons(x, attrs);
    } else {
      Cons(attrs[0], attrs[1..]);
      assert [attrs[0]] + attrs[1..] == attrs;
      if attrs[0].name == name {
        Cons(x, attrs[1..]);
      } else {
        SetAttributePlace(attrs[1..], name, value);
        var rest := SetAttribute(attrs[1..], name, value);
        Cons(attrs[0], rest);
        if !HasName(attrs, name) {
          assert [attrs[0]] + (attrs[1..] + [x]) == ([attrs[0]] + attrs[1..]) + [x];
        }
      }
    }
  }

  /** `removeAttribute(name)`. */
  function RemoveAttribute(attrs: seq<Attr>, name: string): (r: seq<Attr>)
    ensures forall n :: n != name ==> Get(r, n) == Get(attrs, n)
    ensures !HasName(attrs, name) ==> r == attrs
    ensures HasName(attrs, name) ==> |r| == |attrs| - 1
    ensures forall a :: a in r ==> a in attrs
  {
    if |attrs| == 0 then []
    else if attrs[0].name == name then attrs[1..]
    else [attrs[0]] + RemoveAttribute(attrs[1..], name)
  }

  /** The position `removeAttribute` acts at: the first attribute of that
      name. */
  lemma {:induction false} RemoveAttributeIndex(attrs: seq<Attr>, name: string) returns (i: nat)
    requires HasName(attrs, name)
    ensures i < |attrs| && attrs[i].name == name && !HasName(attrs[..i], name)
    ensures RemoveAttribute(attrs, name) == attrs[..i] + attrs[i + 1..]
  {
    if attrs[0].name == name {
      i := 0;
      assert attrs[..0] == [] && attrs[1..] == attrs[..0] + attrs[1..];
    } else {
      var tail := attrs[1..];
      var j := RemoveAttributeIndex(tail, name);
      i := j + 1;
      assert attrs[..i] == [attrs[0]] + tail[..j];
      Cons(attrs[0], tail[..j]);
      assert attrs[i + 1..] == tail[j + 1..];
      assert [attrs[0]] + (tail[..j] + tail[j + 1..]) == ([attrs[0]] + tail[..j]) + tail[j + 1..];
    }
  }

  /** `removeAttribute` works in place: it drops the first attribute of
      that name and keeps every other attribute, in order. */
  lemma RemoveAttributeFirst(attrs: seq<Attr>, name: string)
    ensures HasName(attrs, name) ==>
              exists i :: 0 <= i < |attrs| && attrs[i].name == name && !HasName(attrs[..i], name)
                          && RemoveAttribute(attrs, name) == attrs[..i] + attrs[i + 1..]
  {
    if HasName(attrs, name) {
      var i := RemoveAttributeIndex(attrs, name);
    }
  }

  lemma {:induction false} RemoveAttributeNames(attrs: seq<Attr>, name: string)
    requires UniqueNames(attrs)
    ensures UniqueNames(RemoveAttribute(attrs, name))
    ensures forall n :: HasName(RemoveAttribute(attrs, name), n) <==> HasName(attrs, n) && n != name
  {
    if |attrs| > 0 {
      Cons(attrs[0], attrs[1..]);
      assert [attrs[0]] + attrs[1..] == attrs;
      if attrs[0].name != name {
        RemoveAttributeNames(attrs[1..], name);
        Cons(attrs[0], RemoveAttribute(attrs[1..], name));
      }
    }
  }

  /** Applies `setAttribute` for each pair in order. */
  function SetAll(attrs: seq<Attr>, pairs: seq<Attr>): seq<Attr>
    decreases |pairs|
  {
    if |pairs| == 0 then attrs
    else SetAll(SetAttribute(attrs, pairs[0].name, pairs[0].value), pairs[1..])
  }

  /** The value of the last pair called `name`, which is the one that wins. */
  function LastValue(pairs: seq<Attr>, name: string): (r: Option<string>)
    ensures r.None? <==> !HasName(pairs, name)
    ensures r.Some? ==> Attr(name, r.value) in pairs
  {
    if |pairs| == 0 then None
    else match LastValue(pairs[1..], name)
      case Some(v) => Some(v)
      case None => if pairs[0].name == name then Some(pairs[0].value) else None
  }

  /** Some attribute of the list carries the name. */
  lemma {:induction false} HasNameWitness(attrs: seq<Attr>, n: string)
    requires HasName(attrs, n)
    ensures exists a :: a in attrs && a.name == n
  {
    if attrs[0].name != n {
      HasNameWitness(attrs[1..], n);
      var a :| a in attrs[1..] && a.name == n;
      assert a in attrs;
    }
  }

  /** A sequence of `setAttribute` calls leaves each name with the value of
      the last call for it, and every other attribute as it was. */
  lemma {:induction false} SetAllGet(attrs: seq<Attr>, pairs: seq<Attr>, name: string)
    ensures Get(SetAll(attrs, pairs), name)
         == if HasName(pairs, name) then LastValue(pairs, name) else Get(attrs, name)
    decreases |pairs|
  {
    if |pairs| > 0 {
      SetAllGet(SetAttribute(attrs, pairs[0].name, pairs[0].value), pairs[1..], name);
    }
  }

  /** `setAttribute` calls never reorder or drop attributes: the original
      names stay a prefix, new names come after, and names stay unique. */
  lemma {:induction false} SetAllNames(attrs: seq<Attr>, pairs: seq<Attr>)
    requires UniqueNames(attrs)
    ensures UniqueNames(SetAll(attrs, pairs))
    ensures Names(attrs) <= Names(SetAll(attrs, pairs))
    ensures forall n :: HasName(SetAll(attrs, pairs), n) <==> HasName(attrs, n) || HasName(pairs, n)
    decreases |pairs|
  {
    if |pairs| > 0 {
      var next := SetAttribute(attrs, pairs[0].name, pairs[0].value);
      SetAttributePlace(attrs, pairs[0].name, pairs[0].value);
      SetAllNames(next, pairs[1..]);
      if !HasName(attrs, pairs[0].name) {
        NamesAppend(attrs, [Attr(pairs[0].name, pairs[0].value)]);
      }
    }
  }

  lemma {:induction false} NamesAppend(a: seq<Attr>, b: seq<Attr>)
    ensures Names(a + b) == Names(a) + Names(b)
  {
    if |a| > 0 {
      NamesAppend(a[1..], b);
      assert (a + b)[1..] == a[1..] + b;
    } else {
      assert a + b == b;
    }
  }
}
