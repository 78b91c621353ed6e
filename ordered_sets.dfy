/**
 * Insertion-ordered sets of names.
 *
 * The engine keeps every collection of concept names in a JavaScript `Set`
 * (or in the keys of a `Map`), whose iteration order is the order in which
 * names were first added. Such a set is modelled here as a duplicate-free
 * sequence; `Add` is `Set.prototype.add` and `AddAll` adds a list of names
 * one by one, which is what every `for ... of` + `add` loop of the engine does.
 */
module OrderedSets {

  /** A concept name. */
  type Name = string

  /** No name occurs twice. */
  ghost predicate NoDups(s: seq<Name>) {
    forall i, j :: 0 <= i < j < |s| ==> s[i] != s[j]
  }

  /** Position of the first occurrence of `x` in `s`. */
  function IndexOf(s: seq<Name>, x: Name): (k: nat)
    requires x in s
    ensures k < |s| && s[k] == x && x !in s[..k]
  {
    if s[0] == x then 0 else 1 + IndexOf(s[1..], x)
  }

  /** `Set.add`: a name already present keeps its position; a new one goes last. */
  function Add(s: seq<Name>, x: Name): (r: seq<Name>)
    ensures NoDups(s) ==> NoDups(r)
    ensures x in r && forall y :: y in r <==> y in s || y == x
    ensures r == s || r == s + [x]
  {
    if x in s then s else s + [x]
  }

  /** Adds the names of `xs` to `s`, one after the other. */
  function AddAll(s: seq<Name>, xs: seq<Name>): (r: seq<Name>)
    ensures |s| <= |r| && r[..|s|] == s
  {
    if xs == [] then s else Add(AddAll(s, xs[..|xs| - 1]), xs[|xs| - 1])
  }

  /** The names of `xs` in the order of their first occurrence, each once. */
  function Dedup(xs: seq<Name>): seq<Name> {
    AddAll([], xs)
  }

  /**
   * What `AddAll` does, stated without reference to how it does it: the
   * result is duplicate-free, starts with `s` unchanged, holds exactly the
   * names of `s` and `xs`, and lists the names it appends in the order in
   * which they first occur in `xs`.
   */
  lemma {:induction false} AddAllSpec(s: seq<Name>, xs: seq<Name>)
    requires NoDups(s)
    ensures NoDups(AddAll(s, xs))
    ensures forall y :: y in AddAll(s, xs) <==> y in s || y in xs
    ensures forall i, j :: |s| <= i < j < |AddAll(s, xs)| ==>
              AddAll(s, xs)[i] in xs && AddAll(s, xs)[j] in xs &&
              IndexOf(xs, AddAll(s, xs)[i]) < IndexOf(xs, AddAll(s, xs)[j])
  {
    if xs != [] {
      var init, y := xs[..|xs| - 1], xs[|xs| - 1];
      assert xs == init + [y];
      AddAllSpec(s, init);
      var r := AddAll(s, init);
      forall z | z in init ensures IndexOf(xs, z) == IndexOf(init, z) {
        IndexOfPrefix(init, y, z);
      }
      if y !in r {
        assert y !in init;
        IndexOfLast(init, y);
        forall i | |s| <= i < |r| ensures r[i] in init {
          assert r[i] in r;
        }
      }
    }
  }

  lemma {:induction false} IndexOfPrefix(init: seq<Name>, y: Name, z: Name)
    requires z in init
    ensures IndexOf(init + [y], z) == IndexOf(init, z)
  {
    if init[0] != z {
      assert (init + [y])[1..] == init[1..] + [y];
      IndexOfPrefix(init[1..], y, z);
    }
  }

  lemma {:induction false} IndexOfLast(init: seq<Name>, y: Name)
    requires y !in init
    ensures IndexOf(init + [y], y) == |init|
  {
    if init != [] {
      assert (init + [y])[1..] == init[1..] + [y];
      IndexOfLast(init[1..], y);
    }
  }

  /** Adding a name that is already present changes nothing (Set.add is idempotent). */
  lemma {:induction false} AddAllIdempotent(s: seq<Name>, xs: seq<Name>)
    requires forall y :: y in xs ==> y in s
    ensures AddAll(s, xs) == s
  {
    if xs != [] {
      AddAllIdempotent(s, xs[..|xs| - 1]);
    }
  }

  /** Adding `xs` and then `ys` is adding `xs + ys`. */
  lemma {:induction false} AddAllAppend(s: seq<Name>, xs: seq<Name>, ys: seq<Name>)
    ensures AddAll(AddAll(s, xs), ys) == AddAll(s, xs + ys)
  {
    if ys == [] {
      assert xs + ys == xs;
    } else {
      var init, y := ys[..|ys| - 1], ys[|ys| - 1];
      assert (xs + ys)[..|xs + ys| - 1] == xs + init;
      AddAllAppend(s, xs, init);
    }
  }

  /** Merging into a duplicate-free `s` is deduplicating `s + xs`. */
  lemma AddAllIsDedup(s: seq<Name>, xs: seq<Name>)
    requires NoDups(s)
    ensures AddAll(s, xs) == Dedup(s + xs)
  {
    DedupOfNoDups(s);
    AddAllAppend([], s, xs);
  }

  lemma {:induction false} DedupOfNoDups(s: seq<Name>)
    requires NoDups(s)
    ensures Dedup(s) == s
  {
    if s != [] {
      var init := s[..|s| - 1];
      DedupOfNoDups(init);
      assert s == init + [s[|s| - 1]];
    }
  }

  /** The `for ... of` loop that adds each name of a list to a `Set`, skipping names already there. */
  method AddEach(s: seq<Name>, names: seq<Name>) returns (r: seq<Name>)
    ensures r == AddAll(s, names)
  {
    r := s;
    for k := 0 to |names|
      invariant r == AddAll(s, names[..k])
    {
      assert names[..k + 1][..k] == names[..k];
      if names[k] !in r {
        r := r + [names[k]];
      }
    }
    assert names[..|names|] == names;
  }
}
