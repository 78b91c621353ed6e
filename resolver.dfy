/**
 * The concept store and the recursive resolver: `loadConceptFile` and
 * `loadConceptsRecursively` of extensions/collaboration.ts.
 *
 * The concepts directory is a finite map from a concept name to the content
 * of `concepts/<name>.md`. A resolution pass threads one `loaded` Map and one
 * `missing` Set through a depth-first walk: every marker name of a text that
 * has not been seen yet is looked up; an absent one goes into `missing`, a
 * present one goes into `loaded` first and its content is walked next.
 */
module Resolver {
  import opened Wrappers
  import opened OrderedSets
  import opened Scanner

  /** The concepts directory: concept name to file content. */
  type Store = map<Name, string>

  /**
   * `loadConceptFile`: null (None) exactly when there is no file for the
   * name; otherwise the file's whole content, which may be empty.
   */
  function LoadConceptFile(store: Store, name: Name): (r: Option<string>)
    ensures r.None? <==> name !in store
    ensures r.Some? ==> r.value == store[name]
  {
    if name in store then Some(store[name]) else None
  }

  /**
   * The accumulators of one pass: the `loaded` Map, as its keys in insertion
   * order and its entries, and the `missing` Set in insertion order.
   */
  datatype Pass = Pass(order: seq<Name>, loaded: map<Name, string>, missing: seq<Name>)

  const EmptyPass := Pass([], map[], [])

  /** What a JavaScript Map and Set are by construction: keys listed once, each key with one entry. */
  ghost predicate WellFormed(p: Pass) {
    && NoDups(p.order)
    && NoDups(p.missing)
    && (forall n :: n in p.order <==> n in p.loaded)
  }

  /** The name has already been handled in this pass (the seen-guard). */
  predicate Seen(p: Pass, n: Name) {
    n in p.loaded || n in p.missing
  }

  /**
   * The pass agrees with the store: a loaded name has a file and its entry is
   * that file's content; a missing name has no file. In particular no name is
   * both loaded and missing.
   */
  ghost predicate AgreesWith(p: Pass, store: Store) {
    && (forall n :: n in p.loaded ==> n in store && p.loaded[n] == store[n])
    && (forall n :: n in p.missing ==> n !in store)
  }

  /** `r` only adds to `p`: both insertion orders are extended, and no entry is removed or overwritten. */
  ghost predicate Extends(p: Pass, r: Pass) {
    && |p.order| <= |r.order| && r.order[..|p.order|] == p.order
    && |p.missing| <= |r.missing| && r.missing[..|p.missing|] == p.missing
    && (forall n :: n in p.loaded ==> n in r.loaded && r.loaded[n] == p.loaded[n])
  }

  /** Every one of `names` has been handled. */
  ghost predicate Covers(p: Pass, names: seq<Name>) {
    forall n :: n in names ==> Seen(p, n)
  }

  /** Store entries that are not loaded yet: the quantity every recursive step reduces. */
  function Unloaded(store: Store, p: Pass): set<Name> {
    store.Keys - p.loaded.Keys
  }

  lemma UnloadedShrinks(store: Store, p: Pass, r: Pass, n: Name)
    requires p.loaded.Keys <= r.loaded.Keys
    ensures |Unloaded(store, r)| <= |Unloaded(store, p)|
    ensures n in store && n !in p.loaded && n in r.loaded ==> |Unloaded(store, r)| < |Unloaded(store, p)|
  {
    var before, after := Unloaded(store, p), Unloaded(store, r);
    var gone := before - after;
    assert before == after + gone && after !! gone;
    assert |before| == |after| + |gone|;
    if n in store && n !in p.loaded && n in r.loaded {
      assert n in gone;
    }
  }

  /** `missing.add(name)` on a name not seen yet. */
  function MarkMissing(p: Pass, n: Name): (p1: Pass)
    requires WellFormed(p) && !Seen(p, n)
    ensures WellFormed(p1) && Extends(p, p1)
    ensures forall x :: Seen(p1, x) <==> Seen(p, x) || x == n
    ensures p1.loaded == p.loaded && p1.order == p.order && p1.missing == p.missing + [n]
  {
    p.(missing := p.missing + [n])
  }

  /** `loaded.set(name, content)` on a name not seen yet. */
  function MarkLoaded(p: Pass, n: Name, content: string): (p1: Pass)
    requires WellFormed(p) && !Seen(p, n)
    ensures WellFormed(p1) && Extends(p, p1)
    ensures forall x :: Seen(p1, x) <==> Seen(p, x) || x == n
    ensures p1.loaded == p.loaded[n := content] && p1.order == p.order + [n] && p1.missing == p.missing
  {
    p.(order := p.order + [n], loaded := p.loaded[n := content])
  }

  lemma ExtendsTransitive(a: Pass, b: Pass, c: Pass)
    requires Extends(a, b) && Extends(b, c)
    ensures Extends(a, c)
  {
    assert c.order[..|a.order|] == c.order[..|b.order|][..|a.order|];
    assert c.missing[..|a.missing|] == c.missing[..|b.missing|][..|a.missing|];
  }

  /**
   * The pass that `loadConceptsRecursively` performs over the marker names
   * `names` of one text, starting from the accumulators `p`.
   */
  function ResolveNames(store: Store, names: seq<Name>, p: Pass): (r: Pass)
    requires WellFormed(p)
    ensures WellFormed(r)
    ensures Extends(p, r)
    ensures Covers(r, names)
    decreases |Unloaded(store, p)|, |names|
  {
    if names == [] then p
    else
      var n := names[0];
      if Seen(p, n) then
        ResolveNames(store, names[1..], p)
      else
        match LoadConceptFile(store, n)
        case None =>
          var p1 := MarkMissing(p, n);
          var r := ResolveNames(store, names[1..], p1);
          ExtendsTransitive(p, p1, r);
          r
        case Some(content) =>
          var p1 := MarkLoaded(p, n, content);
          UnloadedShrinks(store, p, p1, n);
          var p2 := ResolveNames(store, ConceptMarkers(content), p1);
          UnloadedShrinks(store, p1, p2, n);
          var r := ResolveNames(store, names[1..], p2);
          ExtendsTransitive(p, p1, p2);
          ExtendsTransitive(p, p2, r);
          r
  }

  /**
   * A pass never records anything the store contradicts: every `loaded`
   * entry is the file's content, every `missing` name has no file, and so the
   * two never share a name.
   */
  lemma {:induction false} ResolveAgreesWithStore(store: Store, names: seq<Name>, p: Pass)
    requires WellFormed(p) && AgreesWith(p, store)
    ensures AgreesWith(ResolveNames(store, names, p), store)
    decreases |Unloaded(store, p)|, |names|, 1
  {
    if names != [] {
      var n := names[0];
      if Seen(p, n) {
        ResolveAgreesWithStore(store, names[1..], p);
      } else if n !in store {
        ResolveAgreesWithStore(store, names[1..], MarkMissing(p, n));
      } else {
        LoadedCaseAgrees(store, names, p);
      }
    }
  }

  lemma LoadingAgrees(store: Store, p: Pass, n: Name)
    requires WellFormed(p) && !Seen(p, n) && n in store && AgreesWith(p, store)
    ensures AgreesWith(MarkLoaded(p, n, store[n]), store)
  {
  }

  lemma {:induction false} LoadedCaseAgrees(store: Store, names: seq<Name>, p: Pass)
    requires WellFormed(p) && AgreesWith(p, store)
    requires names != [] && !Seen(p, names[0]) && names[0] in store
    ensures AgreesWith(ResolveNames(store, names, p), store)
    decreases |Unloaded(store, p)|, |names|, 0
  {
    var n, content := names[0], store[names[0]];
    var refs := ConceptMarkers(content);
    var p1 := MarkLoaded(p, n, content);
    UnloadedShrinks(store, p, p1, n);
    var p2 := ResolveNames(store, refs, p1);
    UnloadedShrinks(store, p1, p2, n);
    assert ResolveNames(store, names, p) == ResolveNames(store, names[1..], p2);
    LoadingAgrees(store, p, n);
    ResolveAgreesWithStore(store, refs, p1);
    ResolveAgreesWithStore(store, names[1..], p2);
  }

  /** One fresh pass, as the turn-start handler runs it: default (empty) accumulators. */
  function FreshPass(store: Store, text: string): Pass {
    ResolveNames(store, ConceptMarkers(text), EmptyPass)
  }

  /** A handled name stays handled as the pass goes on. */
  lemma SeenPersists(a: Pass, b: Pass)
    requires Extends(a, b)
    ensures forall x :: Seen(a, x) ==> Seen(b, x)
  {
    forall x | x in a.missing ensures x in b.missing {
      var k :| 0 <= k < |a.missing| && a.missing[k] == x;
      assert b.missing[k] == b.missing[..|a.missing|][k];
    }
  }

  /** Every concept loaded since `p0` has had the markers of its own content handled. */
  ghost predicate NewContentsCovered(p0: Pass, r: Pass) {
    forall m :: m in r.loaded && m !in p0.loaded ==> Covers(r, ConceptMarkers(r.loaded[m]))
  }

  lemma CoveredPersists(p0: Pass, a: Pass, b: Pass)
    requires NewContentsCovered(p0, a) && Extends(a, b)
    ensures forall m :: m in a.loaded && m !in p0.loaded ==> Covers(b, ConceptMarkers(b.loaded[m]))
  {
    SeenPersists(a, b);
  }

  /**
   * Closure: the recursion reaches into the content of every concept it
   * loads, so the markers of every newly loaded concept end up handled.
   */
  lemma {:induction false} ResolveCoversContents(store: Store, names: seq<Name>, p: Pass)
    requires WellFormed(p)
    ensures NewContentsCovered(p, ResolveNames(store, names, p))
    decreases |Unloaded(store, p)|, |names|, 1
  {
    if names != [] {
      var n := names[0];
      if Seen(p, n) {
        ResolveCoversContents(store, names[1..], p);
      } else if n !in store {
        ResolveCoversContents(store, names[1..], MarkMissing(p, n));
      } else {
        LoadedCaseCovers(store, names, p);
      }
    }
  }

  lemma {:induction false} LoadedCaseCovers(store: Store, names: seq<Name>, p: Pass)
    requires WellFormed(p)
    requires names != [] && !Seen(p, names[0]) && names[0] in store
    ensures NewContentsCovered(p, ResolveNames(store, names, p))
    decreases |Unloaded(store, p)|, |names|, 0
  {
    var n, content := names[0], store[names[0]];
    var refs := ConceptMarkers(content);
    var p1 := MarkLoaded(p, n, content);
    UnloadedShrinks(store, p, p1, n);
    var p2 := ResolveNames(store, refs, p1);
    UnloadedShrinks(store, p1, p2, n);
    var r := ResolveNames(store, names[1..], p2);
    assert ResolveNames(store, names, p) == r;
    ResolveCoversContents(store, refs, p1);
    ResolveCoversContents(store, names[1..], p2);
    CoveredPersists(p1, p2, r);
    SeenPersists(p2, r);
  }

  /** `x` is one of `names`, or a marker of a concept loaded since `p0`. */
  ghost predicate Referenced(p0: Pass, r: Pass, names: seq<Name>, x: Name) {
    x in names || exists m :: m in r.loaded && m !in p0.loaded && x in ConceptMarkers(r.loaded[m])
  }

  /** Every name that `r` handles and `p` did not is referenced. */
  ghost predicate OnlyReferenced(p: Pass, r: Pass, names: seq<Name>) {
    forall x :: Seen(r, x) && !Seen(p, x) ==> Referenced(p, r, names, x)
  }

  lemma ReferencedFromRest(p: Pass, p1: Pass, r: Pass, names: seq<Name>)
    requires names != [] && p1.loaded == p.loaded
    requires forall x :: Seen(p1, x) ==> Seen(p, x) || x == names[0]
    requires OnlyReferenced(p1, r, names[1..])
    ensures OnlyReferenced(p, r, names)
  {
    forall x | Seen(r, x) && !Seen(p, x) ensures Referenced(p, r, names, x) {
      if x != names[0] {
        assert Referenced(p1, r, names[1..], x);
        if x !in names[1..] {
          var m :| m in r.loaded && m !in p1.loaded && x in ConceptMarkers(r.loaded[m]);
        }
      }
    }
  }

  /**
   * A name the pass newly handles is one of the marker names it was given or
   * a marker of a concept it loaded. That alone admits a cycle of concepts
   * naming each other that nothing else names; `FreshPassIsClosure` rules
   * that out.
   */
  lemma {:induction false} ResolveOnlyReferenced(store: Store, names: seq<Name>, p: Pass)
    requires WellFormed(p)
    ensures OnlyReferenced(p, ResolveNames(store, names, p), names)
    decreases |Unloaded(store, p)|, |names|, 1
  {
    if names != [] {
      var n := names[0];
      if Seen(p, n) {
        ResolveOnlyReferenced(store, names[1..], p);
        ReferencedFromRest(p, p, ResolveNames(store, names, p), names);
      } else if n !in store {
        MissingCaseReferenced(store, names, p);
      } else {
        LoadedCaseReferenced(store, names, p);
      }
    }
  }

  lemma {:induction false} MissingCaseReferenced(store: Store, names: seq<Name>, p: Pass)
    requires WellFormed(p)
    requires names != [] && !Seen(p, names[0]) && names[0] !in store
    ensures OnlyReferenced(p, ResolveNames(store, names, p), names)
    decreases |Unloaded(store, p)|, |names|, 0
  {
    var p1 := MarkMissing(p, names[0]);
    assert ResolveNames(store, names, p) == ResolveNames(store, names[1..], p1);
    ResolveOnlyReferenced(store, names[1..], p1);
    ReferencedFromRest(p, p1, ResolveNames(store, names[1..], p1), names);
  }

  lemma {:induction false} LoadedCaseReferenced(store: Store, names: seq<Name>, p: Pass)
    requires WellFormed(p)
    requires names != [] && !Seen(p, names[0]) && names[0] in store
    ensures OnlyReferenced(p, ResolveNames(store, names, p), names)
    decreases |Unloaded(store, p)|, |names|, 0
  {
    var n, content := names[0], store[names[0]];
    var refs := ConceptMarkers(content);
    var p1 := MarkLoaded(p, n, content);
    UnloadedShrinks(store, p, p1, n);
    var p2 := ResolveNames(store, refs, p1);
    UnloadedShrinks(store, p1, p2, n);
    var r := ResolveNames(store, names[1..], p2);
    assert ResolveNames(store, names, p) == r;
    ResolveOnlyReferenced(store, refs, p1);
    ResolveOnlyReferenced(store, names[1..], p2);
    ReferencedThroughLoad(p, p1, p2, r, names, content);
  }

  /** The loaded case, without the pass itself: what the recursion and the rest of the loop discover is referenced. */
  lemma ReferencedThroughLoad(p: Pass, p1: Pass, p2: Pass, r: Pass, names: seq<Name>, content: string)
    requires names != [] && names[0] !in p.loaded
    requires p1.loaded == p.loaded[names[0] := content]
    requires forall x :: Seen(p1, x) ==> Seen(p, x) || x == names[0]
    requires Extends(p1, p2) && Extends(p2, r)
    requires OnlyReferenced(p1, p2, ConceptMarkers(content))
    requires OnlyReferenced(p2, r, names[1..])
    ensures OnlyReferenced(p, r, names)
  {
    var n := names[0];
    SeenPersists(p2, r);
    forall x | Seen(r, x) && !Seen(p, x) ensures Referenced(p, r, names, x) {
      if x == n {
      } else if Seen(p2, x) {
        assert !Seen(p1, x);
        if x in ConceptMarkers(content) {
          assert n in r.loaded && r.loaded[n] == content;
        } else {
          var m :| m in p2.loaded && m !in p1.loaded && x in ConceptMarkers(p2.loaded[m]);
          assert m in r.loaded && r.loaded[m] == p2.loaded[m];
        }
      } else if x !in names[1..] {
        var m :| m in r.loaded && m !in p2.loaded && x in ConceptMarkers(r.loaded[m]);
        assert m !in p.loaded;
      }
    }
  }

  /**
   * One fresh pass over `text` (the default, empty accumulators) resolves the
   * whole reference closure: loaded and missing are disjoint and agree with
   * the store, the markers of the text and of every loaded concept are all
   * handled, and every handled name is a marker of the text or of a loaded
   * concept. Each loaded concept is listed once.
   */
  lemma FreshPassResolvesClosure(store: Store, text: string)
    ensures var r := FreshPass(store, text);
      && WellFormed(r)
      && AgreesWith(r, store)
      && (forall x :: !(x in r.loaded && x in r.missing))
      && Covers(r, ConceptMarkers(text))
      && (forall m :: m in r.loaded ==> Covers(r, ConceptMarkers(r.loaded[m])))
      && (forall x :: Seen(r, x) ==> x in ConceptMarkers(text) ||
                                     exists m :: m in r.loaded && x in ConceptMarkers(r.loaded[m]))
  {
    var names := ConceptMarkers(text);
    ResolveAgreesWithStore(store, names, EmptyPass);
    ResolveCoversContents(store, names, EmptyPass);
    ResolveOnlyReferenced(store, names, EmptyPass);
  }

  /**
   * `x` is reachable from `text` in at most `steps` steps: it is a marker of
   * the text, or a marker of the stored file of a name reachable in fewer.
   */
  ghost predicate ReachableIn(store: Store, text: string, steps: nat, x: Name)
    decreases steps
  {
    if steps == 0 then x in ConceptMarkers(text)
    else
      || ReachableIn(store, text, steps - 1, x)
      || exists m :: m in store && ReachableIn(store, text, steps - 1, m) && x in ConceptMarkers(store[m])
  }

  /** `x` lies in the reference closure of `text`. */
  ghost predicate Reachable(store: Store, text: string, x: Name) {
    exists steps: nat :: ReachableIn(store, text, steps, x)
  }

  lemma ReachableStep(store: Store, text: string, m: Name, x: Name)
    requires Reachable(store, text, m) && m in store && x in ConceptMarkers(store[m])
    ensures Reachable(store, text, x)
  {
    var steps: nat :| ReachableIn(store, text, steps, m);
    assert ReachableIn(store, text, steps + 1, x);
  }

  /** Every name the pass has handled lies in the closure of `text`. */
  ghost predicate SeenReachable(store: Store, text: string, p: Pass) {
    forall x :: Seen(p, x) ==> Reachable(store, text, x)
  }

  ghost predicate AllReachable(store: Store, text: string, names: seq<Name>) {
    forall x :: x in names ==> Reachable(store, text, x)
  }

  /**
   * A pass started from names in the closure of `text`, with accumulators
   * inside that closure, handles only names of the closure: cycles that the
   * text never reaches are never entered.
   */
  lemma {:induction false} ResolveStaysReachable(store: Store, text: string, names: seq<Name>, p: Pass)
    requires WellFormed(p) && SeenReachable(store, text, p) && AllReachable(store, text, names)
    ensures SeenReachable(store, text, ResolveNames(store, names, p))
    decreases |Unloaded(store, p)|, |names|, 1
  {
    if names != [] {
      var n := names[0];
      assert AllReachable(store, text, names[1..]) by {
        forall x | x in names[1..] ensures Reachable(store, text, x) { assert x in names; }
      }
      if Seen(p, n) {
        ResolveStaysReachable(store, text, names[1..], p);
      } else if n !in store {
        var p1 := MarkMissing(p, n);
        assert ResolveNames(store, names, p) == ResolveNames(store, names[1..], p1);
        assert n in names;
        ResolveStaysReachable(store, text, names[1..], p1);
      } else {
        LoadedCaseStaysReachable(store, text, names, p);
      }
    }
  }

  lemma {:induction false} LoadedCaseStaysReachable(store: Store, text: string, names: seq<Name>, p: Pass)
    requires WellFormed(p) && SeenReachable(store, text, p) && AllReachable(store, text, names)
    requires names != [] && !Seen(p, names[0]) && names[0] in store
    requires AllReachable(store, text, names[1..])
    ensures SeenReachable(store, text, ResolveNames(store, names, p))
    decreases |Unloaded(store, p)|, |names|, 0
  {
    var n, content := names[0], store[names[0]];
    var refs := ConceptMarkers(content);
    var p1 := MarkLoaded(p, n, content);
    UnloadedShrinks(store, p, p1, n);
    var p2 := ResolveNames(store, refs, p1);
    UnloadedShrinks(store, p1, p2, n);
    assert ResolveNames(store, names, p) == ResolveNames(store, names[1..], p2);
    assert Reachable(store, text, n) by { assert n in names; }
    assert AllReachable(store, text, refs) by {
      forall x | x in refs ensures Reachable(store, text, x) { ReachableStep(store, text, n, x); }
    }
    ResolveStaysReachable(store, text, refs, p1);
    ResolveStaysReachable(store, text, names[1..], p2);
  }

  /**
   * The pass is closed under the references of `text`: the text's markers
   * are handled, and so are the markers of the file of every handled name
   * that has one.
   */
  ghost predicate ClosedUnder(store: Store, text: string, r: Pass) {
    && Covers(r, ConceptMarkers(text))
    && forall m :: m in store && Seen(r, m) ==> Covers(r, ConceptMarkers(store[m]))
  }

  /** A pass closed under the references of `text` handles every name of the closure. */
  lemma {:induction false} ReachableIsSeen(store: Store, text: string, r: Pass, steps: nat, x: Name)
    requires ClosedUnder(store, text, r) && ReachableIn(store, text, steps, x)
    ensures Seen(r, x)
    decreases steps
  {
    if steps > 0 {
      var m, direct := LastStep(store, text, steps, x);
      if direct {
        ReachableIsSeen(store, text, r, steps - 1, x);
      } else {
        ReachableIsSeen(store, text, r, steps - 1, m);
        ClosedStep(store, text, r, m, x);
      }
    }
  }

  /** A name reached in `steps > 0` steps was reached one step earlier, or is a marker of the file of a name that was. */
  lemma LastStep(store: Store, text: string, steps: nat, x: Name) returns (m: Name, direct: bool)
    requires steps > 0 && ReachableIn(store, text, steps, x)
    ensures direct ==> ReachableIn(store, text, steps - 1, x)
    ensures !direct ==> m in store && ReachableIn(store, text, steps - 1, m) && x in ConceptMarkers(store[m])
  {
    direct := ReachableIn(store, text, steps - 1, x);
    m := x;
    if !direct {
      m :| m in store && ReachableIn(store, text, steps - 1, m) && x in ConceptMarkers(store[m]);
    }
  }

  /** In a closed pass, a marker of a handled name's file is handled too. */
  lemma ClosedStep(store: Store, text: string, r: Pass, m: Name, x: Name)
    requires ClosedUnder(store, text, r) && m in store && Seen(r, m) && x in ConceptMarkers(store[m])
    ensures Seen(r, x)
  {
    assert Covers(r, ConceptMarkers(store[m]));
  }

  /** A fresh pass is closed under the references of its text. */
  lemma FreshPassClosed(store: Store, text: string)
    ensures ClosedUnder(store, text, FreshPass(store, text))
  {
    FreshPassResolvesClosure(store, text);
    var r := FreshPass(store, text);
    forall m | m in store && Seen(r, m) ensures Covers(r, ConceptMarkers(store[m])) {
      assert m !in r.missing;
      assert m in r.loaded && r.loaded[m] == store[m];
    }
  }

  /**
   * A fresh pass handles exactly the reference closure of `text`: a name
   * ends up in `loaded` or in `missing` if and only if it is reachable from
   * the text's markers through the markers of stored files.
   */
  lemma FreshPassIsClosure(store: Store, text: string)
    ensures forall x :: Seen(FreshPass(store, text), x) <==> Reachable(store, text, x)
  {
    assert AllReachable(store, text, ConceptMarkers(text)) by {
      forall x | x in ConceptMarkers(text) ensures Reachable(store, text, x) {
        assert ReachableIn(store, text, 0, x);
      }
    }
    ResolveStaysReachable(store, text, ConceptMarkers(text), EmptyPass);
    FreshPassClosed(store, text);
    forall x | Reachable(store, text, x) ensures Seen(FreshPass(store, text), x) {
      var steps: nat :| ReachableIn(store, text, steps, x);
      ReachableIsSeen(store, text, FreshPass(store, text), steps, x);
    }
  }

  /**
   * Cycle safety: two concepts that reference each other are both loaded
   * by a pass that reaches one of them, and the pass still ends with each
   * listed once.
   */
  lemma MutualReferencesLoadedOnce(store: Store, text: string, a: Name, b: Name)
    requires a in ConceptMarkers(text) && a in store && b in store
    requires b in ConceptMarkers(store[a]) && a in ConceptMarkers(store[b])
    ensures var r := FreshPass(store, text);
      && a in r.loaded && b in r.loaded && r.loaded[a] == store[a] && r.loaded[b] == store[b]
      && NoDups(r.order) && a in r.order && b in r.order
  {
    FreshPassResolvesClosure(store, text);
    var r := FreshPass(store, text);
    assert Seen(r, a);
    assert a in r.loaded;
    assert Covers(r, ConceptMarkers(r.loaded[a]));
    assert Seen(r, b);
  }

  /** A referenced name with no file ends up in the missing set of a fresh pass. */
  lemma AbsentMarkerIsMissing(store: Store, text: string, name: Name)
    requires name in ConceptMarkers(text) && name !in store
    ensures name in FreshPass(store, text).missing
  {
    FreshPassResolvesClosure(store, text);
  }

  /**
   * `loadConceptsRecursively(text, loaded, missing)`: the Map and the Set
   * the caller passes are the accumulators `p`; the ones returned are `r`.
   */
  method LoadConceptsRecursively(store: Store, text: string, p: Pass) returns (r: Pass)
    requires WellFormed(p)
    ensures r == ResolveNames(store, ConceptMarkers(text), p)
    ensures Extends(p, r)
    decreases |Unloaded(store, p)|
  {
    var markers := ParseConceptMarkers(text);
    r := p;
    for i := 0 to |markers|
      invariant WellFormed(r)
      invariant p.loaded.Keys <= r.loaded.Keys
      invariant ResolveNames(store, markers[i..], r) == ResolveNames(store, markers, p)
    {
      var name := markers[i];
      assert markers[i..][1..] == markers[i + 1..];
      if !Seen(r, name) {
        var content := LoadConceptFile(store, name);
        if content.None? {
          r := MarkMissing(r, name);
        } else {
          var r1 := MarkLoaded(r, name, content.value);
          UnloadedShrinks(store, p, r1, name);
          r := LoadConceptsRecursively(store, content.value, r1);
        }
      }
    }
  }
}
