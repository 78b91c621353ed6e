/**
 * The status line: `updateStatus` of extensions/collaboration.ts.
 *
 * With no active concept the status entry "concepts" is cleared; otherwise
 * it reads `concepts: ` followed by the active names, sorted the way
 * JavaScript's default `sort()` orders strings, joined by `", "`.
 */
module StatusLine {
  import opened OrderedSets

  /** Lexicographic order on strings, character by character (a prefix comes first). */
  predicate LexLeq(a: string, b: string) {
    |a| == 0 || (|b| > 0 && (a[0] < b[0] || (a[0] == b[0] && LexLeq(a[1..], b[1..]))))
  }

  lemma {:induction false} LexLeqTotal(a: string, b: string)
    ensures LexLeq(a, b) || LexLeq(b, a)
  {
    if |a| > 0 && |b| > 0 && a[0] == b[0] {
      LexLeqTotal(a[1..], b[1..]);
    }
  }

  lemma {:induction false} LexLeqTransitive(a: string, b: string, c: string)
    requires LexLeq(a, b) && LexLeq(b, c)
    ensures LexLeq(a, c)
  {
    if |a| > 0 && a[0] == b[0] && b[0] == c[0] {
      LexLeqTransitive(a[1..], b[1..], c[1..]);
    }
  }

  lemma {:induction false} LexLeqAntisymmetric(a: string, b: string)
    requires LexLeq(a, b) && LexLeq(b, a)
    ensures a == b
  {
    if |a| > 0 {
      LexLeqAntisymmetric(a[1..], b[1..]);
      assert a == [a[0]] + a[1..] && b == [b[0]] + b[1..];
    }
  }

  lemma {:induction false} LexLeqReflexive(a: string)
    ensures LexLeq(a, a)
  {
    if |a| > 0 {
      LexLeqReflexive(a[1..]);
    }
  }

  ghost predicate Sorted(s: seq<string>) {
    forall i, j :: 0 <= i < j < |s| ==> LexLeq(s[i], s[j])
  }

  lemma SortedCons(x: string, s: seq<string>)
    requires Sorted(s) && forall j :: 0 <= j < |s| ==> LexLeq(x, s[j])
    ensures Sorted([x] + s)
  {
    forall i, j | 0 <= i < j < |s| + 1 ensures LexLeq(([x] + s)[i], ([x] + s)[j]) {
      if i > 0 {
        assert ([x] + s)[i] == s[i - 1] && ([x] + s)[j] == s[j - 1];
      }
    }
  }

  /** Puts `x` into the sorted `s` before the first element it does not follow. */
  function InsertSorted(x: string, s: seq<string>): (r: seq<string>)
    requires Sorted(s)
    ensures Sorted(r)
    ensures multiset(r) == multiset(s) + multiset{x}
  {
    if s == [] then [x]
    else if LexLeq(x, s[0]) then
      assert Sorted([x] + s) by {
        forall j | 0 <= j < |s| ensures LexLeq(x, s[j]) {
          if j > 0 { LexLeqTransitive(x, s[0], s[j]); }
        }
        SortedCons(x, s);
      }
      [x] + s
    else
      var rest := InsertSorted(x, s[1..]);
      LexLeqTotal(x, s[0]);
      assert s == [s[0]] + s[1..];
      assert forall y :: y in multiset(rest) ==> y == x || y in multiset(s[1..]);
      assert Sorted([s[0]] + rest) by {
        forall j | 0 <= j < |rest| ensures LexLeq(s[0], rest[j]) {
          assert rest[j] in multiset(rest);
          if rest[j] != x {
            assert rest[j] in s[1..];
          }
        }
        SortedCons(s[0], rest);
      }
      [s[0]] + rest
  }

  /** `[...activeConcepts].sort()`: the names in ascending order, a permutation of the input. */
  function SortNames(s: seq<Name>): (r: seq<Name>)
    ensures Sorted(r)
    ensures multiset(r) == multiset(s)
  {
    if s == [] then []
    else
      assert s == s[..|s| - 1] + [s[|s| - 1]];
      InsertSorted(s[|s| - 1], SortNames(s[..|s| - 1]))
  }

  /** Two sorted sequences with the same elements start with the same element. */
  lemma SortedSameHead(a: seq<string>, b: seq<string>)
    requires Sorted(a) && Sorted(b) && multiset(a) == multiset(b) && a != []
    ensures b != [] && a[0] == b[0]
  {
    assert a[0] in multiset(b);
    assert b != [] && b[0] in multiset(a);
    var i :| 0 <= i < |b| && b[i] == a[0];
    var j :| 0 <= j < |a| && a[j] == b[0];
    LexLeqReflexive(a[0]);
    LexLeqReflexive(b[0]);
    assert LexLeq(b[0], a[0]) by { if i > 0 { assert LexLeq(b[0], b[i]); } }
    assert LexLeq(a[0], b[0]) by { if j > 0 { assert LexLeq(a[0], a[j]); } }
    LexLeqAntisymmetric(a[0], b[0]);
  }

  /** Two sorted sequences with the same elements are equal: sorting forgets the input order. */
  lemma {:induction false} SortedUnique(a: seq<string>, b: seq<string>)
    requires Sorted(a) && Sorted(b) && multiset(a) == multiset(b)
    ensures a == b
  {
    if a != [] {
      SortedSameHead(a, b);
      assert a == [a[0]] + a[1..] && b == [b[0]] + b[1..];
      assert multiset(a[1..]) == multiset(a) - multiset{a[0]};
      assert multiset(b[1..]) == multiset(b) - multiset{b[0]};
      SortedUnique(a[1..], b[1..]);
    }
  }

  /** `parts.join(sep)`. */
  function Join(parts: seq<string>, sep: string): string {
    if |parts| == 0 then ""
    else if |parts| == 1 then parts[0]
    else parts[0] + sep + Join(parts[1..], sep)
  }

  /** What `updateStatus` sends to the "concepts" status entry. */
  datatype StatusCall = Cleared | Shown(text: string)

  function StatusOf(active: seq<Name>): (r: StatusCall)
    ensures r.Cleared? <==> |active| == 0
  {
    if |active| == 0 then Cleared
    else Shown("concepts: " + Join(SortNames(active), ", "))
  }

  /**
   * The status line shows the set of active concepts and nothing about the
   * order in which they were toggled on: two activation histories that end
   * with the same names give the same status.
   */
  lemma StatusIgnoresToggleOrder(a: seq<Name>, b: seq<Name>)
    requires multiset(a) == multiset(b)
    ensures StatusOf(a) == StatusOf(b)
  {
    assert |a| == |multiset(a)| == |multiset(b)| == |b|;
    SortedUnique(SortNames(a), SortNames(b));
  }

  /** A shown status lists every active name exactly as often as it is active, in sorted order. */
  lemma StatusListsActiveSorted(active: seq<Name>)
    requires |active| > 0
    ensures exists sorted: seq<Name> ::
      && Sorted(sorted) && multiset(sorted) == multiset(active)
      && StatusOf(active) == Shown("concepts: " + Join(sorted, ", "))
  {
    var sorted := SortNames(active);
    assert Sorted(sorted) && multiset(sorted) == multiset(active);
  }
}
