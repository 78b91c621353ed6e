/**
 * The reference scanner: `parseConceptMarkers` of extensions/collaboration.ts.
 *
 * The source runs the global regular expression `\[\[cf:([a-zA-Z0-9_-]+)\]\]`
 * over the text with `matchAll` and adds every captured name to a `Set`.
 * `Matches` below is that search, position by position: an attempt at
 * position `i` succeeds when `[[cf:` starts there, a non-empty run of name
 * characters follows and `]]` closes it; the next attempt starts after the
 * match, and a failed attempt moves on by one character. Taking the longest
 * run of name characters is the regex's own choice here, since `]` is not a
 * name character and no shorter run can be followed by `]]`.
 */
module Scanner {
  import opened Wrappers
  import opened OrderedSets

  /** The character class `[a-zA-Z0-9_-]`. */
  predicate IsNameChar(c: char) {
    ('a' <= c <= 'z') || ('A' <= c <= 'Z') || ('0' <= c <= '9') || c == '_' || c == '-'
  }

  /** A well-formed concept name: a non-empty run of name characters. */
  ghost predicate IsConceptName(name: string) {
    |name| > 0 && forall k :: 0 <= k < |name| ==> IsNameChar(name[k])
  }

  /** `text` holds the marker `[[cf:name]]` at position `p`. */
  ghost predicate MarkerAt(text: string, p: nat, name: string) {
    && IsConceptName(name)
    && p + |name| + 7 <= |text|
    && text[p..p + 5] == "[[cf:"
    && text[p + 5..p + 5 + |name|] == name
    && text[p + 5 + |name|..p + 7 + |name|] == "]]"
  }

  /** End of the longest run of name characters that starts at `j`. */
  function NameEnd(text: string, j: nat): (e: nat)
    requires j <= |text|
    ensures j <= e <= |text|
    ensures forall k :: j <= k < e ==> IsNameChar(text[k])
    ensures e == |text| || !IsNameChar(text[e])
    decreases |text| - j
  {
    if j == |text| || !IsNameChar(text[j]) then j else NameEnd(text, j + 1)
  }

  /** One attempt of the regex at position `i`: the end of the captured name when it matches. */
  function MatchAt(text: string, i: nat): (r: Option<nat>)
    requires i <= |text|
    ensures r.Some? ==> i + 5 < r.value && r.value + 2 <= |text| && MarkerAt(text, i, text[i + 5..r.value])
  {
    if i + 5 <= |text| && text[i..i + 5] == "[[cf:" then
      var e := NameEnd(text, i + 5);
      if e > i + 5 && e + 2 <= |text| && text[e] == ']' && text[e + 1] == ']' then
        assert text[e..e + 2] == "]]";
        Some(e)
      else None
    else None
  }

  /** The names captured by `matchAll`, in order and with repetitions, from position `i` on. */
  function MatchesFrom(text: string, i: nat): seq<Name>
    requires i <= |text|
    decreases |text| - i
  {
    if i == |text| then []
    else match MatchAt(text, i)
      case Some(e) => [text[i + 5..e]] + MatchesFrom(text, e + 2)
      case None => MatchesFrom(text, i + 1)
  }

  function Matches(text: string): seq<Name> {
    MatchesFrom(text, 0)
  }

  /** What `parseConceptMarkers` returns: the captured names, each once, in first-occurrence order. */
  function ConceptMarkers(text: string): seq<Name> {
    Dedup(Matches(text))
  }

  /** Every captured name is the name of a marker of the text. */
  lemma {:induction false} MatchesSound(text: string, i: nat)
    requires i <= |text|
    ensures forall x :: x in MatchesFrom(text, i) ==> exists p :: i <= p && MarkerAt(text, p, x)
    decreases |text| - i
  {
    if i < |text| {
      match MatchAt(text, i)
      case Some(e) =>
        MatchesSound(text, e + 2);
        assert MarkerAt(text, i, text[i + 5..e]);
      case None =>
        MatchesSound(text, i + 1);
    }
  }

  /** The longest name run after the opening of a marker ends where the marker's name ends. */
  lemma {:induction false} NameEndOfMarker(text: string, p: nat, name: string, j: nat)
    requires MarkerAt(text, p, name) && p + 5 <= j <= p + 5 + |name|
    ensures NameEnd(text, j) == p + 5 + |name|
    decreases p + 5 + |name| - j
  {
    var e := p + 5 + |name|;
    assert text[e] == text[e..e + 2][0] == ']';
    if j < e {
      assert text[j] == text[p + 5..e][j - p - 5] == name[j - p - 5];
      NameEndOfMarker(text, p, name, j + 1);
    }
  }

  /** The regex attempt at a marker captures exactly that marker's name. */
  lemma MatchAtMarker(text: string, p: nat, name: string)
    requires MarkerAt(text, p, name)
    ensures MatchAt(text, p) == Some(p + 5 + |name|)
    ensures text[p + 5..p + 5 + |name|] == name
  {
    var e := p + 5 + |name|;
    NameEndOfMarker(text, p, name, p + 5);
    assert text[e] == text[e..e + 2][0] && text[e + 1] == text[e..e + 2][1];
  }

  lemma CapturedAtMarker(text: string, p: nat, name: string)
    requires MarkerAt(text, p, name)
    ensures name in MatchesFrom(text, p)
  {
    MatchAtMarker(text, p, name);
    assert MatchesFrom(text, p) == [name] + MatchesFrom(text, p + 7 + |name|);
  }

  /** A regex match that starts before a marker ends before that marker starts. */
  lemma MatchDoesNotStraddle(text: string, q: nat, p: nat, name: string)
    requires q < p && q <= |text| && MatchAt(text, q).Some? && MarkerAt(text, p, name)
    ensures MatchAt(text, q).value + 2 <= p
  {
    var e := MatchAt(text, q).value;
    assert text[p] == text[p..p + 5][0] == '[';
    assert text[p + 1] == text[p..p + 5][1] == '[';
    assert text[q + 2] == text[q..q + 5][2] == 'c';
    assert text[q + 3] == text[q..q + 5][3] == 'f';
    assert text[q + 4] == text[q..q + 5][4] == ':';
    assert text[e] == ']' && text[e + 1] == ']';
  }

  /** Every marker of the text at or after `i` is captured. */
  lemma {:induction false} MatchesComplete(text: string, i: nat, p: nat, name: string)
    requires i <= p && MarkerAt(text, p, name)
    ensures name in MatchesFrom(text, i)
    decreases |text| - i
  {
    var m := MatchAt(text, i);
    if i == p {
      CapturedAtMarker(text, p, name);
    } else if m.Some? {
      MatchDoesNotStraddle(text, i, p, name);
      MatchesComplete(text, m.value + 2, p, name);
    } else {
      MatchesComplete(text, i + 1, p, name);
    }
  }

  /** Every marker of a text is among the names the scanner returns for it. */
  lemma MarkerIsScanned(text: string, p: nat, name: string)
    requires MarkerAt(text, p, name)
    ensures name in ConceptMarkers(text)
  {
    MatchesComplete(text, 0, p, name);
    AddAllSpec([], Matches(text));
  }

  /** A marker inside a text is still a marker, further on, once text is put around it. */
  lemma MarkerShifts(before: string, middle: string, after: string, p: nat, name: string)
    requires MarkerAt(middle, p, name)
    ensures MarkerAt(before + middle + after, |before| + p, name)
  {
    var t := before + middle + after;
    var q := |before| + p;
    assert t[q..q + |name| + 7] == middle[p..p + |name| + 7];
    assert t[q..q + 5] == middle[p..p + 5];
    assert t[q + 5..q + 5 + |name|] == middle[p + 5..p + 5 + |name|];
    assert t[q + 5 + |name|..q + 7 + |name|] == middle[p + 5 + |name|..p + 7 + |name|];
  }

  /** A marker of a part of a text is scanned in the whole text. */
  lemma MarkerOfPartScanned(before: string, middle: string, after: string, p: nat, name: string)
    requires MarkerAt(middle, p, name)
    ensures name in ConceptMarkers(before + middle + after)
  {
    MarkerShifts(before, middle, after, p, name);
    MarkerIsScanned(before + middle + after, |before| + p, name);
  }

  /**
   * `parseConceptMarkers`: runs the search and adds every captured name to an
   * insertion-ordered set. The result holds exactly the names of the markers
   * of `text`, each once, in the order of their first capture.
   */
  method ParseConceptMarkers(text: string) returns (names: seq<Name>)
    ensures names == ConceptMarkers(text)
    ensures NoDups(names)
    ensures forall x :: x in names <==> exists p :: MarkerAt(text, p, x)
    ensures forall x :: x in names ==> IsConceptName(x)
    ensures forall i, j :: 0 <= i < j < |names| ==>
      names[i] in Matches(text) && names[j] in Matches(text) &&
      IndexOf(Matches(text), names[i]) < IndexOf(Matches(text), names[j])
  {
    var matches := Matches(text);
    names := AddEach([], matches);
    AddAllSpec([], matches);
    MatchesSound(text, 0);
    forall x | exists p :: MarkerAt(text, p, x) ensures x in names {
      var p :| MarkerAt(text, p, x);
      MatchesComplete(text, 0, p, x);
    }
  }

  /** A marker cut short by another opening is skipped: only the complete one is found. */
  lemma InterruptedMarkerSkipped()
    ensures ConceptMarkers("[[cf:a[[cf:b]]") == ["b"]
  {
    var t := "[[cf:a[[cf:b]]";
    assert MatchAt(t, 0).None? by {
      assert t[0..5] == "[[cf:";
      assert NameEnd(t, 5) == 6 by { assert t[6] == '['; }
    }
    assert MatchAt(t, 6) == Some(12) by {
      assert t[6..11] == "[[cf:";
      assert NameEnd(t, 11) == 12 by { assert t[12] == ']'; }
    }
    assert MatchesFrom(t, 14) == [];
    assert MatchesFrom(t, 6) == ["b"] by { assert t[11..12] == "b"; }
    assert MatchesFrom(t, 1) == MatchesFrom(t, 6) by {
      forall k | 1 <= k < 6 ensures MatchAt(t, k).None? {
        assert t[k..k + 5] != "[[cf:" by { assert t[k..k + 5][0] == t[k]; }
      }
      assert MatchesFrom(t, 5) == MatchesFrom(t, 6);
      assert MatchesFrom(t, 4) == MatchesFrom(t, 5);
      assert MatchesFrom(t, 3) == MatchesFrom(t, 4);
      assert MatchesFrom(t, 2) == MatchesFrom(t, 3);
    }
    assert Matches(t) == ["b"];
    assert AddAll([], ["b"]) == Add([], "b");
  }
}
