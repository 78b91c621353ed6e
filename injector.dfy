/**
 * The pure half of the turn-start handler of extensions/collaboration.ts:
 * the text that is scanned each turn, the re-read of every accumulated
 * concept, and the augmented system prompt built from them.
 */
module Injector {
  import opened OrderedSets
  import opened Scanner
  import opened Resolver
  import opened StatusLine

  /** The fixed preamble. Its first line holds the marker `[[cf:name]]`. */
  const Preamble: string := PreambleOpening + PreambleMarker + PreambleRest

  const PreambleOpening: string := "<collaboration-framework>\n"
  const PreambleMarker: string := "[[cf:name]]"
  const PreambleRest: string :=
    " is a provenance marker \U{2014} it references a shared concept (concepts/name.md).\n"
    + "Concept names are semantically meaningful. The file contains specifics for alignment conversations.\n"
    + "</collaboration-framework>\n"
    + "\n"
    + "Your interpretation of intent is probably wrong. Words are lossy compression\U{2014}infer what was meant, hold it loosely, verify when stakes are non-trivial."

  const LoadedHeader: string := "\n\n# Loaded Concepts\n\n"
  const BlockSeparator: string := "\n\n---\n\n"

  /** The text scanned at the start of a turn: preamble, system prompt and user prompt, one per line. */
  function TurnText(systemPrompt: string, prompt: string): string {
    Preamble + "\n" + systemPrompt + "\n" + prompt
  }

  /** The marker in the preamble: the name `name` is a candidate on every turn. */
  lemma PreambleNamesItself(systemPrompt: string, prompt: string)
    ensures "name" in ConceptMarkers(TurnText(systemPrompt, prompt))
  {
    var after := PreambleRest + "\n" + systemPrompt + "\n" + prompt;
    PreambleMarkerNamesName();
    assert TurnText(systemPrompt, prompt) == PreambleOpening + PreambleMarker + after;
    MarkerOfPartScanned(PreambleOpening, PreambleMarker, after, 0, "name");
  }

  lemma PreambleMarkerNamesName()
    ensures MarkerAt(PreambleMarker, 0, "name")
  {
    assert PreambleMarker[0..5] == "[[cf:" && PreambleMarker[5..9] == "name" && PreambleMarker[9..11] == "]]";
  }

  /** No marker of the system prompt is lost by joining the texts. */
  lemma SystemPromptMarkersScanned(systemPrompt: string, prompt: string, p: nat, name: string)
    requires MarkerAt(systemPrompt, p, name)
    ensures name in ConceptMarkers(TurnText(systemPrompt, prompt))
  {
    var before := Preamble + "\n";
    assert TurnText(systemPrompt, prompt) == before + systemPrompt + ("\n" + prompt);
    MarkerOfPartScanned(before, systemPrompt, "\n" + prompt, p, name);
  }

  /** No marker of the user prompt is lost by joining the texts. */
  lemma PromptMarkersScanned(systemPrompt: string, prompt: string, p: nat, name: string)
    requires MarkerAt(prompt, p, name)
    ensures name in ConceptMarkers(TurnText(systemPrompt, prompt))
  {
    var before := Preamble + "\n" + systemPrompt + "\n";
    assert TurnText(systemPrompt, prompt) == before + prompt + "";
    MarkerOfPartScanned(before, prompt, "", p, name);
  }

  /** One re-read concept: its name and its current, non-empty content. */
  datatype Entry = Entry(name: Name, content: string)

  /**
   * The loop over `sessionLoadedConcepts`: each name is read again from the
   * store now; a name whose file is gone or empty is skipped.
   */
  function Snapshot(store: Store, names: seq<Name>): (r: seq<Entry>)
    ensures |r| <= |names|
    ensures forall e :: e in r ==> e.name in names && e.name in store && e.content == store[e.name] && e.content != ""
    ensures forall n :: n in names && n in store && store[n] != "" ==> Entry(n, store[n]) in r
  {
    if names == [] then []
    else
      var init, n := names[..|names| - 1], names[|names| - 1];
      assert names == init + [n];
      var content := LoadConceptFile(store, n);
      if content.Some? && content.value != "" then Snapshot(store, init) + [Entry(n, content.value)]
      else Snapshot(store, init)
  }

  /** The entries of `r` come in the order their names have in `names`. */
  ghost predicate InNameOrder(r: seq<Entry>, names: seq<Name>) {
    forall i, j :: 0 <= i < j < |r| ==>
      r[i].name in names && r[j].name in names && IndexOf(names, r[i].name) < IndexOf(names, r[j].name)
  }

  /** The snapshot keeps the session order. */
  lemma {:induction false} SnapshotKeepsOrder(store: Store, names: seq<Name>)
    requires NoDups(names)
    ensures InNameOrder(Snapshot(store, names), names)
  {
    if names != [] {
      var init, n := names[..|names| - 1], names[|names| - 1];
      assert names == init + [n];
      assert NoDups(init) && n !in init;
      SnapshotKeepsOrder(store, init);
      var r0 := Snapshot(store, init);
      if n in store && store[n] != "" {
        assert Snapshot(store, names) == r0 + [Entry(n, store[n])];
        AppendedEntryLast(names, init, n, r0, store[n]);
      } else {
        assert Snapshot(store, names) == r0;
        forall i, j | 0 <= i < j < |r0|
          ensures r0[i].name in names && r0[j].name in names && IndexOf(names, r0[i].name) < IndexOf(names, r0[j].name)
        {
          IndexOfPrefix(init, n, r0[i].name);
          IndexOfPrefix(init, n, r0[j].name);
        }
      }
    }
  }

  /** The step of `SnapshotKeepsOrder` where the last name's entry is appended. */
  lemma AppendedEntryLast(names: seq<Name>, init: seq<Name>, n: Name, r0: seq<Entry>, content: string)
    requires names == init + [n] && n !in init
    requires forall e :: e in r0 ==> e.name in init
    requires InNameOrder(r0, init)
    ensures InNameOrder(r0 + [Entry(n, content)], names)
  {
    var r := r0 + [Entry(n, content)];
    IndexOfLast(init, n);
    forall i, j | 0 <= i < j < |r|
      ensures r[i].name in names && r[j].name in names && IndexOf(names, r[i].name) < IndexOf(names, r[j].name)
    {
      assert r[i] == r0[i] && r0[i] in r0;
      IndexOfPrefix(init, n, r0[i].name);
      if j < |r0| {
        assert r[j] == r0[j] && r0[j] in r0;
        IndexOfPrefix(init, n, r0[j].name);
      } else {
        assert r[j].name == n;
      }
    }
  }

  /** Re-reading one more name appends its block when its content is non-empty, and nothing otherwise. */
  lemma SnapshotStep(store: Store, names: seq<Name>, k: nat)
    requires k < |names|
    ensures var n := names[k];
      Blocks(Snapshot(store, names[..k + 1])) ==
        if n in store && store[n] != "" then Blocks(Snapshot(store, names[..k])) + [Block(Entry(n, store[n]))]
        else Blocks(Snapshot(store, names[..k]))
  {
    var n := names[k];
    assert names[..k + 1][..k] == names[..k];
    if n in store && store[n] != "" {
      BlocksAppend(Snapshot(store, names[..k]), [Entry(n, store[n])]);
    }
  }

  /** `## name\n\ncontent`. */
  function Block(e: Entry): string {
    "## " + e.name + "\n\n" + e.content
  }

  function Blocks(entries: seq<Entry>): (r: seq<string>)
    ensures |r| == |entries| && forall i :: 0 <= i < |entries| ==> r[i] == Block(entries[i])
  {
    if entries == [] then [] else [Block(entries[0])] + Blocks(entries[1..])
  }

  /**
   * The augmented system prompt: the original, a blank line and the
   * preamble, then, when at least one concept has content, the header and
   * the concept blocks in session order.
   */
  function Inject(systemPrompt: string, snapshot: seq<Entry>): (r: string)
    ensures |snapshot| == 0 ==> r == systemPrompt + "\n\n" + Preamble
    ensures |systemPrompt| + 2 + |Preamble| <= |r| && r[..|systemPrompt| + 2 + |Preamble|] == systemPrompt + "\n\n" + Preamble
  {
    var injection := if |snapshot| > 0 then Preamble + LoadedHeader + Join(Blocks(snapshot), BlockSeparator) else Preamble;
    systemPrompt + "\n\n" + injection
  }

  lemma {:induction false} JoinExtends(a: seq<string>, b: seq<string>, sep: string)
    requires a != []
    ensures Join(a + b, sep) == Join(a, sep) + (if b == [] then "" else sep + Join(b, sep))
  {
    if |a| == 1 {
      if b != [] {
        assert (a + b)[1..] == b;
      } else {
        assert a + b == a;
      }
    } else {
      assert (a + b)[1..] == a[1..] + b;
      JoinExtends(a[1..], b, sep);
    }
  }

  lemma {:induction false} BlocksAppend(a: seq<Entry>, b: seq<Entry>)
    ensures Blocks(a + b) == Blocks(a) + Blocks(b)
  {
    assert |Blocks(a + b)| == |Blocks(a) + Blocks(b)|;
    forall i | 0 <= i < |a + b| ensures Blocks(a + b)[i] == (Blocks(a) + Blocks(b))[i] {
      if i < |a| {
        assert (a + b)[i] == a[i];
      } else {
        assert (a + b)[i] == b[i - |a|];
      }
    }
  }

  lemma {:induction false} SnapshotAppend(store: Store, s: seq<Name>, t: seq<Name>)
    ensures Snapshot(store, s + t) == Snapshot(store, s) + Snapshot(store, t)
    decreases |t|
  {
    if t == [] {
      assert s + t == s;
    } else {
      var init, n := t[..|t| - 1], t[|t| - 1];
      assert (s + t)[..|s + t| - 1] == s + init;
      assert (s + t)[|s + t| - 1] == n;
      SnapshotAppend(store, s, init);
    }
  }

  /**
   * Prior context is never dropped: when the session list of a later turn
   * extends that of an earlier turn and the files are unchanged, the later
   * augmented prompt extends the earlier one.
   */
  lemma InjectionGrows(store: Store, systemPrompt: string, earlier: seq<Name>, later: seq<Name>)
    requires |earlier| <= |later| && later[..|earlier|] == earlier
    ensures var before := Inject(systemPrompt, Snapshot(store, earlier));
            var after := Inject(systemPrompt, Snapshot(store, later));
            |before| <= |after| && after[..|before|] == before
  {
    var added := later[|earlier|..];
    assert later == earlier + added;
    SnapshotAppend(store, earlier, added);
    InjectAppendGrows(systemPrompt, Snapshot(store, earlier), Snapshot(store, added));
  }

  /** Appending entries to a snapshot only appends to the augmented prompt. */
  lemma InjectAppendGrows(systemPrompt: string, s1: seq<Entry>, s2: seq<Entry>)
    ensures var before, after := Inject(systemPrompt, s1), Inject(systemPrompt, s1 + s2);
            |before| <= |after| && after[..|before|] == before
  {
    if s1 != [] {
      BlocksAppend(s1, s2);
      InjectBlocksGrow(systemPrompt, s1, s2);
    } else {
      assert s1 + s2 == s2;
      InjectNothingIsPrefix(systemPrompt, s2);
    }
  }

  /** The prompt with nothing injected starts every augmented prompt. */
  lemma InjectNothingIsPrefix(systemPrompt: string, snapshot: seq<Entry>)
    ensures var before, after := Inject(systemPrompt, []), Inject(systemPrompt, snapshot);
            |before| <= |after| && after[..|before|] == before
  {
  }

  lemma InjectBlocksGrow(systemPrompt: string, s1: seq<Entry>, s2: seq<Entry>)
    requires s1 != [] && Blocks(s1 + s2) == Blocks(s1) + Blocks(s2)
    ensures var before, after := Inject(systemPrompt, s1), Inject(systemPrompt, s1 + s2);
            |before| <= |after| && after[..|before|] == before
  {
    var pre := systemPrompt + "\n\n" + (Preamble + LoadedHeader);
    InjectWithBlocks(systemPrompt, s1);
    InjectWithBlocks(systemPrompt, s1 + s2);
    JoinGrows(pre, Blocks(s1), Blocks(s2), BlockSeparator);
  }

  /** With at least one entry, the augmented prompt is a fixed head followed by the joined blocks. */
  lemma InjectWithBlocks(systemPrompt: string, s: seq<Entry>)
    requires s != []
    ensures Inject(systemPrompt, s) == systemPrompt + "\n\n" + (Preamble + LoadedHeader) + Join(Blocks(s), BlockSeparator)
  {
  }

  lemma JoinGrows(pre: string, a: seq<string>, b: seq<string>, sep: string)
    requires a != []
    ensures var before, after := pre + Join(a, sep), pre + Join(a + b, sep);
            |before| <= |after| && after[..|before|] == before
  {
    JoinExtends(a, b, sep);
    var tail := if b == [] then "" else sep + Join(b, sep);
    assert pre + Join(a + b, sep) == (pre + Join(a, sep)) + tail;
  }
}
