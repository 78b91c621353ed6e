/**
 * The extension's session state and its three entry points in
 * extensions/collaboration.ts: the `/concept` toggle command, the
 * `before_agent_start` handler that merges the turn's references into the
 * session and rebuilds the system prompt, and the `session_start` reset.
 *
 * The two `Set`s the extension closes over, `activeConcepts` and
 * `sessionLoadedConcepts`, are the fields of `Session`. What the handlers
 * send to the user interface (notifications and the status entry) is
 * returned to the caller as values.
 */
module Session {
  import opened Wrappers
  import opened OrderedSets
  import opened Scanner
  import opened Resolver
  import opened StatusLine
  import opened Injector

  datatype Level = Error | Warning | Info

  /** One `ctx.ui.notify(message, level)` call. */
  datatype Notice = Notice(message: string, level: Level)

  /** `Set.delete`: the name goes, every other name keeps its place. */
  function Remove(s: seq<Name>, x: Name): (r: seq<Name>)
    ensures NoDups(s) ==> NoDups(r)
    ensures forall y :: y in r <==> y in s && y != x
    ensures |r| <= |s|
  {
    if s == [] then []
    else if s[0] == x then Remove(s[1..], x)
    else
      assert NoDups(s) ==> s[0] !in s[1..] && NoDups(s[1..]) by {
        if NoDups(s) {
          forall j | 0 <= j < |s[1..]| ensures s[1..][j] != s[0] { assert s[1..][j] == s[j + 1]; }
        }
      }
      [s[0]] + Remove(s[1..], x)
  }

  /** In a duplicate-free sequence, removing a present name cuts out exactly its one position. */
  lemma {:induction false} RemoveCutsOut(s: seq<Name>, x: Name)
    requires NoDups(s) && x in s
    ensures Remove(s, x) == s[..IndexOf(s, x)] + s[IndexOf(s, x) + 1..]
  {
    if s[0] == x {
      assert x !in s[1..];
      RemoveAbsent(s[1..], x);
    } else {
      RemoveCutsOut(s[1..], x);
      assert s[..IndexOf(s, x)] == [s[0]] + s[1..][..IndexOf(s[1..], x)];
      assert s[IndexOf(s, x) + 1..] == s[1..][IndexOf(s[1..], x) + 1..];
    }
  }

  /** Removing an absent name changes nothing. */
  lemma {:induction false} RemoveAbsent(s: seq<Name>, x: Name)
    requires x !in s
    ensures Remove(s, x) == s
  {
    if s != [] {
      RemoveAbsent(s[1..], x);
      assert s == [s[0]] + s[1..];
    }
  }

  /** What choosing a concept does to the active set: delete it if present, add it otherwise. */
  function Toggle(active: seq<Name>, name: Name): (r: seq<Name>)
    ensures NoDups(active) ==> NoDups(r)
    ensures name in r <==> name !in active
    ensures forall y :: y != name ==> (y in r <==> y in active)
  {
    if name in active then Remove(active, name) else Add(active, name)
  }

  /** In a duplicate-free sequence every element occurs exactly once. */
  lemma {:induction false} NoDupsCounts(s: seq<Name>)
    requires NoDups(s)
    ensures forall x :: multiset(s)[x] == if x in s then 1 else 0
  {
    if s != [] {
      var init := s[..|s| - 1];
      assert s == init + [s[|s| - 1]];
      NoDupsCounts(init);
    }
  }

  /** Two duplicate-free sequences with the same members hold the same multiset. */
  lemma SameMembersSameMultiset(a: seq<Name>, b: seq<Name>)
    requires NoDups(a) && NoDups(b) && forall x :: x in a <==> x in b
    ensures multiset(a) == multiset(b)
  {
    NoDupsCounts(a);
    NoDupsCounts(b);
    assert forall x :: multiset(a)[x] == multiset(b)[x];
  }

  /**
   * Choosing the same concept twice restores the active set and the status
   * line, although a re-added name moves to the end of the insertion order.
   */
  lemma ToggleTwiceRestores(active: seq<Name>, name: Name)
    requires NoDups(active)
    ensures forall y :: y in Toggle(Toggle(active, name), name) <==> y in active
    ensures StatusOf(Toggle(Toggle(active, name), name)) == StatusOf(active)
  {
    var twice := Toggle(Toggle(active, name), name);
    SameMembersSameMultiset(twice, active);
    StatusIgnoresToggleOrder(twice, active);
  }

  const ActiveMark: string := "\U{25CF} "
  const InactiveMark: string := "\U{25CB} "

  /** The option shown for one available concept: a filled or hollow circle, a space, the name. */
  function OptionLabel(active: seq<Name>, name: Name): (option: string)
    ensures |option| == |name| + 2 && option[2..] == name
    ensures option[0] == '\U{25CF}' <==> name in active
  {
    (if name in active then ActiveMark else InactiveMark) + name
  }

  function OptionLabels(active: seq<Name>, available: seq<Name>): (options: seq<string>)
    ensures |options| == |available|
    ensures forall k :: 0 <= k < |available| ==> options[k] == OptionLabel(active, available[k])
  {
    if available == [] then [] else [OptionLabel(active, available[0])] + OptionLabels(active, available[1..])
  }

  /** JavaScript's `s.slice(k)` for `k >= 0`: empty when `k` is past the end. */
  function SliceFrom(s: string, k: nat): (r: string)
    ensures k <= |s| ==> r == s[k..]
    ensures k > |s| ==> r == ""
  {
    if k <= |s| then s[k..] else ""
  }

  /** Stripping the two-character indicator from any offered option gives back its concept name. */
  lemma SelectedOptionNamesConcept(active: seq<Name>, available: seq<Name>, k: nat)
    requires k < |available|
    ensures SliceFrom(OptionLabels(active, available)[k], 2) == available[k]
    ensures OptionLabels(active, available)[k] != ""
  {
    var option := OptionLabels(active, available)[k];
    assert option == OptionLabel(active, available[k]);
  }

  /** `if (!selected) return;`: the dialog was dismissed or gave the empty string. */
  predicate Chosen(selected: Option<string>) {
    selected.Some? && selected.value != ""
  }

  function ToggleNotice(active: seq<Name>, name: Name): Notice {
    if name in active then Notice("Deactivated: " + name, Info) else Notice("Activated: " + name, Info)
  }

  /** One warning per missing concept, in the order the pass found them. */
  function MissingNotices(missing: seq<Name>): (r: seq<Notice>)
    ensures |r| == |missing|
    ensures forall k :: 0 <= k < |missing| ==> r[k] == Notice("Missing concept: " + missing[k] + ".md", Warning)
  {
    if missing == [] then [] else MissingNotices(missing[..|missing| - 1]) + [Notice("Missing concept: " + missing[|missing| - 1] + ".md", Warning)]
  }

  /**
   * The session list after a turn: the names already there keep their
   * places, then the concepts the turn's scan loaded, then the manually
   * active ones, each name once.
   */
  function MergeTurn(sessionLoaded: seq<Name>, found: seq<Name>, active: seq<Name>): (r: seq<Name>)
    requires NoDups(sessionLoaded)
    ensures NoDups(r)
    ensures |sessionLoaded| <= |r| && r[..|sessionLoaded|] == sessionLoaded
    ensures forall x :: x in r <==> x in sessionLoaded || x in found || x in active
    ensures r == Dedup(sessionLoaded + found + active)
  {
    AddAllAppend(sessionLoaded, found, active);
    AddAllIsDedup(sessionLoaded, found + active);
    assert sessionLoaded + (found + active) == sessionLoaded + found + active;
    AddAllSpec(sessionLoaded, found);
    AddAllSpec(AddAll(sessionLoaded, found), active);
    var r := AddAll(AddAll(sessionLoaded, found), active);
    assert r[..|sessionLoaded|] == AddAll(sessionLoaded, found)[..|sessionLoaded|];
    r
  }

  /**
   * The preamble's own marker makes `name` a reference on every turn, so a
   * store without a `name` concept gets the warning `Missing concept:
   * name.md` on every turn.
   */
  lemma PreambleWarnsEveryTurn(store: Store, systemPrompt: string, prompt: string)
    requires "name" !in store
    ensures Notice("Missing concept: " + "name" + ".md", Warning)
              in MissingNotices(FreshPass(store, TurnText(systemPrompt, prompt)).missing)
  {
    var text := TurnText(systemPrompt, prompt);
    PreambleNamesItself(systemPrompt, prompt);
    AbsentMarkerIsMissing(store, text, "name");
    MissingNoticeFor(FreshPass(store, text).missing, "name");
  }

  /** A missing name gets its warning. */
  lemma MissingNoticeFor(missing: seq<Name>, name: Name)
    requires name in missing
    ensures Notice("Missing concept: " + name + ".md", Warning) in MissingNotices(missing)
  {
    var k :| 0 <= k < |missing| && missing[k] == name;
    assert MissingNotices(missing)[k] == Notice("Missing concept: " + name + ".md", Warning);
  }

  /** Every missing-concept warning names a referenced concept that has no file. */
  lemma WarningsNameAbsentConcepts(store: Store, systemPrompt: string, prompt: string, k: nat)
    requires k < |FreshPass(store, TurnText(systemPrompt, prompt)).missing|
    ensures var name := FreshPass(store, TurnText(systemPrompt, prompt)).missing[k];
      && name !in store
      && MissingNotices(FreshPass(store, TurnText(systemPrompt, prompt)).missing)[k]
           == Notice("Missing concept: " + name + ".md", Warning)
  {
    var pass := FreshPass(store, TurnText(systemPrompt, prompt));
    FreshPassResolvesClosure(store, TurnText(systemPrompt, prompt));
    assert pass.missing[k] in pass.missing;
  }

  class Session {
    /** `activeConcepts`: the concepts switched on with `/concept`. */
    var active: seq<Name>
    /** `sessionLoadedConcepts`: every concept injected so far in this session. */
    var sessionLoaded: seq<Name>

    /** Both fields are sets: no name twice. */
    ghost predicate Valid()
      reads this
    {
      NoDups(active) && NoDups(sessionLoaded)
    }

    constructor()
      ensures Valid() && active == [] && sessionLoaded == []
    {
      active := [];
      sessionLoaded := [];
    }

    /** `session_start`: forget what was injected, keep the manual choices, refresh the status. */
    method SessionStart() returns (status: StatusCall)
      requires Valid()
      modifies this
      ensures Valid()
      ensures sessionLoaded == [] && active == old(active)
      ensures status == StatusOf(active)
    {
      sessionLoaded := [];
      status := StatusOf(active);
    }

    /**
     * `/concept`: `available` is the listing of the concepts directory and
     * `selected` what the selection dialog resolved to (`None` when it was
     * dismissed). Returns the options shown, the notifications and the
     * status update, if any.
     */
    method ConceptCommand(available: seq<Name>, selected: Option<string>)
      returns (options: seq<string>, notices: seq<Notice>, status: Option<StatusCall>)
      requires Valid()
      modifies this
      ensures Valid() && sessionLoaded == old(sessionLoaded)
      ensures |available| == 0 ==>
        options == [] && notices == [Notice("No concepts found in concepts/", Error)]
        && status == None && active == old(active)
      ensures |available| > 0 ==> options == OptionLabels(old(active), available)
      ensures |available| > 0 && !Chosen(selected) ==>
        notices == [] && status == None && active == old(active)
      ensures |available| > 0 && Chosen(selected) ==>
        var name := SliceFrom(selected.value, 2);
        && active == Toggle(old(active), name)
        && notices == [ToggleNotice(old(active), name)]
        && status == Some(StatusOf(active))
    {
      if |available| == 0 {
        options, notices, status := [], [Notice("No concepts found in concepts/", Error)], None;
        return;
      }
      options := OptionLabels(active, available);
      if !Chosen(selected) {
        notices, status := [], None;
        return;
      }
      var name := SliceFrom(selected.value, 2);
      if name in active {
        active := Remove(active, name);
        notices := [Notice("Deactivated: " + name, Info)];
      } else {
        active := Add(active, name);
        notices := [Notice("Activated: " + name, Info)];
      }
      status := Some(StatusOf(active));
    }

    /**
     * `before_agent_start`: scan the preamble, system prompt and user
     * prompt, warn about every missing concept, add the loaded and the
     * active concepts to the session, and rebuild the system prompt from
     * the current content of every concept of the session.
     */
    method BeforeAgentStart(store: Store, systemPrompt: string, prompt: string)
      returns (newSystemPrompt: string, notices: seq<Notice>)
      requires Valid()
      modifies this
      ensures Valid() && active == old(active)
      ensures var pass := FreshPass(store, TurnText(systemPrompt, prompt));
        && sessionLoaded == MergeTurn(old(sessionLoaded), pass.order, active)
        && notices == MissingNotices(pass.missing)
      ensures newSystemPrompt == Inject(systemPrompt, Snapshot(store, sessionLoaded))
    {
      var pass := LoadConceptsRecursively(store, TurnText(systemPrompt, prompt), EmptyPass);
      notices := WarnMissing(pass.missing);
      var merged := AddEach(sessionLoaded, pass.order);
      sessionLoaded := AddEach(merged, active);
      assert sessionLoaded == MergeTurn(old(sessionLoaded), pass.order, active);
      newSystemPrompt := RenderSystemPrompt(store, systemPrompt, sessionLoaded);
    }
  }

  /** The loop that sends one warning per missing concept. */
  method WarnMissing(missing: seq<Name>) returns (notices: seq<Notice>)
    ensures notices == MissingNotices(missing)
  {
    notices := [];
    for k := 0 to |missing|
      invariant notices == MissingNotices(missing[..k])
    {
      assert missing[..k + 1][..k] == missing[..k];
      notices := notices + [Notice("Missing concept: " + missing[k] + ".md", Warning)];
    }
    assert missing[..|missing|] == missing;
  }

  /**
   * The end of the turn-start handler: the preamble, and, when some concept
   * of the session still has non-empty content, the header and one block
   * per such concept, appended to the system prompt after a blank line.
   */
  method RenderSystemPrompt(store: Store, systemPrompt: string, sessionLoaded: seq<Name>)
    returns (newSystemPrompt: string)
    ensures newSystemPrompt == Inject(systemPrompt, Snapshot(store, sessionLoaded))
  {
    var injection := Preamble;
    if |sessionLoaded| > 0 {
      var contents := ConceptBlocks(store, sessionLoaded);
      if |contents| > 0 {
        injection := injection + LoadedHeader + Join(contents, BlockSeparator);
      }
    }
    newSystemPrompt := systemPrompt + "\n\n" + injection;
  }

  /** The loop that re-reads every session concept and keeps a block for each non-empty one. */
  method ConceptBlocks(store: Store, sessionLoaded: seq<Name>) returns (contents: seq<string>)
    ensures contents == Blocks(Snapshot(store, sessionLoaded))
  {
    contents := [];
    for k := 0 to |sessionLoaded|
      invariant contents == Blocks(Snapshot(store, sessionLoaded[..k]))
    {
      var name := sessionLoaded[k];
      var content := LoadConceptFile(store, name);
      SnapshotStep(store, sessionLoaded, k);
      if content.Some? && content.value != "" {
        contents := contents + [Block(Entry(name, content.value))];
      }
    }
    assert sessionLoaded[..|sessionLoaded|] == sessionLoaded;
  }
}
