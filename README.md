# Concept references of the collaboration extension, in Dafny

This project models the concept-reference engine of the collaboration
extension (`extensions/collaboration.ts`) and proves its properties. A
prompt or a concept file can mention a shared concept with a marker
`[[cf:name]]`. At the start of every agent turn the engine does four things:

- it scans the preamble, the system prompt and the user prompt for markers;
- it loads every referenced concept file from the `concepts/` directory,
  following the markers inside loaded concepts depth-first;
- it warns about every referenced file that does not exist;
- it adds the loaded concepts and the manually activated ones to the
  session's list, and appends the preamble and the current content of every
  concept in that list to the system prompt.

A `/concept` command toggles a concept on or off by hand, and the status
line lists the active concepts. A new session forgets the list but keeps the
manual choices.

Modules, one per part of the engine:

- `OrderedSets` (ordered_sets.dfy): JavaScript's insertion-ordered `Set`, as
  a duplicate-free sequence.
- `Scanner` (scanner.dfy): `parseConceptMarkers`. The regex search is written
  position by position.
- `Resolver` (resolver.dfy): `loadConceptFile` as a lookup in a `Store` (file
  name to content), and `loadConceptsRecursively`. The resolver appears twice:
  - the method `LoadConceptsRecursively` mirrors the loop and the recursion;
  - the function `ResolveNames` specifies it.
  The `loaded` Map and `missing` Set that the source shares by reference are
  threaded through as a `Pass` value.
- `StatusLine` (status.dfy): `updateStatus`, with the sort written out.
- `Injector` (injector.dfy): the scanned text, the re-read of the session's
  concepts and the augmented system prompt.
- `Session` (session.dfy): the two sets as fields of a class. The three
  handlers are its methods. Notifications and status updates are returned as
  values.
- `Wrappers` (wrappers.dfy): the optional value that stands for `null` and
  for a dismissed dialog.

The preamble's own `[[cf:name]]` marker makes `name` a reference on every
turn, so every turn warns `Missing concept: name.md` unless a concept called
`name` exists. The model keeps that behaviour and proves it
(`PreambleWarnsEveryTurn`).

## Model

| member | source | states |
|---|---|---|
| OrderedSets.Add | extensions/collaboration.ts:35 | `Set.add` keeps a present name in place and appends a new one; members are the old ones plus the name; no duplicates arise |
| OrderedSets.AddAll | extensions/collaboration.ts:33-37 | adding a list of names one by one with `Set.add`; the old set stays a prefix of the result |
| OrderedSets.AddEach | extensions/collaboration.ts:34-36 | the `for ... of` loop that adds each name to a `Set` computes `AddAll`; the same loop runs at :382-393 |
| OrderedSets.AddAllSpec | extensions/collaboration.ts:33-37 | adding a list name by name leaves the set duplicate-free, keeps the old part as a prefix, holds exactly the old names and the list's names, and appends the new ones in first-occurrence order |
| OrderedSets.AddAllIdempotent | extensions/collaboration.ts:383-385 | adding names that are all present changes nothing |
| OrderedSets.AddAllAppend | extensions/collaboration.ts:382-393 | adding one list and then another is adding their concatenation |
| OrderedSets.AddAllIsDedup | extensions/collaboration.ts:382-393 | adding a list to a duplicate-free set equals deduplicating the concatenation |
| Scanner.NameEnd | extensions/collaboration.ts:26 | the greedy `[a-zA-Z0-9_-]+` run: every character up to the end is a name character and the next one is not |
| Scanner.MatchAt | extensions/collaboration.ts:26 | a successful regex attempt at a position captures the name of a well-formed marker there |
| Scanner.MatchesFrom | extensions/collaboration.ts:32 | the names captured by `matchAll` from a position on, with repetitions: a successful attempt resumes after its `]]`, a failed one one character later |
| Scanner.Matches | extensions/collaboration.ts:32 | all captures of `matchAll` over the text, from its start |
| Scanner.ConceptMarkers | extensions/collaboration.ts:33-37 | the captures added one by one to a fresh `Set`: what `parseConceptMarkers` returns |
| Scanner.MatchesSound | extensions/collaboration.ts:31-36 | every captured name is the name of a marker that occurs in the text |
| Scanner.MatchAtMarker | extensions/collaboration.ts:26 | the attempt at a marker's position captures exactly that marker's name |
| Scanner.MatchDoesNotStraddle | extensions/collaboration.ts:32 | a match that starts before a marker ends before it, so matches never swallow a later marker |
| Scanner.MatchesComplete | extensions/collaboration.ts:32-36 | every marker at or after the starting position is captured |
| Scanner.MarkerIsScanned | extensions/collaboration.ts:31-38 | every marker's name is in the scanner's result |
| Scanner.MarkerShifts | extensions/collaboration.ts:373 | a marker of a part stays a marker once text is put around it |
| Scanner.MarkerOfPartScanned | extensions/collaboration.ts:373 | a marker of a part of a text is scanned in the whole text |
| Scanner.ParseConceptMarkers | extensions/collaboration.ts:31-38 | the result is duplicate-free; it holds exactly the names that occur as `[[cf:NAME]]` markers; each is a non-empty name-character run; the names come in the order of their first capture |
| Scanner.InterruptedMarkerSkipped | extensions/collaboration.ts:26 | in `[[cf:a[[cf:b]]` the cut-short marker is skipped and only `b` is found |
| Resolver.LoadConceptFile | extensions/collaboration.ts:43-53 | the lookup gives null exactly when the file is absent, and otherwise the file's content |
| Resolver.UnloadedShrinks | extensions/collaboration.ts:76-80 | loading a stored name that was not loaded strictly shrinks the set of stored names not yet loaded, the measure that makes the recursion terminate |
| Resolver.MarkMissing | extensions/collaboration.ts:71-73 | recording a missing name appends it to `missing` and changes nothing else |
| Resolver.MarkLoaded | extensions/collaboration.ts:77 | recording a loaded name sets its entry and appends it to the Map's key order before its content is scanned |
| Resolver.ResolveNames | extensions/collaboration.ts:64-83 | resolving a list of names only adds to the accumulators and never overwrites an entry; it handles every name of the list; the Map and Set stay well-formed |
| Resolver.ResolveAgreesWithStore | extensions/collaboration.ts:68-77 | every loaded entry is the store's content for that name and every missing name has no file |
| Resolver.ResolveCoversContents | extensions/collaboration.ts:77-80 | the markers of every concept loaded during the call are all handled |
| Resolver.ResolveOnlyReferenced | extensions/collaboration.ts:64-81 | every name the call handles is one of the given names or a marker of a concept it loaded |
| Resolver.FreshPassResolvesClosure | extensions/collaboration.ts:59-84 | a call with the default empty Map and Set gives disjoint `loaded` and `missing` sets that agree with the store; it covers the markers of the text and of every loaded concept; every handled name is a marker of the text or of a loaded concept |
| Resolver.ReachableStep | extensions/collaboration.ts:77-80 | a marker of the stored file of a reachable name is reachable |
| Resolver.ResolveStaysReachable | extensions/collaboration.ts:64-81 | started from names and accumulators inside the reference closure of the text, a pass handles only names of that closure |
| Resolver.ReachableIsSeen | extensions/collaboration.ts:64-81 | a pass closed under the references of the text handles every name of its reference closure |
| Resolver.FreshPassClosed | extensions/collaboration.ts:59-84 | a fresh pass handles the text's markers and, for every loaded name, the markers of its file |
| Resolver.FreshPassIsClosure | extensions/collaboration.ts:59-84 | a fresh pass puts a name into `loaded` or `missing` if and only if it is reachable from the text's markers through the markers of stored files, so cycles the text never reaches are never entered |
| Resolver.MutualReferencesLoadedOnce | extensions/collaboration.ts:68-80 | two concepts that reference each other are both loaded, each listed once |
| Resolver.AbsentMarkerIsMissing | extensions/collaboration.ts:70-73 | a referenced name without a file ends up in `missing` |
| Resolver.LoadConceptsRecursively | extensions/collaboration.ts:59-84 | the loop-and-recursion implementation computes exactly `ResolveNames` over the text's markers and only adds to the Map and Set it is given |
| StatusLine.InsertSorted | extensions/collaboration.ts:118 | insertion keeps the list sorted and adds exactly one occurrence of the name |
| StatusLine.SortNames | extensions/collaboration.ts:118 | `sort()` gives a sorted permutation of the active names |
| StatusLine.SortedUnique | extensions/collaboration.ts:118 | two sorted lists with the same elements are equal |
| StatusLine.Join | extensions/collaboration.ts:118 | `parts.join(sep)`: the parts with `sep` between neighbours and nothing for no part; also used at :407 |
| StatusLine.StatusOf | extensions/collaboration.ts:115-123 | the status is cleared exactly when no concept is active |
| StatusLine.StatusIgnoresToggleOrder | extensions/collaboration.ts:118 | the status depends only on which concepts are active, not on the order they were switched on |
| StatusLine.StatusListsActiveSorted | extensions/collaboration.ts:117-122 | a shown status is `concepts: ` followed by a sorted permutation of the active names joined by `, ` |
| Injector.Preamble | extensions/collaboration.ts:86-91 | the fixed preamble, character for character, with its `[[cf:name]]` marker on the first line after the opening tag |
| Injector.TurnText | extensions/collaboration.ts:373 | the scanned text: the preamble, the system prompt and the user prompt joined by newlines |
| Injector.PreambleNamesItself | extensions/collaboration.ts:373 | the preamble's own `[[cf:name]]` makes `name` a reference on every turn |
| Injector.SystemPromptMarkersScanned | extensions/collaboration.ts:373-374 | every marker of the system prompt is scanned |
| Injector.PromptMarkersScanned | extensions/collaboration.ts:373-374 | every marker of the user prompt is scanned |
| Injector.Snapshot | extensions/collaboration.ts:400-405 | the re-read keeps exactly the session names whose file exists with non-empty content, each with its current content |
| Injector.SnapshotKeepsOrder | extensions/collaboration.ts:397-405 | the re-read concepts come in session order |
| Injector.Blocks | extensions/collaboration.ts:403 | one `## name` block per re-read concept, in order |
| Injector.Inject | extensions/collaboration.ts:406-412 | the new system prompt always starts with the old one, a blank line and the preamble; with nothing to inject it is exactly that |
| Injector.InjectAppendGrows | extensions/collaboration.ts:398-412 | appending entries to the re-read only appends to the augmented prompt, with or without blocks before |
| Injector.InjectionGrows | extensions/collaboration.ts:395-408 | with the files unchanged, a later turn's prompt extends the earlier turn's, so earlier context is never dropped |
| Session.Remove | extensions/collaboration.ts:150 | `Set.delete` removes the name, keeps every other name, and keeps the set duplicate-free |
| Session.RemoveCutsOut | extensions/collaboration.ts:150 | deleting a present name cuts out exactly its position; the others keep their order |
| Session.Toggle | extensions/collaboration.ts:149-155 | choosing a concept flips its membership and no other name's |
| Session.ToggleTwiceRestores | extensions/collaboration.ts:149-157 | choosing a concept twice restores the active names and the status line |
| Session.OptionLabel | extensions/collaboration.ts:138-141 | an option is a two-character indicator, filled exactly for an active concept, followed by the name |
| Session.OptionLabels | extensions/collaboration.ts:138-141 | one option per available concept, in order |
| Session.SliceFrom | extensions/collaboration.ts:147 | `slice(2)` drops the first two characters, giving the empty string when there are fewer |
| Session.SelectedOptionNamesConcept | extensions/collaboration.ts:140-147 | stripping the indicator from any offered option gives back its concept name, and no option is empty |
| Session.Chosen | extensions/collaboration.ts:144 | the dialog's answer counts only when it is present and not the empty string |
| Session.ToggleNotice | extensions/collaboration.ts:149-155 | `Deactivated: NAME` when the name was active, `Activated: NAME` otherwise, both at level info |
| Session.MissingNotices | extensions/collaboration.ts:377-379 | one `Missing concept: NAME.md` warning per missing name, in order |
| Session.MergeTurn | extensions/collaboration.ts:381-393 | the session list stays duplicate-free; its old names keep their places; it gains exactly the loaded and the active names, in that order |
| Session.PreambleWarnsEveryTurn | extensions/collaboration.ts:373-379 | without a `name` concept file every turn warns `Missing concept: name.md` |
| Session.WarningsNameAbsentConcepts | extensions/collaboration.ts:374-379 | every warning names a referenced concept that has no file |
| Session.Session.constructor | extensions/collaboration.ts:94-97 | both sets start empty |
| Session.Session.SessionStart | extensions/collaboration.ts:417-420 | the session list is emptied; the active concepts are kept and the status is refreshed |
| Session.Session.ConceptCommand | extensions/collaboration.ts:130-158 | no concepts gives an error notice; a dismissed dialog changes nothing; otherwise the chosen name is toggled, with an activated or deactivated notice and a status refresh, and the session list is untouched |
| Session.Session.BeforeAgentStart | extensions/collaboration.ts:369-414 | one warning per missing name; the session list becomes the merge of the old list, the loaded names and the active names; the new system prompt is `Inject` of the session's current contents |
| Session.WarnMissing | extensions/collaboration.ts:377-379 | the warning loop sends `MissingNotices` of the missing set |
| Session.ConceptBlocks | extensions/collaboration.ts:399-405 | the re-read loop builds exactly the blocks of `Snapshot`, in session order |
| Session.RenderSystemPrompt | extensions/collaboration.ts:398-412 | the content loop and the join build exactly `Inject` of the re-read |

## Left out

- The `/review-pr` command. It is calls to the `gh` tool, JSON parsing of their output, byte-level truncation and a prompt template.
- The `github` and `gh-agent` extensions are not part of this model.
- File-system access. `existsSync` and `readFileSync` become a lookup in a `Store` map. A file that exists but cannot be read counts as absent. The path computation from the module's URL is left out.
- `getAvailableConcepts`: the directory listing is a parameter of `ConceptCommand`.
- `ctx.ui.select`: the dialog's answer is a parameter of `ConceptCommand`. `None` stands for a dismissed dialog. The method returns the options it would show.
- Colouring through `theme.fg`: the status text is modelled without its colour escape.
- Async and registration: `pi.on` and `pi.registerCommand` are left out. Each handler runs to completion without interleaving, and is modelled as one method call.
- Sharing by reference: the Map and Set that `loadConceptsRecursively` mutates are passed in and returned as a value. No other code holds them during a call.
- StatusLine.SortNames: strings are compared by code point. JavaScript's default `sort()` compares UTF-16 code units, which differ only for characters outside the Basic Multilingual Plane.
- Session.SliceFrom: `slice(2)` counts UTF-16 code units, the model counts code points. The two differ only for names with characters outside the Basic Multilingual Plane.
- Scanner.ParseConceptMarkers: the regex engine itself is not modelled. Its search is written as a greedy name run followed by `]]`. For this pattern that captures the same names, because `]` is not a name character.
