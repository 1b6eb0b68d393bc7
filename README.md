# readme-sync, modelled in Dafny

readme-sync mirrors a local documentation directory into a ReadMe.io
project. Under the docs root, each top-level directory is a category. A
category holds markdown documents and group directories; a group holds an
`index.md` page and child pages. A sync run (`main` in `sync/index.ts`)
fetches the remote categories, creates or updates one remote document per
local page, and deletes remote documents that have no local counterpart.
The front-matter validator (`ensureFrontMatter` in `sync/validation.ts`) is a
separate entry point: `main` does not call it, and no file of the program
does; whatever invokes it is not part of this model.

This project models the core of that tool:

- **Naming** (modules `Util`, `Slugify`):
  - the strict `slugify` and the `"<digits> - "` order prefix of `sync/util.ts`;
  - the simpler space-to-dash `slugify` of `sync/slugify.ts`, which is the one the sync engine imports.
- **The remote tree mirror** (modules `MirrorSpec`, `Mirror`): `findSlugInCategory`, `removeSlugFromTree` and `addDocUnderSlug`.
  - They are stated as functions on an ordered forest of `{slug, children}` values.
  - They are implemented as methods on heap nodes whose children lists are updated in place.
  - The methods are proved against the functions.
  - Each node appears in exactly one place, and slugs are neither lost nor duplicated.
- **The front-matter validator** (modules `FileSystem`, `Validation`):
  - `checkDoc` is a method proved to report exactly the problems of a reference definition.
  - `ensureFrontMatter` is a method over a directory snapshot, proved equal to a walk-and-fold specification.
  - Lemmas cover which files are read, the short-circuit of `passed && checkDoc(...)`, and where the walk throws.
- **The reconciliation engine** (modules `Remote`, `EngineSpec`, `Engine`):
  - `upsertDoc`, `upsertDir`, `deleteNotPresent`, `sync` and `main` are methods over a client.
  - The client records every create, update and delete in an append-only log. The store's reply to each call is a fixed function of the call.
  - Each method is proved to append exactly the calls of a specification function and to throw exactly when that function says.
  - Lemmas about the specification cover:
    - create versus update, and the contents of the form;
    - the order of index and children in a group;
    - which remote documents get deleted, children before their parent;
    - upserts come before deletes within a category;
    - nothing follows a rejected call;
    - the fail-closed gate in `main`: one 404 means no call at all.

Behaviour of the code worth knowing:

- The strict `slugify` of `sync/util.ts` keeps a trailing dash: a name ending in punctuation, such as `"Hi!!"`, gives a slug ending in `-` (`Util.SlugifyKeepsTrailingDash`).
- The engine imports the simple `slugify`. It lowercases and turns spaces into dashes, and keeps every other character, punctuation included.
- `upsertDoc` does not slugify a file's own name. `"My Doc.md"` is sent with slug `"My Doc"` (`EngineSpec.MarkdownSlugNotSlugified`).
- `addDocUnderSlug` finds its parent at any depth: the test adds under a nested node.
- The validator checks front matter only.
  - Any key other than `title` and `hidden` is rejected, `excerpt` included.
  - Depth, `index.md`, slug-uniqueness and link rules are not in the code, so they are not modelled.
- The engine never changes the remote tree it fetched. It is a value here.
- `sync` does not skip a top-level plain file. Listing it as a directory throws, which ends the run.

## Model

| member | source | states |
|---|---|---|
| Util.SlugChar | sync/util.ts:2 | an ASCII letter or digit comes out lowercased; any other character becomes `-`; the result is always in `[a-z0-9-]` |
| Util.CollapseDashes | sync/util.ts:2 | the result has no two consecutive dashes, is no longer than its input, keeps the first character and the letters and digits in order, and leaves a string without dash runs unchanged (where each run goes: `Util.CollapseSplitsAtRun`) |
| Util.CollapseDashRun | sync/util.ts:2 | a run of one or more dashes before a non-dash becomes exactly one dash |
| Util.CollapseAfterNonDash | sync/util.ts:2 | what precedes a non-dash character collapses independently of what follows |
| Util.CollapseSplitsAtRun | sync/util.ts:2 | a run of dashes between two non-dashes is replaced by exactly one dash, and the two sides collapse on their own |
| Util.ReplaceAppend | sync/util.ts:2 | the per-character replacement distributes over concatenation |
| Util.AlnumsOfReplaced | sync/util.ts:2 | the character replacement keeps exactly the letters and digits, lowercased and in order |
| Util.Slugify | sync/util.ts:1-3 | every character of the slug is in `[a-z0-9-]`; there are no two consecutive dashes; it is no longer than the name; its letters and digits are the name's, lowercased and in order (where the dashes go: `Util.SlugifySeparator`) |
| Util.SlugifySeparator | sync/util.ts:2 | between two letters or digits, any non-empty run of other characters becomes exactly one dash, and the two sides are slugified on their own |
| Util.ReplaceKeepsSlugChars | sync/util.ts:2 | a string already made of `[a-z0-9-]` passes the replacement unchanged |
| Util.SlugifyIdempotent | sync/util.ts:2 | slugifying a slug changes nothing |
| Util.SlugifyKeepsTrailingDash | sync/util.ts:2 | a name whose last character is not alphanumeric gives a slug whose last character is a dash: the trailing dash is not trimmed |
| Util.CollapseKeepsLast | sync/util.ts:2 | collapsing dash runs keeps the last character |
| Util.SlugifyCollapsesDashes | sync/util.ts:2 | `"a--b"` gives `"a-b"` |
| Util.LeadingDigits | sync/util.ts:6 | the greedy `\d+`: the longest all-digit prefix of the name |
| Util.LineHead | sync/util.ts:6 | the greedy `(.+)`: the longest prefix without a line terminator |
| Util.ToDecimal | sync/util.ts:9 | a non-empty digit string whose decimal value is `n` |
| Util.LeadingDigitsOfPrefixed | sync/util.ts:6 | in `digits + " - " + rest`, the leading digits are exactly `digits` |
| Util.PrefixedNameParses | sync/util.ts:6-11 | `digits + " - " + rest` with a non-empty first line of `rest` parses to that line and the decimal value of `digits` |
| Util.OrderPresentIffPrefixed | sync/util.ts:5-25 | an order is found if and only if the name matches `^(\d+) - (.+)`; without one, the name comes back unchanged |
| Util.OrderRoundTrip | sync/util.ts:5-25 | for every `n` and non-empty one-line `rest`, the prefix `n - ` is read back as `n` and the name as `rest` |
| Util.OneLineHead | sync/util.ts:6 | `(.+)` takes the whole of a name without line terminators |
| Util.OrderExampleSetup | sync/util.ts:5-25 | `"10 - Go"` has order 10 and name `"Go"` |
| Util.OrderExampleLeadingZeros | sync/util.ts:9 | `"007 - Go"` has order 7 |
| Util.OrderExampleNoDigits | sync/util.ts:12-16 | `"Setup"` has no order and keeps its name |
| Util.OrderExampleNoSeparator | sync/util.ts:6 | `"10 -Setup"` has no order |
| Util.OrderExampleEmptyRest | sync/util.ts:6 | `"10 - "` has no order: `(.+)` needs a character |
| Util.OrderExampleMultiLine | sync/util.ts:6-11 | `"2 - One\nTwo"` has name `"One"`: the match stops at the line break |
| Slugify.Slugify | sync/slugify.ts:1-3 | same length as the name; each space becomes `-`, each ASCII capital its lower case, and every other character stays in place; no spaces or capitals remain |
| Slugify.SlugifyIdempotent | sync/slugify.ts:2 | slugifying twice is slugifying once |
| Slugify.DashesNotCollapsed | sync/slugify.ts:2 | the dashes of the result are the spaces plus the dashes of the name: none are collapsed |
| Slugify.SlugifyKeepsDashRun | sync/slugify.ts:2 | `"a  b"` gives `"a--b"` |
| Slugify.SlugifyKeepsPunctuation | sync/slugify.ts:2 | `"My Doc!!"` gives `"my-doc!!"` |
| MirrorSpec.SlugDeterminesNode | sync/util.test.ts:3-110 | with unique slugs, two nodes of the forest with the same slug are the same node |
| MirrorSpec.Find | sync/util.test.ts:3-49 | the node found carries the slug and is a node of the forest; nothing is found exactly when no node at any depth carries the slug |
| MirrorSpec.FindUnique | sync/util.test.ts:3-49 | with unique slugs, the search returns the one node that carries the slug |
| MirrorSpec.RemoveFindsSlug | sync/util.test.ts:51-72 | removal returns nothing exactly when no node carries the slug, and then leaves the forest unchanged; otherwise the removed node carries the slug |
| MirrorSpec.RemoveConserves | sync/util.test.ts:51-72 | the slugs before removal are the slugs after it plus the slugs of the removed subtree |
| MirrorSpec.RemovePreorder | sync/util.test.ts:51-72 | every other document keeps its pre-order place: the slugs before removal are the slugs after it with the removed subtree's slugs put back at one position |
| MirrorSpec.RemoveBelowPreorder | sync/util.test.ts:66-68 | the same for a removal below the top-level list |
| MirrorSpec.RemovedIsNode | sync/util.test.ts:67-71 | the removed node is a node of the forest, with its own children |
| MirrorSpec.RemoveDetaches | sync/util.test.ts:51-72 | with unique slugs, the node removed is the node the search finds, its slug is gone from the forest, and slugs stay unique |
| MirrorSpec.AppendUnderFindsParent | sync/util.test.ts:97-98 | after the append, the parent is found with the new node as its last child |
| MirrorSpec.AppendUnderConserves | sync/util.test.ts:97-98 | the append adds exactly the new subtree's slugs |
| MirrorSpec.AppendUnderHoldsNode | sync/util.test.ts:97-98 | the new node is in the forest after the append |
| MirrorSpec.AppendUnderPreorder | sync/util.test.ts:97-98 | every existing document keeps its pre-order place: the new subtree's slugs are inserted at one position |
| MirrorSpec.AppendAtNodePreorder | sync/util.test.ts:97-98 | appending to one node's children inserts the new slugs right after that node's subtree |
| MirrorSpec.AppendInChildrenPreorder | sync/util.test.ts:97-98 | an insertion among a node's descendants is an insertion in the whole list |
| MirrorSpec.AppendInTailPreorder | sync/util.test.ts:97-98 | an insertion among later siblings is an insertion in the whole list |
| MirrorSpec.Add | sync/util.test.ts:74-110 | with no parent the node is appended to the top-level list; with a parent, the add succeeds exactly when some node carries the parent slug, and the parent is then found with the node as its last child; a successful add keeps every existing document in its pre-order place and inserts the node's slugs at one position; a failed add changes nothing |
| MirrorSpec.AddPlacesNode | sync/util.test.ts:74-110 | a successful add puts the node in the forest and adds exactly its slugs |
| MirrorSpec.AddKeepsUnique | sync/util.test.ts:74-110 | adding a subtree whose slugs are new keeps slugs unique, whatever the parent |
| MirrorSpec.MoveRoundTrip | sync/util.test.ts:51-110 | removing a node and adding it under another node keeps every slug exactly once, finds the moved node by its slug, and makes it the new parent's last child |
| MirrorSpec.FindScenarios | sync/util.test.ts:3-49 | the top-level match, the match below `a` and `b`, and the miss of the unit test |
| MirrorSpec.RemoveMissingScenario | sync/util.test.ts:51-65 | removing `d` from the tree `a(b)` finds nothing and keeps the tree |
| MirrorSpec.RemoveNestedScenario | sync/util.test.ts:66-71 | removing `b` returns `b` and empties `a`'s children; removing `a` next returns `a` and empties the tree |
| MirrorSpec.AddNestedScenario | sync/util.test.ts:74-99 | adding `d` under the nested `c` succeeds and makes `d` `docs[0].children[1].children[0]`, the rest of the tree unchanged |
| MirrorSpec.AddFailsThenTopScenario | sync/util.test.ts:101-110 | then adding under the missing `g` fails and changes nothing, and adding with no parent succeeds and puts `x` at `docs[1]` |
| Mirror.DocNode.Leaf | sync/util.test.ts:4-7 | a fresh node with the slug and no children |
| Mirror.RemoteTreeEntry.constructor | sync/util.test.ts:59-62 | a fresh category entry with no documents |
| Mirror.FindIn | sync/util.test.ts:3-49 | over a list of owned nodes: returns null exactly when the value search finds nothing, otherwise the node whose value the search finds |
| Mirror.FindSlugInCategory | sync/util.test.ts:3-49 | null exactly when no node carries the slug; otherwise a node of the tree with that slug, the one the value search finds |
| Mirror.RemoveIn | sync/util.test.ts:51-72 | splices the node out of the list or from below it; the new list and the removed node match the value removal, and the removed subtree leaves the footprint |
| Mirror.RemoveBelowIn | sync/util.test.ts:67-68 | searches below each node in order and splices the node out of the children list that holds it, as the value removal does |
| Mirror.DetachBelow | sync/util.test.ts:67-68 | removes the slug from below one node, updating that node's children in place |
| Mirror.RemoveSlugFromTree | sync/util.test.ts:51-72 | returns null exactly when no node carries the slug, and then changes nothing; otherwise returns the removed node, detached from the tree, and the tree's value becomes the value removal's result |
| Mirror.AppendChild | sync/util.test.ts:97-98 | appends the node to the parent's children in place |
| Mirror.AddUnderIn | sync/util.test.ts:97-103 | finds the parent in a list of owned nodes and appends to its children; returns null and changes nothing when no node carries the slug |
| Mirror.AddBelow | sync/util.test.ts:97-98 | the same, below one node |
| Mirror.AddDocUnderSlug | sync/util.test.ts:74-110 | the result and the new tree value are those of the value add; with no parent the node is appended to `docs`; with a parent, some node with that slug has the new node appended to its children; a failed add changes nothing |
| FileSystem.Lookup | sync/validation.ts:8 | `data[key]`: undefined exactly when no entry has the key, otherwise the value of an entry with it |
| FileSystem.LastDot | sync/index.ts:28 | the position of the last dot of a name, or none |
| FileSystem.Stem | sync/index.ts:28 | `path.parse(...).name` is a prefix of the base name |
| FileSystem.MarkdownStem | sync/index.ts:28 | a markdown name loses exactly its `.md` |
| FileSystem.DotFileStem | sync/index.ts:28 | a name whose only dot is its first character keeps it |
| FileSystem.StemExamples | sync/index.ts:28 | the names of `.DS_Store`, `index.md`, `images`, `..` and `notes.v2.md` |
| Validation.KeyProblemsExact | sync/validation.ts:11-16 | a key problem is reported for key `k` exactly when `k` is present and is neither `title` nor `hidden` |
| Validation.ProblemsExact | sync/validation.ts:6-29 | the reported problems are the invalid keys, a title problem exactly when the title is missing or not a string, and a hidden problem exactly when `hidden` is present and neither null nor a boolean; there are none exactly when the front matter is valid |
| Validation.CheckDoc | sync/validation.ts:6-29 | the loop reports exactly those problems, all checks run, and the result is true exactly when the front matter is valid |
| Validation.FoldAppend | sync/validation.ts:46 | folding over two lists of files is folding over the first and then the second |
| Validation.FoldAfterFailure | sync/validation.ts:46 | once `passed` is false, no later document is checked |
| Validation.FoldPassedStep | sync/validation.ts:46 | after one more file, the verdict is true exactly when it was true before and that file's front matter is valid |
| Validation.AllPassFold | sync/validation.ts:46 | when every file's front matter is valid, the verdict is true |
| Validation.FoldPassed | sync/validation.ts:46 | the fold passes exactly when every file's front matter is valid |
| Validation.FoldStopsAtFailure | sync/validation.ts:46 | the first invalid file is the last one checked, and the result is false |
| Validation.FoldPrintsAll | sync/validation.ts:46 | while every earlier file is valid, the next file's problems are all reported |
| Validation.GroupChildrenFiles | sync/validation.ts:49-58 | in a group, exactly the non-dot markdown entries are read, and they are files |
| Validation.CategoryEntriesFiles | sync/validation.ts:40-62 | in a category, exactly the non-dot markdown entries, and the markdown children of its other entries, are read, and they are files |
| Validation.LastEntryFiles | sync/validation.ts:41-61 | the files one category entry contributes |
| Validation.CategoriesFiles | sync/validation.ts:35-63 | exactly the files under the non-dot directory categories are read |
| Validation.TreeFiles | sync/validation.ts:32-66 | when the walk completes, the docs root is a directory and the files read are exactly the markdown files at depth one and inside depth-one groups of its categories |
| Validation.GroupChildrenThrowsAt | sync/validation.ts:49-58 | one child that throws makes the group throw |
| Validation.CategoryEntriesThrowsAt | sync/validation.ts:40-62 | one entry that throws makes the category throw |
| Validation.CategoriesThrowsAt | sync/validation.ts:35-63 | one category that throws makes the walk throw |
| Validation.StrayEntryThrows | sync/validation.ts:40-49 | a non-dot `.md` entry that is not a file, or a non-dot other entry that is not a directory, makes `ensureFrontMatter` throw |
| Validation.StrayGroupChildThrows | sync/validation.ts:49-56 | a non-dot `.md` child of a group that is not a file makes `ensureFrontMatter` throw |
| Validation.ResultPassedIff | sync/validation.ts:32-66 | when it returns, `ensureFrontMatter` is true exactly when every file the walk reads has valid front matter |
| Validation.CheckFile | sync/validation.ts:45-46 | reads one document and folds it in: it throws exactly when `ReadMd` does (the path is not a file) and its progress is the fold over what `ReadMd` reads |
| Validation.CheckGroup | sync/validation.ts:49-58 | the loop over a group directory: its throw flag and its progress are those `Group` defines |
| Validation.CheckCategory | sync/validation.ts:35-39 | one top-level entry: a dot entry or a non-directory changes nothing, a missing one throws, a directory runs its entry loop; throw flag and progress are those of `Category` |
| Validation.CheckCategoryEntries | sync/validation.ts:40-62 | the loop over a category's entries: its throw flag and its progress are those `CategoryEntries` defines |
| Validation.EnsureFrontMatter | sync/validation.ts:32-66 | the whole walk: the outcome, thrown or returned with its boolean, and the problems reported are those of the reference fold over `Tree` |
| Validation.GroupChildrenThrew | sync/validation.ts:49-58 | once a prefix of a group's children throws, the rest of the group adds nothing |
| Validation.CategoryEntriesThrew | sync/validation.ts:40-62 | once a prefix of a category's entries throws, the rest adds nothing |
| Validation.CategoriesThrew | sync/validation.ts:35-63 | once a prefix of the categories throws, the rest adds nothing |
| Remote.ThenAssoc | sync/index.ts:70-75 | awaited steps compose associatively: how a sequence of steps is grouped does not change its calls or whether it throws |
| Remote.ThenNothing | sync/index.ts:70-75 | a step that issues no call and does not throw is neutral on either side; after a throw, no later step adds a call |
| Remote.ThenStops | sync/index.ts:109-129 | two runs in which nothing follows a rejection compose into one |
| Remote.Client.constructor | sync/client.ts:37-47 | the log starts empty |
| Remote.Client.CreateDoc | sync/client.ts:37-39 | appends the create to the log and returns the store's reply |
| Remote.Client.UpdateDoc | sync/client.ts:41-43 | appends the update to the log and returns the store's reply |
| Remote.Client.DeleteDoc | sync/client.ts:45-47 | appends the delete to the log and returns the store's reply |
| EngineSpec.FindExisting | sync/index.ts:30-35 | the first remote document that has the slug, itself or through a child; none exactly when no document has it |
| EngineSpec.UpsertDocDecides | sync/index.ts:26-57 | no call exactly when the category is missing from the remote tree or the path is not a file, and then it throws; otherwise one call, an update exactly when a remote document or child has the slug and a create otherwise; the form holds the slug, the title, the body, the category id and the parent id, and is never hidden; it throws exactly when the store rejects the call |
| EngineSpec.MarkdownSlugNotSlugified | sync/index.ts:28 | the file `My Doc.md` is sent as `My Doc`; an empty slug option counts as absent |
| EngineSpec.UpsertDocStops | sync/index.ts:50-56 | a rejected call ends the upsert |
| EngineSpec.DirChildCalls | sync/index.ts:71-74 | one entry of a group: `index.md` issues no call; any other entry, when it completes, upserts its stem under the index document |
| EngineSpec.UpsertsAppend | sync/index.ts:70-75 | two runs of upserts under the same parent concatenate to upserts under that parent |
| EngineSpec.DirChildrenCalls | sync/index.ts:70-75 | when it completes, every entry but `index.md`, in listing order, is upserted under the index document |
| EngineSpec.UpsertDirMissingIndex | sync/index.ts:62-66 | a group without `index.md` issues no call and does not throw |
| EngineSpec.UpsertDirCalls | sync/index.ts:59-76 | when it completes, the first call is the index with the slugified directory name and no parent, the store accepted it, and every later call is a child, in listing order, with the index document's id as parent |
| EngineSpec.DirChildrenStops | sync/index.ts:70-75 | a rejected child upsert ends the group |
| EngineSpec.UpsertDirStops | sync/index.ts:59-76 | nothing follows a rejected call in a group |
| EngineSpec.MatchingEntry | sync/index.ts:80 | the first local entry whose slug is the remote document's slug; none exactly when no entry slugifies to it |
| EngineSpec.ChildDeletesCovers | sync/index.ts:83-88 | when the child pass completes, every child whose parent has no local entry or whose `<slug>.md` is missing is deleted |
| EngineSpec.ChildDeleteWitness | sync/index.ts:83-88 | each call of the child pass deletes a named child that is gone |
| EngineSpec.ChildDeletesOnlyGone | sync/index.ts:83-88 | the child pass deletes nothing but children that are gone |
| EngineSpec.ChildDeletesExact | sync/index.ts:83-88 | when the pass completes, it deletes every remote child whose parent has no local entry or whose `<slug>.md` is missing, and deletes nothing else |
| EngineSpec.DocDeletesOrder | sync/index.ts:78-97 | for one remote document, when the pass completes, the child deletes that `ChildDeletesExact` characterises come first; the document itself is deleted after them, exactly when the matching entry has no `index.md` and the category has no `<slug>.md`; every call is a delete |
| EngineSpec.DeleteDocsAllDeletes | sync/index.ts:78-97 | the deletion pass issues only deletes, and nothing follows a rejected delete |
| EngineSpec.ChildDeletesStops | sync/index.ts:83-88 | the child pass issues only deletes, and nothing follows a rejected one |
| EngineSpec.UpsertDirNoDeletes | sync/index.ts:59-76 | a group issues no delete |
| EngineSpec.DirChildrenNoDeletes | sync/index.ts:70-75 | the children of a group are upserted, never deleted |
| EngineSpec.CategoryDocsFacts | sync/index.ts:116-125 | the upserts of a category issue no delete, and nothing follows a rejection |
| EngineSpec.ThenOrdersDeletes | sync/index.ts:116-127 | upserts followed by deletes never put an upsert after a delete |
| EngineSpec.SyncCategoryOrder | sync/index.ts:116-127 | within a category, no create or update follows a delete, and when the upserts abort no delete is issued |
| EngineSpec.MissingCategoryThrows | sync/index.ts:127 | a non-dot local category missing from the remote tree throws before any call |
| EngineSpec.NoTreeNoCalls | sync/index.ts:30 | without its remote category, no upsert in a category issues a call |
| EngineSpec.SyncCategoriesStops | sync/index.ts:109-129 | across all categories, nothing follows a rejected call |
| EngineSpec.FetchAllErrored | sync/index.ts:137-162 | the gate closes exactly when some non-dot local category's fetch answers 404 |
| EngineSpec.FetchAllTree | sync/index.ts:141-153 | the remote tree holds exactly the slugs of non-dot local categories that were found with a matching slug, each with the fetched category and documents |
| EngineSpec.MainFailClosed | sync/index.ts:131-169 | if any non-dot local category answers 404, `main` issues no call; otherwise it runs `sync` on the fetched tree |
| EngineSpec.MainStops | sync/index.ts:131-169 | in a whole run, nothing follows a rejected call |
| Engine.UpsertDoc | sync/index.ts:26-57 | appends to the client's log exactly the calls of `UpsertDocSpec` and returns its document |
| Engine.UpsertDir | sync/index.ts:59-76 | appends exactly the calls of `UpsertDirSpec` and throws exactly when it does |
| Engine.UpsertDirChildren | sync/index.ts:70-75 | the child loop: appends exactly the specified calls and throws exactly when they abort |
| Engine.DeleteNotPresent | sync/index.ts:78-97 | appends exactly the deletes of `DeleteNotPresentSpec` and throws exactly when it does |
| Engine.DeleteDoc | sync/index.ts:79-95 | one remote document's deletes, as specified |
| Engine.UpsertCategory | sync/index.ts:116-125 | the entry loop of one category, as specified |
| Engine.SyncOne | sync/index.ts:110-127 | one category: its upserts, then its deletion pass, as specified |
| Engine.Sync | sync/index.ts:109-129 | `sync`: appends exactly the specified calls and throws exactly when it does |
| Engine.Launch | sync/index.ts:131-169 | `main`: the fetch loop builds the specified tree and gate, and the run appends exactly the specified calls |
| Engine.DirChildrenThrew | sync/index.ts:74 | once a child upsert throws, the rest of the group adds nothing |
| Engine.ChildDeletesThrew | sync/index.ts:86 | once a child delete throws, the rest of the child pass adds nothing |
| Engine.DeleteDocsThrew | sync/index.ts:79-96 | once a delete throws, the rest of the deletion pass adds nothing |
| Engine.CategoryDocsThrew | sync/index.ts:116-125 | once an upsert throws, the rest of the category adds nothing |
| Engine.SyncCategoriesThrew | sync/index.ts:110-128 | once a category throws, the rest of the run adds nothing |

## Left out

- The HTTP client of `sync/client.ts` and `sync/readme.ts` is not part of this model: URLs, authentication and the `got` library. A call is a log entry, and the store's reply is a fixed function of the call (accepted with a document, or rejected). The model does not capture a store whose answer depends on earlier calls.
- `getCategory` and `getCategoryDocs` are one fetch result per slug: found with a category and its documents, a 404, or any other failure. Their concurrency under `Promise.all` is not modelled.
- Non-404 fetch errors, and a fetched category whose slug differs (the failed `assert`), are swallowed. The category is then simply absent from the remote tree, as in the code; nothing more about them is modelled.
- gray-matter parsing is not modelled. A file holds its already parsed front matter, as ordered key/value pairs, and its body. A front-matter value is a string, a boolean, a number, null or something else.
- A file whose front matter does not parse, on which `matter()` throws in `sync/validation.ts` and `sync/index.ts`, is not represented: every file read here has parsed front matter. The pairs may repeat a key, which a parsed object cannot; `FileSystem.Lookup` then takes the first.
- `fs` and `path` become a snapshot: a map from component paths to files and ordered directory listings. Path normalisation is not modelled, so a slug containing `/` or `..` names a single component here.
- Console output is not modelled in the engine. The validator's error lines are kept, as a list of problems. The engine's "requires an index.md page" report is a call-free, non-throwing return.
- yargs argument parsing is not modelled. The docs root is the empty path, and the API key and version are not represented.
- chalk colouring and the remote-tree dump of `main` are not modelled.
- Strings are sequences of characters, and `toLowerCase` is modelled on ASCII letters only. Other letters are left unchanged.
- Util.DecimalValue: `parseInt` is exact on unbounded naturals here. Very long digit strings lose precision as JavaScript numbers, and that loss is not modelled.
- The `assert(fs.statSync(...).isFile)` and `isDirectory` calls of `upsertDoc` and `upsertDir` test a method reference, so they never fire. They throw only when the path is missing, and the read that follows throws then too.
- The tree operations `findSlugInCategory`, `removeSlugFromTree` and `addDocUnderSlug` have no implementation among the repository's files: `sync/util.ts` does not define them. They are modelled from the assertions of `sync/util.test.ts`:
  - search is depth-first, in pre-order;
  - removal searches a list before the children of its nodes;
  - an add appends to the children of the node the search finds.
- The category field of a mirror entry is not modelled: the tests set it to null and never read it.
- Object identity in the tests (`toBe`) is the identity of the `DocNode` returned. Slugs are compared by value.
- Remote.Client: a rejected call is appended to the log before the reply is known. This records that the request was sent, not that it took effect.
