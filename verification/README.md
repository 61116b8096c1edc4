# oproxy, modelled and verified in Dafny

oproxy is an intercepting HTTP proxy with a control plane and an assistant that can
change its configuration after the user confirms. This project models the parts of
oproxy whose correctness does not follow from reading one function, and proves what
they promise over every input, every run or every interleaving.

Run `dafny verify dfyconfig.toml` to check everything.

## What is modelled

**Storage and shared state**

- `AtomicStorage` is the write-temp-then-rename protocol as a transition system: any
  number of saves in flight, partial writes, failures and crashes at any point. The save
  counter is 64 bits wide and wraps.
- `ScriptStore` puts the script handlers on top of it: a write lock that is held across
  the save, interleaved with the saves of all other files and with restarts.
- `RuleSets` has create, update, delete and reorder on a rule collection, as the HTTP
  handlers and the assistant perform them; `Items` holds what scripts and rules share.

**The assistant**

- `Confirmation` is the table of pending actions with its tokens, expiry and cap of 50.
- `PayloadRepair` is the repair and normalisation of action payloads, `RepairMeaning` says
  what they make of a payload, and `ProposedRuns` joins them with the table: what runs is
  what was proposed.
- `Canonical` is the canonical JSON form behind the optimistic preconditions.

**The workspace**

- `NormalForms`, `Workspace` and `WorkspaceRuns` model patches and actions with
  optimistic concurrency, the list and field normalisers, and whole runs from the
  default state. `WorkspaceEffects` says what each request changes and what it leaves.

**Sessions**

- `Sweep`, `Connections` and `ConnectionsMeaning` are the concurrency sweep and the
  aggregation of exchanges into connections.
- `Listing` filters, counts, sorts and pages the session list, and `ListingMeaning` says
  what its filters and sort keys mean.

**Codecs, export and redaction**

- `Curl`, `CurlTokens`, `CurlHeaders`, `CurlRoundTrip`, `CurlConservation` and
  `CurlImport` are the raw curl export, the curl import with its own tokeniser, and the
  exact condition under which the second undoes the first. `PosixShell` reads the same
  export by sections 2.2.1 to 2.2.3 of the POSIX Shell Command Language, and `CurlMeaning`
  says what any curl command stands for, exported here or not.
- `Har` converts exchanges to HAR 1.2 entries and back, and `HarMeaning` says what an entry
  shows of an exchange and what an import recovers.
- `Grpc` encodes and decodes Length-Prefixed-Message framing.
- `Replacing`, `Redaction`, `KeyRedaction` and `Secrets` redact known values and
  sensitive keys, collect a request's secrets, and say where a response can still show them.

`Options`, `Json`, `Text`, `Numerals`, `Selections`, `Sorting` and `Counting` are shared vocabulary.

## How it is modelled

- Code that works by changing things step by step is a method or a class, proved against
  a specification function; theorems are then proved about that function, or about a
  transition system built from it.
- What a specification function computes is in turn compared with a relation that says it
  without computing: positions for filters, places of first appearance for lists without
  duplicates, printed numbers, spelled tokens. A lemma named `...Exactly` is such a
  comparison, and mostly an equivalence.
- Time is an integer; identifiers drawn from a random source are parameters, with
  freshness assumed only where a theorem needs it.
- A JSON object is the sequence of its entries. Header maps are sequences of pairs with
  lower-case names, in insertion order.
- Library functions that cannot be seen (JSON text, URL parsing, base64, RFC 3339, lossy
  UTF-8, SHA-256, regular expressions, rounding to doubles) are function parameters. Each
  theorem states the laws it needs of them.

## Where code and documentation part

The model follows the code in each case.

- The comment in `register_pending_action` says that a full table drops the
  oldest-inserted entry; the code drops whichever key the hash map lists first. The
  victim is arbitrary here, so the protocol theorems hold for any choice.
- A single quote ends a token in the curl import, even inside a word
  (src/export.rs:272). So although the exporter quotes header values and bodies
  correctly for a shell, oproxy's own import never reads back a URL, a header or a body
  that holds one. `ImportInvertsExport` says exactly which requests come back, for every
  request. The hard half is that later tokens cannot repair a broken one; it follows from
  a conservation law (`OptionsWeight`): the parts read never weigh more than the text.
- The exporter does not quote the method at all, and does not escape the URL and the
  header names. `ShellRunsTheRequest` says exactly when a shell still hands curl the
  request: the method is one plain word, and neither the URL nor a header name holds a
  single quote. `QuotedUrlExample` is a URL that does.
- The comment above the save counter promises that concurrent saves never share a temp
  file. Two saves to one file do share one if 2^64 saves begin in between
  (`SharedTemp`); runs in which a save is still in flight after such a lap are excluded.
- Ids need not stay unique. `update_script` and `update_mock_rule` store the body's own id
  without comparing it with the id in the path, and the assistant's create keeps an id it
  is given for a script or a mock rule. `RequestKeepsUnique` says for each of these
  requests exactly when it keeps ids unique. The handlers for rewrite rules, access rules,
  map-local and map-remote rules set the id first; there only a reordering that repeats a
  known id can do harm, and `RunKeepsUnique` says exactly when a run does none.
- At version 2^64 - 1 the workspace version stays where it is, and the same base version
  is accepted again (`SaturatedVersionAcceptsTwice`). Below it, never
  (`OnePatchPerVersion`).
- A known value that can overlap the marker `[redacted]` may survive redaction.
  `AlwaysGoneExactlyWhenNoClash` characterises the values that never do.
- The host facet counts spellings, the host filter ignores case: choosing a host can list
  more sessions than its facet announced (`HostFacetPredictsFilter`).
- A comment says that sessions without a captured protocol come last in an ascending sort
  (src/api/mod.rs:412). Their key is the empty text, so they come first
  (`NoProtocolComesFirst`).
- HAR times are doubles. Beyond 2^53 ms, where a sum may not be one, adding the set-up
  times to the wait can lose the wait (`LongWaitIsLost`). `ExportIsFixedPoint` says exactly
  when it does not.
- Response headers are redacted by key alone (src/har.rs:533), so a secret that is echoed
  under an insensitive header name is exported (`EchoedSecretIsExported`). Bodies are
  redacted as text, but binary ones are exported in base64 (src/har.rs:26-32), and that
  form can be a secret again (`EncodedSecretIsExported`). `SecretReflectedExactly` says that
  these are the only ways, apart from words the exporter writes itself, such as the status
  text; under a content type that is not binary only the headers are left
  (`SecretReflectedOnlyByHeaders`).
- A value one object below a sensitive key is redacted in its own body, but is not a known
  value for the response (`NestedValueNotCollected`).
- `reorder_rule_sets` copies a rule once for each time a known id is requested, so it is a
  permutation exactly when no known id is repeated (`ReorderIsPermutation`).

## Model

| member | source | states |
|---|---|---|
| `AtomicStorage.AtomicSaves` | src/storage.rs:17-31 | in every run of any interleaved saves, partial writes, failures and crashes, each stored file holds its initial contents or one whole save made to it, and no two saves in flight share a temp file |
| `AtomicStorage.RenamePublishes` | src/storage.rs:22-31 | a save that reports success has published exactly its own contents |
| `AtomicStorage.OnlyRenameChanges` | src/storage.rs:22-31 | no step but a rename by a save to that very file changes a stored file |
| `AtomicStorage.RenameMoves` | src/storage.rs:30-30 | a rename moves one file: the target holds what the temp file held, which is gone, and every other file is as it was |
| `AtomicStorage.OnlyOwnFile` | src/storage.rs:22-31 | opening and writing touch a save's own temp file only, and beginning, failing and crashing touch no file |
| `AtomicStorage.StepKeepsInv` | src/storage.rs:17-31 | every enabled step keeps temp files private, in step with their saves, and stored files whole |
| `AtomicStorage.TempNameInjective` | src/storage.rs:25-28 | different files or different counter values give different temp names |
| `AtomicStorage.SharedTemp` | src/storage.rs:17-28 | two saves to one file share a temp file if and only if their numbers differ by a multiple of 2^64 |
| `AtomicStorage.TempIsHidden` | src/storage.rs:24-28 | a temp file is never one of the stored files |
| `ScriptStore.DiskFollowsMemory` | src/control_plane/extensions.rs:99-145 | in every interleaving, with the lock free and the latest save successful, the stored list is the one in memory and loading it gives that list |
| `ScriptStore.StepKeepsInv` | src/control_plane/extensions.rs:99-145 | every step of a handler, of the disk or of a restart keeps the list file to the one save of the lock holder |
| `ScriptStore.DiskStepKeepsInv` | src/control_plane/assistant_actions.rs:827-875 | while the lock holder waits for its save, no step of any other save touches the list file |
| `ScriptStore.StoredListIsWhole` | src/storage.rs:22-49 | the stored file is as it was at boot or the text of one whole list that a request of the run produced, even after failed saves and restarts |
| `ScriptStore.OnlyServedIsSaved` | src/control_plane/extensions.rs:99-145 | whatever a run writes to the script file is the text of a list that one of its requests produced |
| `ScriptStore.RequestKeepsUnique` | src/control_plane/extensions.rs:99-128 | for each kind of request that is carried out, ids stay unique if and only if the id it stores is free or its own; deletes and the assistant's updates always keep them unique |
| `ScriptStore.RequestHasItsEffect` | src/control_plane/extensions.rs:99-145 | the new list is the old one with the script appended under the id it stores, with the first script of that id overwritten, or without every script of that id, all others whole and in order; and it is refused if and only if the id is not there |
| `ScriptStore.ServeStep` | src/control_plane/extensions.rs:115-128 | a request that is carried out leaves its new list in memory and begins to save that list's text; any other changes nothing |
| `ScriptStore.MemoryFollowsRequests` | src/control_plane/assistant_actions.rs:827-875 | however the saves are interleaved, the list in memory is what the requests of the run, one after the other, make of it |
| `Confirmation.ConstantTimeEqIsEquality` | src/control_plane/assistant.rs:361-371 | the length test and XOR/OR fold decide byte equality |
| `Confirmation.AssistantState.PruneExpired` | src/control_plane/assistant.rs:356-359 | exactly the entries that expire later stay, as they were, so any later request finds the same table whether or not this prune took place |
| `Confirmation.AssistantState.RegisterPendingAction` | src/control_plane/assistant.rs:333-354 | the new action is in the table with its token and expiry, and of the others exactly the unexpired ones are left as they were, less one of them when full |
| `Confirmation.AssistantState.ExecuteAction` | src/control_plane/assistant.rs:115-139 | not found, forbidden or run, if and only if the id has no unexpired entry, one with another token, or one with this token; what runs is that entry's action, which goes, and every other unexpired entry is as it was |
| `Confirmation.AssistantState.CancelAction` | src/control_plane/assistant.rs:158-181 | not found, forbidden or cancelled, in the same three cases; a cancelled action goes, and every other unexpired entry is as it was |
| `Confirmation.AtMostFiftyPending` | src/control_plane/assistant.rs:339-350 | at every instant of every run at most 50 actions are pending |
| `Confirmation.TableIsLiveRegistrations` | src/control_plane/assistant.rs:115-181 | the table holds exactly the registrations that have not expired, been consumed or been evicted, each with its own action and token |
| `Confirmation.RunsExactlyWhenLive` | src/control_plane/assistant.rs:115-139 | an execute request runs an action if and only if the id was registered before, is live and unexpired, and the token is its own; what runs is the registered action |
| `Confirmation.AnsweredExactly` | src/control_plane/assistant.rs:115-181 | over every run: an execute or cancel request is answered not found, forbidden or with success if and only if its id has no registration that is alive and unexpired, one with another token, or one with the token presented |
| `Confirmation.OnlyTheNamedGoes` | src/control_plane/assistant.rs:115-181 | success takes away the named action only, and a refusal takes away nothing that is unexpired |
| `Confirmation.ConsumedForGood` | src/control_plane/assistant.rs:135-180 | an action that ran or was cancelled never runs or is cancelled again |
| `PayloadRepair.RepairAssistantPayload` | src/control_plane/assistant_payload_repair.rs:3-36 | the in-place pass terminates on every JSON value, also where it recurses into a value it has just wrapped, and computes the repair that the theorems below are about |
| `PayloadRepair.RepairOneField` | src/control_plane/assistant_payload_repair.rs:7-26 | one entry is wrapped and repaired, converted, or repaired, in that order of preference |
| `PayloadRepair.WrappedHeight` | src/control_plane/assistant_payload_repair.rs:83-102 | wrapping a singleton adds at most one level, which bounds the recursion |
| `RepairMeaning.RepairExactly` | src/control_plane/assistant_payload_repair.rs:3-36 | the repair of a value is the only one in which every field is converted, at every depth, keys and their order and the lengths of arrays being kept |
| `RepairMeaning.FieldExactly` | src/control_plane/assistant_payload_repair.rs:7-26 | under an array key an object becomes its only item and a comma list its items; under a numeric key a number's text becomes the number, and under a boolean key a word its truth value; all else is repaired in place |
| `RepairMeaning.NumberExactly` | src/control_plane/assistant_payload_repair.rs:54-60 | a text becomes the number n if and only if it is n below 2^64 as printed, with white space around it and zeros before it |
| `RepairMeaning.BoolExactly` | src/control_plane/assistant_payload_repair.rs:69-75 | a text becomes true or false if and only if it is that word, in any case, with white space around it |
| `RepairMeaning.ListExactly` | src/control_plane/assistant_payload_repair.rs:84-102 | a text becomes a list if and only if some piece between its commas is not blank, and the items are these pieces, trimmed, in order |
| `RepairMeaning.CompleteExactly` | src/control_plane/assistant_actions.rs:204-245 | a rule keeps every entry it is given and gets exactly the defaults it lacks, each once |
| `RepairMeaning.NormalizeExactly` | src/control_plane/assistant_actions.rs:167-202 | a deletion and a null payload pass as they are, an object is repaired and, on a collection or one of its items, completed with the id of the route, and anything else is refused |
| `PayloadRepair.RepairedExactlyWhenNormal` | src/control_plane/assistant_payload_repair.rs:3-102 | a value is left alone if and only if nothing in it, at any depth, can be wrapped or converted |
| `PayloadRepair.RepairIdempotent` | src/control_plane/assistant_payload_repair.rs:3-36 | a second repair changes nothing, on every JSON value |
| `PayloadRepair.CompleteIsStable` | src/control_plane/assistant_actions.rs:182-229 | the defaults added to a repaired rule need no repair, and adding them again changes nothing |
| `PayloadRepair.NormalizeIdempotent` | src/control_plane/assistant_actions.rs:167-202 | normalisation is idempotent for every method, endpoint, payload and summary |
| `ProposedRuns.WhatRunsWasProposed` | src/control_plane/assistant_actions.rs:430-443 | a confirmed action applies the very payload that was proposed with that token, although it is normalised a second time |
| `ProposedRuns.ProposeExactly` | src/control_plane/assistant_actions.rs:120-152 | a proposal keeps its method, endpoint and summary, and its payload is the one settled for them |
| `Canonical.CanonicalFormDecides` | src/control_plane/assistant_actions.rs:1083-1095 | two JSON values have one canonical form if and only if they are equal up to key order at every depth |
| `Canonical.CollectSorts` | src/control_plane/assistant_actions.rs:1085-1090 | the canonical entries are strictly sorted and are the canonical forms of exactly the given entries |
| `Canonical.ValidatePreconditions` | src/control_plane/assistant_actions.rs:702-730 | success if and only if every precondition holds now; otherwise the first that does not is reported |
| `Canonical.PreconditionMeansUnchanged` | src/control_plane/assistant_actions.rs:155-165 | with a collision-free digest a precondition holds if and only if the resource still equals the value seen at proposal, up to key order |
| `NormalForms.NormalizeEntries` | src/control_plane/workspace.rs:759-811 | the loop with its seen set gives the normalised entries in order of first appearance, or the first error |
| `NormalForms.NormalizedExactly` | src/control_plane/workspace.rs:759-811 | a list is normalised to what its entries are kept as, each once, in order of first appearance, if every entry passes, and refused otherwise |
| `NormalForms.MethodRuleExactly` | src/control_plane/workspace.rs:762-771 | a method is kept in capitals if and only if it is one of the eight, in any case, with white space around it |
| `NormalForms.BucketRuleExactly` | src/control_plane/workspace.rs:780-789 | a status bucket is kept if and only if it is one of the six with white space around it |
| `NormalForms.HostRuleExactly` | src/control_plane/workspace.rs:820-834 | a host is kept in lower case, without the white space around it and the dots behind it, if and only if that is a host name; white space and dots alone are none |
| `NormalForms.IdRuleExactly` | src/control_plane/workspace.rs:836-850 | an id is kept without the white space around it, up to 256 bytes, and white space alone is none |
| `NormalForms.FixedExactlyWhenSettled` | src/control_plane/workspace.rs:759-811 | a list is unchanged by normalisation if and only if its entries are distinct and each is kept as it is |
| `NormalForms.NormalizeAgain` | src/control_plane/workspace.rs:759-811 | normalising twice is normalising once |
| `NormalForms.MethodRuleStable` | src/control_plane/workspace.rs:759-775 | a kept method is kept unchanged the next time |
| `NormalForms.BucketRuleStable` | src/control_plane/workspace.rs:777-793 | a kept status bucket is kept unchanged the next time |
| `NormalForms.HostRuleStable` | src/control_plane/workspace.rs:820-834 | a kept host, trimmed, stripped of dots and lower-cased, is kept unchanged the next time |
| `NormalForms.IdRuleStable` | src/control_plane/workspace.rs:836-850 | a kept id is kept unchanged the next time |
| `Workspace.WorkspaceCell.ApplyPatch` | src/control_plane/workspace.rs:90-113 | field by field, the copy becomes the patched state, or the patch is refused in exactly the cases the specification refuses it |
| `Workspace.WorkspaceServer.PatchWorkspace` | src/control_plane/workspace.rs:465-493 | all or nothing: a stale base version or a bad patch leaves the shared state as it was |
| `Workspace.WorkspaceServer.ExecuteAction` | src/control_plane/workspace.rs:504-539 | all or nothing for an action, with its payload repaired first |
| `WorkspaceEffects.PatchedExactly` | src/control_plane/workspace.rs:90-113 | a patch gives a workspace if and only if that is valid and differs from the old one in what the patch gives: each plain value, each list and id as normalised, each mentioned view, the version and the time, and nothing else |
| `WorkspaceEffects.SessionsExactly` | src/control_plane/workspace.rs:192-242 | the same for the sessions view, field by field: given values are stored, given lists as normalised, cleared fields are empty, the others stay |
| `WorkspaceEffects.FeaturesExactly` | src/control_plane/workspace.rs:97-103 | each mentioned view is patched, or made and patched, and every other stays |
| `WorkspaceEffects.FilterExactly` | src/control_plane/workspace.rs:599-630 | a filter action stands for the patch that its payload spells out, entry by entry |
| `WorkspaceEffects.PerformExactly` | src/control_plane/workspace.rs:541-696 | each of the six actions does what its name says with the payload's values and changes nothing else |
| `WorkspaceEffects.ActedExactly` | src/control_plane/workspace.rs:504-535 | an action gives a workspace if and only if that is valid and shows the effect of the repaired payload, marked with the action, one version later |
| `WorkspaceEffects.RequestExactly` | src/control_plane/workspace.rs:465-535 | a request leads to exactly the workspace that shows its effect, and changes nothing where there is none |
| `WorkspaceRuns.EveryRun` | src/control_plane/workspace.rs:90-135 | from the default state, after any patches and actions, the state is valid and in normal form, and its version is one more than the number of accepted requests, capped at 2^64 - 1 |
| `WorkspaceEffects.EveryRunInBounds` | src/control_plane/workspace.rs:244-258 | at every point of every run: a query of at most 4096 bytes, distinct methods and buckets from the allowed ones, at most 32 distinct host names, an allowed sort key, and at most 32 feature views with legal keys and ids |
| `WorkspaceRuns.AcceptedStep` | src/control_plane/workspace.rs:465-539 | an accepted request keeps validity and normal form and moves the version by one |
| `WorkspaceRuns.PatchedNormal` | src/control_plane/workspace.rs:192-252 | a patch whose fields pass the normalisers leaves every field in normal form |
| `WorkspaceRuns.PerformedNormal` | src/control_plane/workspace.rs:588-696 | each of the six actions leaves every field in normal form |
| `WorkspaceRuns.DefaultIsNormal` | src/control_plane/workspace.rs:75-87 | the default state is valid and in normal form |
| `WorkspaceRuns.OnePatchPerVersion` | src/control_plane/workspace.rs:465-480 | of several patches on one base version at most one is accepted, unless the version has reached 2^64 - 1 |
| `WorkspaceRuns.SaturatedVersionAcceptsTwice` | src/control_plane/workspace.rs:104-112 | at version 2^64 - 1 the same base version is accepted twice |
| `RuleSets.RuleStore.CreateRule` | src/control_plane/policy.rs:21-33 | the drawn id leads to a rule, no rule with another id is touched, and ids are unique afterwards if and only if they were before and the id was new |
| `RuleSets.RuleStore.UpdateRule` | src/control_plane/policy.rs:35-53 | the first rule with that id is replaced, keeping the id, if and only if there is one |
| `RuleSets.RuleStore.DeleteRule` | src/control_plane/policy.rs:55-72 | every rule with that id goes and no other, and success means that there was one |
| `RuleSets.RuleStore.Reorder` | src/control_plane/policy.rs:118-130 | the two passes build the requested rules followed by the rest |
| `RuleSets.OperationHasItsEffect` | src/control_plane/policy.rs:21-72 | bodies included, a create appends exactly the rule, an update overwrites exactly the first rule with the id, and a delete leaves exactly the others, in order |
| `RuleSets.ReorderExactly` | src/control_plane/policy.rs:118-130 | a reordering is the requested rules that exist, in request order, and behind them exactly those nobody asked for, in their old order |
| `Items.WithoutIds` | src/control_plane/policy.rs:61-63 | exactly the deleted id disappears from the ids |
| `Items.AppendKeepsUnique` | src/control_plane/policy.rs:25-27 | appending keeps ids unique if and only if the id is new |
| `RuleSets.OperationKeepsUnique` | src/control_plane/assistant_actions.rs:659-700 | a create, update, delete or reordering keeps ids unique if and only if a created id is new and no known id is requested twice |
| `RuleSets.RunKeepsUnique` | src/control_plane/policy.rs:21-137 | over every run of these requests ids are unique at each point if and only if each request is safe when its turn comes |
| `Items.OverwriteKeepsUnique` | src/control_plane/extensions.rs:113-128 | overwriting an item without setting its id keeps ids unique if and only if it brings the old id or one nobody else has |
| `RuleSets.ReorderIsPermutation` | src/control_plane/policy.rs:118-130 | with unique ids, reordering is a permutation if and only if no known id is requested twice |
| `RuleSets.ReorderKeepsUnique` | src/control_plane/policy.rs:118-130 | and exactly then the ids stay unique |
| `RuleSets.PickedInRequestOrder` | src/control_plane/policy.rs:118-122 | the known requested ids come first, in request order |
| `RuleSets.UnlistedKeepsOrder` | src/control_plane/policy.rs:123-128 | rules not requested come last, in their original order |
| `Sweep.PeakConcurrency` | src/control_plane/sessions.rs:404-419 | the result is the maximum over all instants of the number of intervals open then, an empty interval counting for nothing |
| `Sweep.RunningPeak` | src/control_plane/sessions.rs:411-418 | the running maximum bounds every level and is attained, although the running count may dip below zero within a tie |
| `Sweep.LevelIsPrefixTotal` | src/control_plane/sessions.rs:409-418 | the events up to an instant are a prefix of the sorted events, whose sum is the number of open intervals |
| `Sweep.StartBelowLevel` | src/control_plane/sessions.rs:409-418 | after a start the running count does not exceed the level of that instant, because ends sort first |
| `Sweep.CollectEvents` | src/control_plane/sessions.rs:405-408 | one start and one end per interval, the end never before the start |
| `Connections.AggregateConnections` | src/control_plane/sessions.rs:103-198 | every connection id once, each summary describing exactly its exchanges, member counts summing to the exchanges that carry an id, most recent activity first |
| `Connections.Group` | src/control_plane/sessions.rs:107-118 | ids in order of first appearance, each with all of its exchanges in recording order |
| `ConnectionsMeaning.FirstSeenExactly` | src/control_plane/sessions.rs:106-117 | the connections are taken in order of first appearance, each once |
| `ConnectionsMeaning.MembersSelected` | src/control_plane/sessions.rs:110-114 | the members of a connection are exactly the exchanges recorded on it, in their order |
| `Connections.Summarize` | src/control_plane/sessions.rs:121-192 | first and last activity, hosts, streams, span and peak are those of the members, whatever their order |
| `Connections.Timeline` | src/control_plane/sessions.rs:142-179 | start offsets are non-negative, the span covers the end of every stream whose end fits in `i64`, and the peak never exceeds the exchange count |
| `Connections.StreamOrder` | src/control_plane/sessions.rs:123 | streams are in stream-id order, those of one id in recording order |
| `ConnectionsMeaning.StreamSays` | src/control_plane/sessions.rs:142-173 | each stream shows its own exchange: id, method, host, the URL up to its query, the measured or recorded status, the whole milliseconds since the first activity, and the latency |
| `ConnectionsMeaning.StreamsByNumber` | src/control_plane/sessions.rs:123 | streams come by number, those without one as if they had number 0 |
| `ConnectionsMeaning.PeakExactly` | src/control_plane/sessions.rs:178-180 | where stream ends fit in `i64`, the peak is the largest number of the listed streams open at one instant |
| `ConnectionsMeaning.SpanExactly` | src/control_plane/sessions.rs:176-178 | and the span is the least that covers the activity and every listed stream |
| `ConnectionsMeaning.ProtocolExactly` | src/control_plane/sessions.rs:128 | the protocol of a connection is the first one recorded on it |
| `Connections.CollectHosts` | src/control_plane/sessions.rs:146-149 | exactly the distinct non-empty hosts of the members |
| `Connections.CollectStreams` | src/control_plane/sessions.rs:142-174 | one stream and one interval per member, and the set of stream ids |
| `Connections.FirstAndLast` | src/control_plane/sessions.rs:129-138 | the earliest start and the latest activity, both attained |
| `Connections.Span` | src/control_plane/sessions.rs:176-178 | the least span that covers the activity and every interval end |
| `Connections.SummaryTotals` | src/control_plane/sessions.rs:103-192 | no exchange is counted twice or lost |
| `Listing.ListSessions` | src/api/mod.rs:127-167 | the requested page of the ordered passing sessions, the totals, and three facets that each sum to the filtered total |
| `Listing.BuildFacets` | src/api/mod.rs:323-340 | the count maps are the facets of the three fields |
| `Listing.PassingExactly` | src/api/mod.rs:130-134 | each session is kept as often as it occurs when it passes both filters, and otherwise not at all |
| `ListingMeaning.PassesExactly` | src/api/mod.rs:249-302 | a session passes if and only if it is recent and meets every filter that is set: method and host in any case, status bucket, a focused host or one below it, and the search for the trimmed query |
| `ListingMeaning.RecentExactly` | src/api/mod.rs:238-247 | a client that asks again gets exactly the sessions of which something was recorded since, and those that still wait for a response |
| `ListingMeaning.PassingSelected` | src/api/mod.rs:130-134 | exactly these are listed, in recording order before they are sorted |
| `Listing.OrderedIsSortedPermutation` | src/api/mod.rs:304-321 | for every sort key and direction, sorting permutes the sessions into that order |
| `ListingMeaning.SortKeyExactly` | src/api/mod.rs:304-316 | what sorting by each key compares |
| `ListingMeaning.AscendingExactly` | src/api/mod.rs:304-321 | ascending means smaller numbers first, and words by their first difference |
| `ListingMeaning.PathExactly` | src/api/mod.rs:361-371 | the path is what stands behind the scheme and the host, or else the whole URL, up to the query |
| `ListingMeaning.NoProtocolComesFirst` | src/api/mod.rs:411-419 | sessions without a captured protocol come first in an ascending sort |
| `ListingMeaning.BodilessExactly` | src/api/mod.rs:146-156 | a listing without bodies drops bodies and payloads and nothing else |
| `Listing.TiesKeepOrder` | src/api/mod.rs:304-321 | sessions with one sort key keep their recording order, and the reverse of it when descending |
| `Listing.PagesJoinToWhole` | src/api/mod.rs:139-144 | the pages at offsets 0, L, 2L, ..., joined, are the unpaged listing, with or without bodies |
| `Listing.FacetCounts` | src/api/mod.rs:323-340 | a facet lists exactly the values that occur, each with its number of sessions |
| `Listing.FacetTotal` | src/api/mod.rs:135-136 | every facet sums to the number of sessions listed |
| `Listing.BucketFacetPredictsFilter` | src/api/mod.rs:260-267 | a status count is the number of sessions that choosing that bucket lists |
| `Listing.VerbFacetPredictsFilter` | src/api/mod.rs:250-258 | a method count is the number of sessions that choosing that method lists |
| `Listing.HostFacetPredictsFilter` | src/api/mod.rs:269-277 | a host count is the number of sessions that choosing that host lists if and only if no other spelling of it passes |
| `Curl.ExportAsCurlRaw` | src/export.rs:14-42 | the pushed and joined parts are the first line, one line per replayable header, and the data line when there is a body |
| `Curl.TokeniseShell` | src/export.rs:256-315 | the loop over three quoting states computes the tokens that the round-trip theorem speaks of, or fails on an unclosed quote |
| `Curl.ParseCurl` | src/export.rs:174-244 | the index-driven option loop reads the options of the tokens in order and validates the method and the URL |
| `CurlMeaning.TokensExactly` | src/export.rs:256-315 | the tokens of a text are exactly those it spells with quotes, escapes and bare words |
| `CurlMeaning.OptionsSaid` | src/export.rs:195-232 | of several options that set the method, the body or one header the last counts, of several addresses the first, and a flag at the end without its value is passed over |
| `CurlMeaning.ImportExactly` | src/export.rs:174-244 | a text is read as a request if and only if its first word is curl and its options spell out that request, the method being GET without one and without a body, and POST without one and with a body |
| `CurlMeaning.EveryImport` | src/export.rs:174-244 | every command that is read at all is read this way |
| `CurlMeaning.HeaderExactly` | src/export.rs:203-211 | a header line has the name and the value around its first colon, trimmed |
| `CurlMeaning.BodyExactly` | src/export.rs:212-218 | the body is the value without the at signs in front of it |
| `CurlMeaning.CommandExactly` | src/export.rs:183-186 | the command is curl, or ends in /curl |
| `CurlTokens.NormaliseFixed` | src/export.rs:177 | rewriting line continuations leaves a text alone if and only if it holds neither of the two |
| `CurlHeaders.HeaderReadBack` | src/export.rs:203-211 | one header comes back if and only if its name is trimmed and colon-free, its value trimmed, and neither holds a line continuation |
| `CurlHeaders.HeadersReadBack` | src/export.rs:203-211 | the parsed headers are the exported ones if and only if each comes back and no name is repeated |
| `CurlRoundTrip.BodyReadBack` | src/export.rs:212-218 | line-continuation rewriting and `@`-stripping leave a body alone if and only if it holds no line continuation and does not start with `@` |
| `CurlImport.ImportInvertsExport` | src/export.rs:174-244 | for every request: importing the export gives back method, URL, replayable headers and body if and only if the request is faithful, that is: method and URL valid and the method not starting with a single quote; URL, header names, values and body free of single quotes and line continuations; names distinct, trimmed and colon-free; values trimmed; body not starting with `@` |
| `CurlImport.PlainHeadersComeBack` | src/export.rs:14-42 | the same equivalence where every header line is read as it was written |
| `CurlImport.QuoteNeverComesBack` | src/export.rs:264-276 | a request with a single quote in its URL, a replayed header or its body never comes back, whatever the rest of it |
| `CurlRoundTrip.QuotedBodyFails` | src/export.rs:270-276 | no body with a single quote comes back, whatever the rest of the text is read as |
| `CurlRoundTrip.CountTokens` | src/export.rs:256-315 | tokens hold no more characters of any kind than the text they were read from, in all three quoting states, counting an escaped n or t as a line end or tab |
| `CurlConservation.OptionsWeight` | src/export.rs:195-232 | whatever the tokens, the method, headers, body and URL read from them weigh no more than the tokens cost |
| `CurlConservation.ReplacedWeight` | src/export.rs:203-211 | a header that is read twice with different values has cost more than it weighs |
| `CurlConservation.OptionTextCost` | src/export.rs:23-41 | the options of an export cost no more than the headers and the body weigh: nothing is written in excess |
| `CurlConservation.BrokenNeverMatches` | src/export.rs:195-232 | after a header token broken by a quote, in the name or the value, no later tokens restore the headers together with the body and the URL |
| `CurlConservation.QuotedVerbFails` | src/export.rs:16-16 | no request whose method is valid and starts with a single quote comes back |
| `CurlImport.QuotedHeaderExample` | src/export.rs:23-31 | GET http://a with the header x: a'b does not come back |
| `PosixShell.QuotedReadsBack` | src/export.rs:27-28 | the single-quoted form of any text, read by the shell's quoting rules, gives back that text inside one word |
| `PosixShell.QuotedIsOneWord` | src/export.rs:37-38 | standing alone, the quoted form is one word |
| `PosixShell.WordsAccount` | src/export.rs:14-42 | however any text reads by the quoting rules, double quotes only ever go, and if none goes, every literal quote or backslash of the words has taken a backslash of the text, as has every joined line |
| `PosixShell.RunsWithoutQuotes` | src/export.rs:16-28 | if the shell hands curl the argument list, then neither method nor URL nor a header name holds a single quote |
| `PosixShell.ShellRunsTheRequest` | src/export.rs:14-42 | for every request: the shell hands curl exactly the method, the URL, the headers and the body if and only if the method is one plain word and neither the URL nor a header name holds a single quote, whatever the header values and the body hold |
| `PosixShell.QuotedUrlExample` | src/export.rs:16-16 | the export of GET http://a/' leaves a quote open, so that a shell reads no command |
| `Har.ExportIsFixedPoint` | src/har.rs:220-344 | importing an exported entry and exporting again gives the same entry if and only if bodies keep their length as text, the status is not zero, the protocol label is trimmed and not blank, and the wait survives the rounding of sums to doubles |
| `Har.ReadTtfb` | src/har.rs:546-550 | the imported time to first byte is the sum of the captured set-up times and the wait, added as doubles and never negative |
| `Har.ImportedTtfb` | src/har.rs:546-550 | where the times and their sums are doubles of 64 bits, it is the larger of the captured time and the set-up time |
| `Har.ExactSumsKeepWait` | src/har.rs:323-341 | and then the wait survives |
| `Har.RequestAgain` | src/har.rs:243-277 | the request part survives if and only if its body keeps its length as text |
| `Har.ResponseAgain` | src/har.rs:430-461 | the response part survives if and only if its status, label and body do |
| `Har.TimingsAgain` | src/har.rs:463-479 | the total time survives whatever its size, and the timings survive if and only if the wait does |
| `Har.ShortTimesKeepWait` | src/har.rs:323-341 | this is so, and the wait survives, where set-up and wait together stay within 2^53 ms |
| `Har.NoSetupKeepsWait` | src/har.rs:323-341 | without set-up times every wait survives, whatever its size |
| `Har.LongWaitIsLost` | src/har.rs:546-550 | with 2^53 ms of name resolution, a wait of 1 ms is lost |
| `Har.GetSurvives` | src/har.rs:552-566 | a header that the export keeps is found again after the import |
| `Har.SameKind` | src/har.rs:26-43 | cutting the parameters off a content type does not change whether its body is binary |
| `HarMeaning.RequestSays` | src/har.rs:243-277 | the exported request shows the method, the URL, exactly the kept headers, the sizes, and the body with the first content type or its default |
| `HarMeaning.ResponseSays` | src/har.rs:279-322 | the exported response shows the status with its phrase, the label, exactly the kept headers, the redirect URL, and the body as text or in base64 |
| `HarMeaning.QueryExactly` | src/har.rs:568-585 | the exported query lists the URL's parameters in order, '+' and %20 read as spaces, a name without '=' having the empty value |
| `HarMeaning.NoQuery` | src/har.rs:568-572 | without a query, or with an empty one, it is empty |
| `HarMeaning.UrlDecodeExactly` | src/har.rs:587-589 | decoding in two passes is reading from left to right in one |
| `HarMeaning.CookiesExactly` | src/har.rs:606-611 | a request's cookies are those of its first cookie header, piece by piece |
| `HarMeaning.SetCookieExactly` | src/har.rs:613-618 | a response's cookie is the one that its first set-cookie starts with |
| `HarMeaning.CookieOfPair` | src/har.rs:620-633 | a cookie has the name and the value around its first '=', trimmed |
| `HarMeaning.StatusTextExactly` | src/har.rs:635-654 | the status text is the reason phrase of RFC 9110, section 15, for the fourteen codes that get one |
| `HarMeaning.RequestRecovered` | src/har.rs:366-428 | an import recovers the exchange and its request, apart from skipped headers and bytes that are no text |
| `HarMeaning.ResponseRecovered` | src/har.rs:430-461 | and the response if it has a status: a binary body whole, any other as text |
| `HarMeaning.MetricsRecovered` | src/har.rs:463-480 | and the figures: status, sizes, label, and each time as the double it became |
| `HarMeaning.ToU64Exactly` | src/har.rs:546-550 | a time from anywhere is read as whole milliseconds, cut off, and clamped to 64 bits at both ends |
| `HarMeaning.MissingParts` | src/har.rs:366-428 | what an entry from elsewhere lacks: a new id, the present for an unreadable start, no update time, and no figures without a time and a status |
| `HarMeaning.HostExactly` | src/har.rs:591-604 | the host of an imported request is what stands between the scheme and the path or the query |
| `Grpc.EncodeGrpcFrame` | src/core/forward.rs:174-180 | a payload shorter than 2^32 bytes is read back by the decoder as one message with its flag and length, and the payload stands behind the five header bytes |
| `Grpc.ValueOfDigits` | src/core/forward.rs:177 | a number that fits is the value of its big-endian bytes |
| `Grpc.DigitsOfValue` | src/control_plane/forward.rs:946-946 | and bytes are the big-endian digits of their value |
| `Grpc.DecodeGrpcMessageLengths` | src/control_plane/forward.rs:941-956 | the index loop computes the messages of the buffer, also where the length saturates |
| `Grpc.DecodeInvertsEncode` | src/control_plane/forward.rs:941-956 | from encoded frames followed by any incomplete frame, exactly their flags and lengths |
| `Grpc.EveryInputIsFrames` | src/control_plane/forward.rs:941-956 | every byte string is whole frames and one incomplete frame, and these frames are what the decoder reports |
| `Grpc.PrefixDecodesToPrefix` | src/control_plane/forward.rs:941-956 | decoding a prefix gives a prefix of the messages |
| `Grpc.FrameReadsBackExactlyWhenItFits` | src/core/forward.rs:174-180 | one encoded frame reads back as itself if and only if its length fits in 32 bits |
| `Redaction.KnownValueGone` | src/redaction.rs:52-60 | a listed value of at least 4 bytes that cannot overlap the marker is gone, whatever the other values and however they overlap |
| `Redaction.BracketFreeCannotClash` | src/redaction.rs:52-60 | a value without square brackets that is not part of "redacted" cannot overlap the marker |
| `Redaction.AlwaysGoneExactlyWhenNoClash` | src/redaction.rs:52-60 | a value never survives, in any text and any list, if and only if it has at least 4 bytes and cannot overlap the marker |
| `Redaction.ClashLetsThrough` | src/redaction.rs:130-132 | for every value that can overlap the marker, some text and list let it through |
| `Replacing.Removed` | src/redaction.rs:52-60 | replacing a pattern that cannot overlap its filling leaves no occurrence, not even across a seam |
| `Replacing.KeptOut` | src/redaction.rs:52-60 | replacing anything else cannot bring such a pattern in |
| `KeyRedaction.RedactJsonValue` | src/redaction.rs:134-152 | the in-place pass over the tree computes the redaction that the theorems below are about |
| `KeyRedaction.RedactionRevealsOnlyTheRest` | src/redaction.rs:134-152 | two values redact alike if and only if they agree outside sensitive keys |
| `KeyRedaction.RedactedAgrees` | src/redaction.rs:134-152 | keys, array lengths and everything outside sensitive keys are kept |
| `KeyRedaction.RedactedIsClean` | src/redaction.rs:134-152 | nothing but the marker is left under a sensitive key, at any depth |
| `KeyRedaction.RedactJsonExactly` | src/redaction.rs:134-152 | the redaction of a value is the only one that agrees with it outside sensitive keys and has nothing but the marker under them |
| `KeyRedaction.RedactFormExactly` | src/redaction.rs:154-169 | the same for forms |
| `KeyRedaction.SensitiveHoweverSpelled` | src/redaction.rs:5-23 | a key is sensitive or not in whatever case, with hyphens for underscores, and with white space around it |
| `KeyRedaction.RedactJsonIdempotent` | src/redaction.rs:134-152 | a second redaction changes nothing |
| `KeyRedaction.RedactedFormParts` | src/redaction.rs:154-169 | the redacted form splits at the same separator into the redacted parts |
| `KeyRedaction.RedactFormFixed` | src/redaction.rs:154-169 | a form is left alone if and only if every sensitive key in it already has the marker as its value |
| `KeyRedaction.RedactFormIdempotent` | src/redaction.rs:154-169 | a second form redaction changes nothing |
| `KeyRedaction.FormRedactionRevealsOnlyTheRest` | src/redaction.rs:154-169 | two forms redact alike if and only if they agree outside the values of sensitive keys |
| `Secrets.CollectSensitiveJsonValues` | src/redaction.rs:88-109 | the recursive collector pushes the collected values after those already found |
| `Secrets.CollectedExactly` | src/redaction.rs:39-50 | the collected values are exactly the trimmed texts, long enough to replace, of sensitive headers, sensitive form pairs, and scalars whose innermost key is sensitive |
| `Secrets.RedactBodyExactly` | src/redaction.rs:62-73 | a blank body stays, a JSON body is printed again and a form written again with nothing but markers under sensitive keys and all else as it was |
| `Secrets.SecretNotInText` | src/har.rs:536-538 | no secret of the request that has at least 4 bytes and cannot overlap the marker is left in the redacted text of the response body, whatever the response holds |
| `Secrets.SecretInBodyOnlyEncoded` | src/har.rs:26-32 | the exported body holds such a secret if and only if the content type is binary and the base64 form of the redacted text happens to hold it |
| `Secrets.NeverInEncoding` | src/har.rs:26-32 | a secret with a character that base64 does not use never comes back that way |
| `Secrets.SecretReflectedExactly` | src/har.rs:525-540 | some text of the exported response (header, cookie, redirect URL, content type, body, status text or protocol label) holds such a secret if and only if an exported header has it in its name, or in its value under an insensitive name, or the base64 form of the body holds it, or it is among the words the exporter writes itself |
| `Secrets.SecretReflectedOnlyByHeaders` | src/har.rs:533-540 | under a content type that is not binary, and unless it is among these words, the headers are the only way |
| `Secrets.EchoedSecretIsExported` | src/har.rs:533-534 | any text that a response echoes as the header x-echo is exported |
| `Secrets.EncodedSecretIsExported` | src/har.rs:499-505 | after a request with the form password=QUJD, a response of type image/png with the body ABC is exported with the body QUJD, although that is a known secret and no header shows it |
| `Secrets.NestedValueNotCollected` | src/redaction.rs:88-97 | a value under an insensitive key below a sensitive one is redacted in place but not collected |

## Left out

- AtomicStorage: power loss and `fsync`; a crash ends the process and the file system survives it.
- Cancellation of a handler in the middle of a save.
- First-run seeding of the script file, and a serialisation failure before any file is touched.
- Agreement of disk and memory for the other stored files: their handlers save a snapshot after releasing the lock, so the code does not promise it.
- The redacted curl export and the fetch and Python exports; only the raw curl export is read back.
- PosixShell: parameter, command and arithmetic expansion, globbing, tilde expansion and comments; a text that would need them reads as no list of words, and an unquoted `*`, `?` or `[` always counts as a pattern, whatever files there are.
- PosixShell: assignments and reserved words, which only matter before the command name.
- Har.ImportedTtfb: its closed form is stated where the sums are doubles; `ReadTtfb` is the statement for all times.
- Har.ExportIsFixedPoint: rounding to doubles is a parameter with the laws `Rounds`; sums of set-up times wrap as in a release build, where a debug build stops.
- Har: the bookkeeping of a whole HAR log, serialisation of entries as JSON text, and the source and frames of an exchange, which HAR does not carry.
- Confirmation: writing the proposal to the client with a redacted payload, and the outcome of the action itself once claimed.
- PayloadRepair: validation of routes and of payload shapes, which passes or refuses a payload without changing it.
- Canonical.ValidatePreconditions: the values of the four named resources are a parameter; any other name fails, as in the code.
- Workspace: the fixed workspace id, the message texts, and the counter of pending actions; JSON is decoded by parameters.
- RuleSets: webhooks and breakpoints, and the call counts of mock rules; the files and path checks of map-local rules, which refuse a rule before the collection is touched.
- Connections.AggregateConnections: activity times are compared as times; the code compares their RFC 3339 texts, which order alike for years 0 to 9999.
- CurlMeaning: the laws of URL parsing; whether a URL is valid is a parameter.
- Connections: the loop over a connection's members is split into one loop per result.
- Sorting: the library's stable sort is represented by an insertion sort on values; only its contract is used.
- Listing: the search query is a parameter of the filter; parsing of search terms is not modelled.
- Secrets.SecretReflectedExactly: sorting and removal of duplicates are represented by any list of the same values, since the theorem holds for each.
- Secrets: a secret counts as reflected where its own text stands in a text of the exported response; forms of it that JSON escapes or another encoding write differently are other texts.
- The proxy engine, session manager, middleware plugins, transports, HTTP routing, event streams, WebSocket and gRPC exchanges, webhooks, playback, certificates and the assistant's provider client.
- Configuration, static tables, prompts, telemetry mapping and the user interface.
