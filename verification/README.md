# Verified model of the TAR registry

A registry of software, deployments, runs and artifacts that talks to other registries. This project
models the parts of it where several functions, several calls or several machines have to agree, and
proves what they keep. Graphs are sets of statements, ops tables are maps and sets, a transaction is
one assignment, and what comes from outside (time, parsers, row order, replies) is a parameter. Code
that changes state is written as classes and methods, each proved against a function of its inputs;
the main theorems are about those functions.

- **Federated search.** `FanOut` is one registry's handler (claim, budgets, whom to ask, merging);
  `Protocol` lets any number of handlers run against each other, any topology and any interleaving;
  `Bounds` proves that every run is finite and how far it can go, `Coverage` that it reaches exactly what
  can be reached, `Conservation` that every hit comes back once where no cap is met, `Completeness` what an
  answer not called partial is worth whatever happened, `SearchAnswer` what the user gets in the end, `NoWayBack`
  that no leg goes back to a registry it came through, `SilentCut` and `HopsRunOut` searches at the default
  settings that lose records unsaid, and when coverage is complete;
  `Copies` merges the copies of a record.
- **Base rebase.** `Bases` (one IRI), `Rewriting` (a base inside text, and the seams of replacement),
  `Rebase` (both stores, stopped and run again), `RebasedKeys` (the idempotency keys afterwards).
- **Advertisement.** `Ledger` (keys, claims and edges over runs of calls), `LedgerFacts` (what one call does),
  `DerivedKeys` (which entries are one artifact) and `LedgerCalls` (the handlers, with the graph transaction staged).
- **Self-registration.** `Registration` (who a credential is, because of the records it made, and what its
  announcements make), `RegistrationCalls` (the handlers), `Merge` (the JSON of a PATCH).
- **Boot.** `Boot` (the graph migrations) and `Bundles` (the digest-guarded copy of the reference data).
- **Walks.** `LineageWalk` and `Lineage`, `Stubs`, `Subclasses`.
- **Edges of the API.** `Paging`, `Literals` (and `LiteralRules`, its reader rule by rule), `ClientAddress`.
- `Options`, `Text`, `Sums` and `Reach` are shared.

`dafny verify dfyconfig.toml` checks the whole project.

## Where the code does something other than its comments or documents say

Each of these is proved, with the exact condition under which the promise holds.

- A further run of the rebase is promised to report nothing. For text columns that holds exactly when old
  and new base have no seam (`Rebase.RerunReportsNothingIff`); `check_bases` accepts
  `http://a/https:` and `https://b`, which have one.
- `partial` marks an answer that lacks a leg or was cut to `max_total_hits`. It is not set when a peer's answer is
  cut to `max_peer_hits`: an answer not called partial holds everything exactly if no answer on the way was longer than
  its receiver takes (`Completeness.NotPartialIsEverythingIff`). No `max_total_hits` above any `max_peer_hits` is
  enough to rule the cut out (`Completeness.SmallAnswersFit`); the defaults are 500 and 100, and at them a
  peer with more than a hundred hits in its answer is enough for the cut (`SilentCut.DefaultCapCutsSilently`).
- Of a refused repeat the propagation specification says that coverage is complete, because another path covered
  the subtree, and `partial` stays unset. A search at rest has covered what can be reached exactly if no registry
  that ran out of hops or met its cap has a peer nobody asked (`HopsRunOut.CoversAllIffNobodyStarved`). In
  `HopsRunOut.ShortWayRefused` the first arrival, the long way round, had no hop left at the default of three.
- A rebase is said to rename idempotency keys so that a retried advertisement is not applied twice. The key moves
  with the run and the artifact exactly if the artifact is not the old base itself and does not hold it further in,
  as an IRI of another registry may (`RebasedKeys.ClaimKeptIff`, `RebasedKeys.ForeignArtifactOutOfStep`). A retry
  whose body is translated on the way in is recognised always (`RebasedKeys.TranslatedRetryRecognised`).
- Announcing or patching a withdrawn record clears its subject first, and with it the withdrawal mark. Owner
  and key stay unique among live records exactly when no write hits a withdrawn record whose pair is taken
  by a live one (`Registration.StepKeepsUniqueIff`); `Registration.UniquenessCanFail` is a run that makes one.
- A credential bound to one application is said to register deployments of no other. What an announcement names
  is held against the credential only when it registers something new: an announcement under a key that has a
  record copies the software it names. It keeps the records under the application exactly if the key is new or
  it names no other software (`Registration.AnnouncementKeepsSoftwareIff`); `Registration.KeyCanMoveItsRecord`
  and `Registration.ClientCanRegisterForAnother` are inputs for which it does not, the second one registering
  a new deployment of the other application afterwards.
- A subject is said to mean nothing without its issuer, but the query for a caller's own record does not ask for
  the issuer. Whoever announces, if its record is looked for by subject and key, it writes one registered at the
  issuer it presents exactly if no live record with that subject and key was registered at another
  (`Registration.AnnouncementKeepsToItsIssuerIff`). In `Registration.OtherIssuerRewrites` two applications list a
  client of one name; in `Registration.UnlistedClientRewrites` nobody lists the second one, and it makes the
  record another application's.
- An explicit but empty `instance_key` is never stored, so each announcement under it makes another record
  (`Registration.AgainIsTheSameRecordIff`, `Registration.EmptyKeyMakesTwo`).
- The key derived for an artifact without one is said to stand for its run and its description. It is a digest of
  the run key and the texts of the description one after the other: two entries are one artifact exactly if the
  joined texts are equal (`DerivedKeys.DerivedSharedIff`, `DerivedKeys.DerivedSharedInOneCallIff`). So two
  deployments with one run key share an artifact that two runs generated (`DerivedKeys.TwoDeploymentsOneArtifact`),
  and different artifacts of one run can be one (`DerivedKeys.DifferentArtifactsCollapse`).
- The boot migrations are said to be idempotent. They are unless a local concept's only class is stated
  beside a claim to be a series, in other graphs (`Boot.TwiceIsOnceIff`); a second boot always settles.
- A recorded bundle digest is only trustworthy for the binary that wrote it: an upgrade stopped inside a load
  and rolled back leaves an empty graph that the old binary takes for complete
  (`Bundles.UpgradeKeepsHonestIff`, `Bundles.RollbackServesAnEmptyGraph`).
- Lineage follows the first `wasRevisionOf` and the first `wasGeneratedBy` of a node only, and `truncated`
  does not say so. Otherwise an answer up or down that is not truncated is complete. Both ways it can be silent
  about who else cites a node at the limit that nothing is stated about (`Lineage.BothCompleteIff`,
  `Lineage.BothCutSilently`); that cannot happen if no such node is cited by two records, which is exact for a
  store and all that is left of it when statements are withdrawn (`Lineage.TellsAllIffOneCiter`).
  A generation is listed from the run upwards and from the artifact downwards.
- `escape_literal` is exactly undone by a lexer that reads codepoint escapes where they stand. Section 19.2 of
  the SPARQL 1.1 Query Language replaces them before parsing, and then a text that itself spells such an
  escape does not come back (`Literals.PassedRoundTripIff`).

## Model

| member | source | states |
|---|---|---|
| FanOut.OneFreshClaim | src/ops/federation.rs:163-220 | of any sequence of claims exactly the first with an id not seen before is fresh, and the table counts every repeat |
| Protocol.FirstArrivalIsAccepted | src/api/search.rs:116-148 | whatever the interleaving, of all requests that reach a registry exactly the first is accepted |
| FanOut.Handler.Partition | src/api/search.rs:202-205 | peers split into those that may be asked and those on the path, in order |
| FanOut.Handler.PlanFanOut | src/api/search.rs:195-234 | who is asked, who is reported as skipped, and whether the answer is partial, for every cap and hop budget |
| FanOut.Handler.MergeReplies | src/api/search.rs:271-336 | the answer is the settled form of everything gathered: lost legs make it partial, refused ones add nothing, copies merged only at the start, sorted and capped |
| FanOut.AskedOrReported | src/api/search.rs:199-233 | nobody is both asked and skipped, and while the peers fit the reporting cap every edge is one or the other |
| FanOut.AskedFacts | src/api/search.rs:199-218 | no leg to self, the path or the origin; at most the smaller of `max_peers` and the active peers; all of them if they fit and a hop is left |
| FanOut.AskedExactly | src/api/search.rs:199-234 | in the request's own terms: who is asked is a peer in the table, not this registry, not on the outgoing path and not the origin named; nobody without a hop; and while the cap is not met, every such peer |
| FanOut.LegCarries | src/api/search.rs:161-180 | what a leg carries, from the least hops and time anyone allows: one hop less while 250 ms are left after the margin, the time less the margin or a millisecond, the path and the origin |
| FanOut.OutPathFacts | src/api/search.rs:177-180 | the outgoing path is every hop read, in order and once each, and this registry |
| FanOut.PathIsFirstWanted | src/ops/federation.rs:508-520 | the path read is the first entries, up to the cap, that are neither empty nor too long nor repeated, in order |
| FanOut.ReadPathHeader | src/ops/federation.rs:508-520 | the loop over the header's entries, which stops when the path is full, computes that path |
| FanOut.PathReadBack | src/ops/federation.rs:508-520 | a path written to the header and read back is the same path, for plain bases and within the cap |
| NoWayBack.NoLegTurnsBack | src/api/search.rs:177-205 | in every state of every run: while the paths fit their cap, a registry further up the chain of a leg stands on its path and is not whom it goes to |
| NoWayBack.SearchNeverTurnsBack | src/api/search.rs:161-205 | over every run of a search among registries whose hop limits differ by two at most, no leg goes back to a registry on its own chain |
| FanOut.RankedByScore | src/api/search.rs:323 | ranking orders by descending score (its own contract: the same hits) |
| Protocol.StepKeepsInv | src/api/search.rs:83-148 | whatever the envelope and the interleaving of requests that take part, a step keeps: one accepted leg per registry, its block of legs, every claim made by some leg, answers only after all legs are settled |
| Protocol.RunKeepsInv | src/api/search.rs:103-336 | the same over every run |
| Bounds.RunsAreFinite | src/api/search.rs:103-148 | a measure falls by at least one at every step, so every run is finite |
| Bounds.LegsSentBounded | src/api/search.rs:213-268 | legs sent never exceed the sum over registries of the smaller of `max_peers` and their active peers |
| Bounds.AnswersAndFansOutOnce | src/api/search.rs:103-148 | two accepted or sending legs at one registry are one leg |
| Bounds.NoDeadlock | src/api/search.rs:199-317 | while a leg is unanswered some registry can take a step, on cycles too |
| Bounds.CanAlwaysAnswer | src/api/search.rs:236-317 | in every state of every run a working registry can give up the legs it still waits for and answer, whatever the others do |
| Bounds.LegBudgets | src/api/search.rs:161-175 | per leg a hop fewer, never above the receiver's own maximum, time at most the caller's less the margin, hops only with 250 ms in hand |
| Bounds.ChainBudget | src/api/search.rs:161-175 | along a chain the hops and margins spent fit the root's own hop maximum and time |
| Bounds.DepthBounded | src/api/search.rs:161-175 | both budgets bound the depth of any chain of legs |
| Coverage.CoversExactlyTheReachable | src/api/search.rs:161-317 | with hop limits, time and caps enough for the registries within reach, when no request is under way the claimed registries are exactly those reachable over peer edges |
| Conservation.StepConserves | src/api/search.rs:271-327 | every step that meets no cap keeps the hits in flight equal to the local answers of the claimed registries, for every way of counting hits |
| Conservation.HitsConserved | src/api/search.rs:271-327 | in any run that meets no cap and loses no leg, what the origin holds before merging is every claimed registry's own answer, each once; nothing is partial |
| Conservation.SearchFindsEverythingOnce | src/api/search.rs:63-336 | coverage and conservation together: the origin holds the answers of exactly the registries it can reach, each once |
| Conservation.RoomyRunMeetsNoCap | src/api/search.rs:271-327 | caps as large as the network's hits, one sufficient setting, are met in no run |
| Completeness.HeldOrDropped | src/api/search.rs:271-327 | over every run, legs given up included: if the origin gathered nothing partial, what the claimed registries hold is what it gathered and what was past some receiver's cap on one peer |
| Completeness.NotPartialIsEverythingIff | src/api/search.rs:292-327 | then it holds every hit of every claimed registry exactly if no answer was longer than its receiver takes |
| Completeness.SmallAnswersFit | src/api/search.rs:300-327 | settings under which none is: no registry may answer with more than any other takes |
| SearchAnswer.SettledSaysWhatItLost | src/api/search.rs:319-327 | settling: unless called partial the answer holds every record gathered and nothing else; it is sorted and, where the search started, holds each record once |
| SearchAnswer.SettledKeepsTheBest | src/api/search.rs:322-327 | what the cap cuts off ranks no higher than what is kept |
| SearchAnswer.AnswerIsEveryReachableRecord | src/api/search.rs:63-337 | end to end, legs given up included: an answer not called partial holds each record once and, unless a peer's answer was cut, a record exactly if a registry reachable over peer edges holds it |
| SearchAnswer.FinalAnswerIsGiven | src/api/search.rs:319-337 | that answer is the one the origin's leg ends with |
| SearchAnswer.UndisturbedIsNotPartial | src/api/search.rs:271-337 | a run that meets no cap and gives up no leg ends with an answer that is neither partial nor cut |
| SilentCut.DefaultCapCutsSilently | src/api/search.rs:300-327 | a run at the default settings, nothing lost, whose answer is not called partial and lacks a record the one peer found |
| HopsRunOut.CoversAllIffNobodyStarved | src/api/search.rs:161-236 | over every run, at rest: the claimed registries are exactly the reachable ones if and only if every registry that had no hop left or met its cap has only peers that have claimed the query |
| HopsRunOut.ShortWayRefused | src/api/search.rs:116-234 | a run at the default three hops, nothing lost: a record two hops away is missing from an answer not called partial |
| Copies.MergeCopies | src/ops/federation.rs:326-351 | the loop computes the merged rows |
| Copies.OneRowPerRecord | src/ops/federation.rs:326-351 | one row per record, and every record that arrived has one |
| Copies.BestCopyKeptOthersNamed | src/ops/federation.rs:326-365 | the row is a copy that arrived, none is better, and it names exactly the other copies' sources, sorted |
| Copies.BestInItsOwnTerms | src/ops/federation.rs:354-370 | no cached copy wins while the home registry's is there, among copies alike in that none cached later, and among those of one time none that crossed fewer hops |
| Copies.RelayedExactly | src/ops/federation.rs:289-320 | what a peer's hit becomes here: live exactly if it is the peer's own or was live, one hop more, via that peer |
| Bases.AcceptedBasesApart | src/rebase.rs:27-39 | for bases the check accepts neither starts the other at a path boundary |
| Bases.RenamedIff | src/rebase.rs:41-53 | an IRI is renamed exactly when it is the old base or lies under it, and to what |
| Bases.RenameOnce | src/rebase.rs:48-53 | a renamed IRI is never renamed again, and renaming back restores it |
| Bases.MintedIsLocal | src/ids.rs:87-105 | an identifier minted and read back is the kind and id it was minted from |
| Bases.RenameKeepsLocalId | src/ids.rs:96-105 | every renamed IRI keeps its kind and id |
| Bases.KindsByName | src/ids.rs:49-68 | which path segment is read as which kind, plurals of five of them included |
| Bases.IriForGiven | src/ids.rs:87-94 | an identifier that is an IRI stands for itself, any other is put under the base and its kind |
| Rewriting.ReplaceKeepsOut | src/rebase.rs:57-59 | replacing never brings a pattern back where the strings have no seam |
| Rewriting.TranslationLeavesNoOldBase | src/rebase.rs:302-335 | after the fold over all previous bases no `<old>/` is left anywhere, across seams included |
| Rewriting.TranslationIdempotent | src/rebase.rs:302-335 | translating twice is translating once |
| Rewriting.SecondPassIdleIff | src/rebase.rs:57-59 | a second replacement is idle on every text exactly when the two strings have no seam |
| Rebase.Registry.RenameGraph | src/rebase.rs:128-164 | the graph after the transaction and the number of statements reported; a dry run changes nothing |
| Rebase.GraphMoves | src/rebase.rs:218-237 | every statement becomes exactly one, each of its three positions moved if it is the old base or under it and as it was otherwise, literals and blank nodes untouched; nothing else appears; counted are exactly the statements with such a position |
| Rebase.NothingUnderOldBase | src/rebase.rs:128-164 | afterwards no statement mentions the old base in any position |
| Rebase.MovedKeepsLocalId | src/rebase.rs:41-53 | what a position moves to has the kind and id it had |
| Rebase.CellMoves | src/rebase.rs:44-59 | a cell of one IRI moves exactly if it is under the old base, text at every occurrence, JSON at every one that starts a string, NULL never |
| Rebase.ReportedExactly | src/rebase.rs:166-200 | the rows reported are, for exactly the columns with a cell that mentions the old base, how many there are |
| Rebase.Registry.RenameOps | src/rebase.rs:166-200 | the ops tables after the transaction and the rows reported per column; a dry run reports the same and changes nothing |
| Rebase.Registry.Run | src/rebase.rs:128-202 | the whole run: refusal of unusable bases, a stop between the transactions, a dry run, and both stores afterwards |
| Rebase.GraphPhaseIdempotent | src/rebase.rs:128-164 | the graph phase changes nothing the second time |
| Rebase.RestartIsSafe | src/rebase.rs:125-202 | any number of runs stopped between the transactions and one completed run leave both stores as a single run does |
| Rebase.WholeIriRerunIdle | src/rebase.rs:106-123 | columns holding one IRI are never renamed twice |
| Rebase.RerunReportsNothingIff | src/rebase.rs:93-128 | a further run reports nothing, for every store, exactly when the JSON and joined columns have no seam |
| Rebase.OrdinaryBasesRerunIdle | src/rebase.rs:27-39 | bases with one scheme and no quote have none |
| Rebase.AcceptedBasesCanRenameAgain | src/rebase.rs:27-39 | two accepted bases for which a further run renames again |
| RebasedKeys.RenamedKeyIff | src/rebase.rs:57-59 | a renamed idempotency key is the key of the renamed run and artifact exactly if neither is the old base or holds it further in |
| RebasedKeys.ClaimKeptIff | src/rebase.rs:118-122 | for a minted run it is the artifact alone that decides whether the claim is recognised after the move |
| RebasedKeys.TranslatedRetryRecognised | src/rebase.rs:302-335 | a retry whose body is translated has the renamed key, whatever its artifact |
| RebasedKeys.ForeignArtifactOutOfStep | src/rebase.rs:44-59 | an IRI of another registry that holds the old base is out of step: its key moves, its column does not |
| Ledger.BooksBalance | src/api/advertise.rs:102-253 | over every sequence of advertise and OpenLineage calls the edges equal the claims, a run has at most one status and end time, and no key, claim or IRI is lost |
| LedgerFacts.EventSays | src/api/openlineage.rs:45-61 | after an event its run, new or known, has exactly one status, `success` iff COMPLETE, `failed` iff FAIL or ABORT, else `running`, the state that goes with it, and the end replaced exactly if the event is terminal and gives one; other runs say what they said |
| LedgerFacts.CallSays | src/api/advertise.rs:255-317 | after an advertise call exactly the status it gives, for a new run without one `success`, and otherwise what there was |
| LedgerFacts.RunAnswered | src/api/advertise.rs:298-317 | which run a call is for, and what is remembered under its key |
| LedgerFacts.CallLinks | src/api/advertise.rs:131-205 | a call links each artifact it answers with to its run, as generated or as used by its role, and nothing else |
| LedgerFacts.EventLinks | src/api/openlineage.rs:61-112 | an event links its outputs as generated by its run and its inputs as used by it, and nothing else |
| LedgerFacts.EventNames | src/api/openlineage.rs:132-211 | afterwards each output and input is the artifact of the dataset in its place |
| LedgerFacts.EntryAnswered | src/api/advertise.rs:131-205 | which artifact an entry is, whether one is minted, what is queued to be resolved, and when it counts as created |
| LedgerFacts.AnswerCreated | src/api/advertise.rs:208-253 | a call says `created` exactly if something was minted or claimed |
| LedgerFacts.DatasetAnswered | src/api/openlineage.rs:132-211 | a dataset is one of its links if one can be used, otherwise the artifact of its key, minted once |
| Ledger.ReplayIsIdle | src/api/advertise.rs:102-253 | repeating a keyed advertise call at any later point returns the same IRIs with `created` false and adds no link |
| Ledger.KeylessCallCreates | src/api/advertise.rs:298-317 | without a run key every repeat mints a run |
| Ledger.IdemKeySeparates | src/ops/mod.rs:425-432 | the joined claim key separates run, artifact and role for run IRIs of one length |
| DerivedKeys.KeysStayApart | src/api/advertise.rs:141-178 | over every sequence of calls no two keys ever name one artifact |
| DerivedKeys.SharedIffSameKey | src/api/advertise.rs:131-178 | entries of any two calls that are looked up by a key get one artifact exactly if the key is one, any calls in between |
| DerivedKeys.OwnKeySharedIff | src/api/advertise.rs:131-178 | two entries with keys of their own are one artifact exactly if the keys are one, whatever else they say |
| DerivedKeys.DerivedSharedIff | src/api/advertise.rs:281-296 | with a digest without collisions, entries with no key of their own share an artifact exactly if run key and description join to the same text |
| DerivedKeys.DerivedSharedInOneCallIff | src/api/advertise.rs:281-296 | within one call: exactly if their descriptions join to the same text |
| DerivedKeys.TwoDeploymentsOneArtifact | src/api/advertise.rs:281-296 | two deployments with one run key and one description: two runs, one artifact generated by both |
| DerivedKeys.DifferentArtifactsCollapse | src/api/advertise.rs:281-296 | one title and one URL, given once as download and once as access URL, are one artifact |
| LedgerCalls.Registry.EnsureRunStaged | src/api/advertise.rs:260-317 | the run resolved or minted; the staged transaction brings the books to the specified state |
| LedgerCalls.Registry.ClaimStaged | src/api/advertise.rs:189-205 | a fresh claim stages its one edge, a repeated one none |
| LedgerCalls.Registry.Advertise | src/api/advertise.rs:64-253 | the handler's books and answer after the commit are the specified ones |
| LedgerCalls.Registry.Ingest | src/api/openlineage.rs:23-129 | the same for an OpenLineage event |
| LedgerCalls.Registry.MapDatasetStaged | src/api/openlineage.rs:132-211 | a dataset is a known symlink, an artifact of its key, or a new one remembered |
| Registration.Candidates | src/auth/jwt.rs:267-290 | the loop fills the client ids in order |
| Registration.DistinctOnce | src/auth/jwt.rs:267-275 | each non-empty client claim is listed once and nothing else |
| Registration.CandidatesNotEmpty | src/auth/jwt.rs:267-290 | no client id is empty |
| Registration.BoundToExactly | src/auth/jwt.rs:422-613 | a token is taken for a deployment that names it, at the issuer it pins or, pinning none, at the default one; failing that for the one record registered with it, if there is exactly one; else for none |
| Registration.AuthorisedByFirst | src/auth/jwt.rs:323-412 | the software it is authorised for is that of the first registrar that lists one of its client ids and is of its issuer |
| Registration.StrangerIsBoundToNothing | src/auth/jwt.rs:422-440 | a token of an issuer that nobody pins and that is not the default is bound to no record and no software |
| Registration.TakenFor | src/auth/jwt.rs:323-412 | the subject, issuer and software of every kind of credential |
| Registration.SharedExactly | src/auth/jwt.rs:323-412 | which credentials are shared by all deployments of a software |
| Registration.WritesWhich | src/api/instances.rs:448-480 | which record an announcement writes: the one owned under its key, the one it is bound to, or a new one, in the order each kind of credential has |
| Registration.RegistersIff | src/api/instances.rs:480-560 | when a first announcement is accepted |
| Registration.RegistersWhat | src/api/instances.rs:540-612 | what it registers: owner, key, issuer, software and client |
| Registration.UnsaidStays | src/api/instances.rs:625-650 | what an announcement does not say stays as it was, with owner, key and client; a record somebody owns keeps its issuer |
| Registration.CreatesWhat | src/api/instances.rs:168-232 | when a record is created, of which software, and that nobody owns it |
| Registration.StepKeepsOwners | src/api/instances.rs:168-398 | no route changes a stored owner or key or loses a record |
| Registration.StepKeepsUniqueIff | src/api/instances.rs:299-622 | exactly when a step keeps owner and key unique among live records |
| Registration.UniquenessCanFail | src/api/instances.rs:426-622 | four requests to an empty registry after which two live records have one owner and key |
| Registration.RunKeepsUnique | src/api/instances.rs:168-622 | at most one live record carries a given owner and key, over every run that brings no withdrawn record back over a live one |
| Registration.SharedKeepsItsSubject | src/auth/jwt.rs:323-410 | a shared credential keeps its subject and stays software-bound whatever it has registered, although its binding changes |
| Registration.AnnouncementWritesItsOwn | src/api/instances.rs:448-612 | one announcement of a shared credential, whatever it names, writes exactly one record, the one it owns under that key or a new one, and is refused exactly if it is the first and names another software |
| Registration.OneRecordPerKey | src/api/instances.rs:448-612 | over every run of anybody's requests: a shared credential owns exactly one live record per explicit key it was accepted under, so two announcements land on one record exactly if their keys agree and n distinct keys own n records |
| Registration.AgainIsTheSameRecordIff | src/api/instances.rs:448-612 | announcing twice under a key lands on one record exactly when the key is not empty |
| Registration.EmptyKeyMakesTwo | src/api/instances.rs:448-612 | the same announcement under an empty key, twice from an empty registry, makes two records |
| Registration.StepKeepsSoftwareIff | src/api/instances.rs:299-622 | exactly when a request leaves every record of a credential under one software |
| Registration.RunKeepsSoftwareIff | src/api/instances.rs:168-622 | the same over every run |
| Registration.AnnouncementKeepsSoftwareIff | src/api/instances.rs:480-556 | a shared credential's own announcement keeps them there exactly if the key is new or it names nothing else |
| Registration.KeyCanMoveItsRecord | src/api/instances.rs:480-513 | an auto-registration key of one application makes its record another's |
| Registration.ClientCanRegisterForAnother | src/api/instances.rs:480-580 | a listed client moves its record and then registers a new deployment of the other application |
| Registration.AnnouncementKeepsToItsIssuerIff | src/api/instances.rs:460-480 | whoever announces: where the record is looked for by subject and key, the one written was registered at the issuer presented exactly if no live one with that subject and key was registered at another |
| Registration.SharedKeepsToItsIssuerIff | src/api/instances.rs:715-730 | the same for a shared credential under an explicit key, whatever it is bound to |
| Registration.OtherIssuerRewrites | src/api/instances.rs:715-730 | two applications list a client of the same name at two issuers: the second rewrites the record of the first |
| Registration.UnlistedClientRewrites | src/auth/jwt.rs:425-430 | a client of another accepted issuer that nobody lists rewrites the record of the listed one and moves it to another software |
| RegistrationCalls.Registry.FindSelfRegisteredInstance | src/auth/jwt.rs:554-613 | found exactly when one live record was registered at this issuer |
| RegistrationCalls.Registry.PrincipalFromClaims | src/auth/jwt.rs:323-410 | who a token is, whichever row a query gives first, as the routes below take it |
| RegistrationCalls.Registry.ApplyAnnouncement | src/api/instances.rs:625-650 | what is said replaces, what is absent stays |
| RegistrationCalls.Registry.AnnounceSelf | src/api/instances.rs:426-622 | for any principal the credential may resolve to, the store afterwards and the record written are the specified ones for a row the query may give |
| RegistrationCalls.Registry.CreateInstance | src/api/instances.rs:168-232 | the new record, bound to the credential's software and without ownership marks |
| RegistrationCalls.Registry.PatchInstance | src/api/instances.rs:299-387 | a self-registered record changes only for its own deployment and keeps its ownership |
| RegistrationCalls.Registry.SoftDelete | src/api/instances.rs:389-398 | the record stays, marked as withdrawn |
| Merge.MergeTwice | src/api/instances.rs:277-297 | sending the same change again changes nothing |
| Merge.MergedFields | src/api/instances.rs:277-297 | field by field: kept if not named, merged if both sides are objects, replaced otherwise; anything but two objects is replaced whole |
| Merge.MergedAt | src/api/instances.rs:270-297 | at any depth, a path the change speaks about holds what it says, any other what it held |
| Merge.SpeaksExactly | src/api/instances.rs:277-297 | where a change speaks: somewhere on the path it has a value, and that or the record's there is no object |
| Merge.DisjointChangesCommute | src/api/instances.rs:277-297 | changes to different fields can be applied in either order |
| Boot.MintedShapeIff | src/seed.rs:169-182 | a minted IRI under any base is taken for a record exactly if it is not a type |
| Boot.AdoptionLosesNothing | src/seed.rs:58-109 | exactly which statements leave the retired graph for the local one, also when a boot stops before the drop |
| Boot.AdoptedExactly | src/seed.rs:58-109 | a statement of the retired graph about an IRI is in the local graph afterwards, also after a stop before the drop, exactly if no bundle, shape or local statement is about it, whatever peers hold; nothing else enters |
| Boot.WritesInTurn | src/seed.rs:21-35 | the five writes of a boot, one after the other |
| Boot.ClassedExactly | src/seed.rs:139-182 | a local concept that is no record of another kind gets the class exactly if no graph gives it one |
| Boot.RecordShapedExactly | src/seed.rs:169-182 | which paths are taken for a record's, segment by segment |
| Boot.UnmarkedExactly | src/seed.rs:277-302 | the markers that go are those of every graph but a peer's, a bundle's and the shapes |
| Boot.UnclaimedExactly | src/seed.rs:231-275 | the types that go are the others of what such a graph calls both concept and series |
| Boot.RestartIsSafe | src/seed.rs:21-35 | a boot stopped after any of its writes and run again ends as an undisturbed one |
| Boot.AnyStopsThenOneBoot | src/seed.rs:21-35 | the same for any number of stopped boots |
| Boot.StoppedInTurn | src/seed.rs:21-35 | what one stopped boot leaves is what the next one finds |
| Boot.ProtectedNeverChange | src/seed.rs:113-121 | no peer graph, bundle graph or shapes statement ever changes |
| Boot.OtherStatementsStay | src/seed.rs:231-302 | everything but branch markers and the other types of a claimed series stays |
| Boot.TwiceIsOnceIff | src/seed.rs:21-35 | exactly when running the chain twice is running it once |
| Boot.SecondBootSettles | src/seed.rs:21-35 | two boots are always enough |
| Boot.TwiceIsNotAlwaysOnce | src/seed.rs:139-168 | a store on which the chain is not idempotent |
| Boot.Store.AdoptLegacyVocabGraph | src/seed.rs:58-109 | the loop moves exactly the rescued statements, then drops the graph |
| Boot.Store.ClassExistingTypes | src/seed.rs:139-168 | the loop classes exactly the unclassed local concepts |
| Boot.Store.DropBranchMarkers | src/seed.rs:277-302 | exactly the markers of editable graphs go |
| Boot.Store.UnclaimSeriesConcepts | src/seed.rs:245-275 | clearing the types and stating the series again removes only the other types |
| Boot.Store.LoadVocab | src/seed.rs:21-35 | the four steps in order are the chain |
| Bundles.RecordStore.Sync | src/bundles.rs:314-337 | the loop brings the store to the specified state and counts nothing if every digest is current |
| Bundles.RecordStore.LoadInto | src/bundles.rs:180-195 | one graph is exactly replaced |
| Bundles.StopKeepsHonest | src/bundles.rs:314-337 | a boot stopped anywhere keeps: a recorded current digest means exactly that content |
| Bundles.BootsKeepHonest | src/bundles.rs:314-337 | the same over any boots of one binary, and a completed one leaves every bundle there and recorded |
| Bundles.IdleIff | src/bundles.rs:306-337 | a boot writes nothing exactly when every recorded digest is current |
| Bundles.SameDigestIff | src/bundles.rs:153-174 | a digest changes exactly with the layout, the base, and the bundle's name, graph and text |
| Bundles.WritesCounted | src/bundles.rs:180-337 | how many requests a boot makes: three for each bundle that is not current, up to where it stops |
| Bundles.NextBootIdle | src/bundles.rs:306-337 | the boot after a completed one writes nothing |
| Bundles.OtherGraphsUntouched | src/bundles.rs:314-337 | a boot changes no graph but the bundles' own |
| Bundles.UpgradeKeepsHonestIff | src/bundles.rs:314-337 | exactly when a stopped boot of one binary leaves another binary's digests trustworthy |
| Bundles.RollbackServesAnEmptyGraph | src/bundles.rs:180-195 | an upgrade stopped after the drop and rolled back |
| Lineage.LineageOf | src/domain/artifact.rs:373-448 | on any finite graph: each IRI once at the length of a real path within the limit, edges that are statements with both ends listed, and when `truncated` is set |
| Lineage.EdgesAreStatements | src/domain/artifact.rs:404-444 | every edge listed is a statement, subject to object, a generation on the way up from the run |
| Lineage.ParentsExactly | src/domain/artifact.rs:410-430 | of a node every derivation and use is followed, and the first revision and the first generation only |
| Lineage.FollowsExactly | src/domain/artifact.rs:404-446 | where the walk goes in each direction |
| Lineage.ListedIsReachableIff | src/domain/artifact.rs:373-448 | in every direction the list is everything reachable exactly when the nodes at the limit lead nowhere new |
| Lineage.UpwardsUntruncatedIsComplete | src/domain/artifact.rs:405-430 | upwards, an answer that is not truncated lists exactly what is reachable |
| Lineage.UpwardsCompleteForAllStatementsIff | src/domain/artifact.rs:410-430 | measured against every statement, exactly when it is complete |
| Lineage.SecondRunMissed | src/domain/artifact.rs:416-425 | a second generating run is not listed |
| Lineage.DownwardsUntruncatedIsComplete | src/domain/artifact.rs:404-446 | downwards, at every depth the routes ask for, an answer that is not truncated lists exactly what is reachable |
| Lineage.BothCompleteIff | src/domain/artifact.rs:404-446 | both ways, exactly if whoever cites a node listed at the limit is listed |
| Lineage.BothUntruncatedIsComplete | src/domain/artifact.rs:404-446 | and always if nothing undescribed is cited by two subjects, from every root |
| Lineage.BothCutSilently | src/domain/artifact.rs:404-409 | two records that cite one undescribed thing: from the first, at depth 1, no answer is called truncated and none lists the second |
| Lineage.TellsAllIffOneCiter | src/domain/artifact.rs:373-448 | that nothing undescribed is cited by two subjects is exactly when untruncated answers both ways are complete, in the store and whatever is left of it when statements go |
| LineageWalk.CompleteIff | src/domain/artifact.rs:382-448 | the walk itself: complete exactly when nothing lies beyond the limit |
| LineageWalk.FollowKeeps | src/domain/artifact.rs:410-446 | expanding a node keeps the walk sound and everything pending |
| Stubs.StubQuads | src/api/peers.rs:367-405 | on cyclic documents too: which statements are kept and how often, and `others` exactly the named subjects not visited, sorted once each |
| Stubs.KeptExactly | src/api/peers.rs:374-392 | a statement is kept exactly if the model reads it and its subject is the record or owned by it |
| Stubs.OwnsExactly | src/api/peers.rs:380-390 | a blank node is owned over any predicate the model reads, a named node over the seven that own what they name, a literal never |
| Stubs.WholeClosureIff | src/api/peers.rs:363-392 | the stub is the whole ownership closure exactly if nodes at the limit own nothing new |
| Stubs.ShallowIsWhole | src/api/peers.rs:363-392 | a record owned less than four deep is kept whole |
| Subclasses.Ingest | demo/apps/onto_app.py:280-300 | the entailed edges are exactly the pairs joined by a path, minus the asserted and the reflexive ones |
| Subclasses.Ancestors | demo/apps/onto_app.py:285-293 | one walk upwards finds exactly what is above, on cycles too |
| Subclasses.MaterialisedIsClosed | demo/apps/onto_app.py:280-300 | read back as asserted, the entailed edges entail nothing more and put nothing new above anything |
| Paging.Limit | src/api/mod.rs:241-243 | a page holds between 1 and 200 records whatever was asked |
| Paging.LimitExactly | src/api/mod.rs:240-243 | a number from 1 to 200 is the limit, 0 means 1, more 200, anything else 25 |
| Text.NumberExactly | src/api/mod.rs:241-243 | a decimal is read as its number, with a plus sign or a zero before it too, unless it is too large |
| Paging.PageIris | src/api/mod.rs:305-320 | a page is all that matches, or its greatest and a cursor naming the last of them |
| Paging.MatchingExactly | src/api/mod.rs:246-251 | a cursor that is given and not empty leaves what is less than it |
| Paging.WalkDescends | src/api/mod.rs:240-320 | the order is strictly descending across pages |
| Paging.OnPageIff | src/api/mod.rs:246-251 | an IRI is on a page exactly if the page covers it and it matched then |
| Paging.WalkIsExact | src/api/mod.rs:240-320 | while records come and go nothing is returned twice, and what matched throughout is returned exactly once |
| Literals.EscapeLiteral | src/api/mod.rs:265-281 | the loop computes the escaped text |
| Literals.RoundTrip | src/api/mod.rs:265-281 | every string, quoted and read back, is the same string and exactly its own text is consumed |
| Literals.EscapedText | src/api/mod.rs:265-281 | text of no special character stays as it is, and no control character is left raw |
| Literals.PassedRoundTripIff | src/api/mod.rs:265-281 | under a codepoint pass before parsing, exactly when it comes back |
| Literals.RegexRoundTrip | src/api/mod.rs:293-295 | the escaped pattern matches the text and nothing else |
| Literals.EscapedInPattern | src/api/mod.rs:293-295 | exactly the fourteen characters with a meaning in a pattern are escaped |
| Literals.NeedleFindsTheText | src/api/mod.rs:284-295 | the needle of a search filter decodes to a pattern for the caller's text |
| ClientAddress.PrefixOf | src/ratelimit.rs:171-196 | without a slash a block is one address, all 32 or 128 bits; with one the number after it, if it is one and fits; anything else is refused |
| ClientAddress.MappedExactly | src/ratelimit.rs:205-210 | exactly an IPv4-mapped IPv6 address is taken for the IPv4 address it holds |
| ClientAddress.ContainsIff | src/ratelimit.rs:171-223 | a parsed block holds exactly the addresses of its family that share its first bits, after canonicalising |
| ClientAddress.BucketSeparates | src/ratelimit.rs:249-254 | a bucket is its own bucket, and separates exactly on the IPv4 address or the top 64 bits |
| ClientAddress.ClientIp | src/ratelimit.rs:230-245 | the loop computes the answer of the walk |
| ClientAddress.HopsRead | src/ratelimit.rs:236-237 | the hops are what stands between the commas, trimmed, where there is anything, left to right |
| ClientAddress.AnswerCases | src/ratelimit.rs:225-245 | an untrusted peer is the client whatever the header says; behind a trusted one: the rightmost untrusted hop, the last trusted hop before one that does not parse, or the leftmost |
| ClientAddress.TextOnTheLeft | src/ratelimit.rs:225-245 | text on the left cannot change the answer of an untrusted peer or of a walk that has stopped, and what happens while it has not |
| ClientAddress.StoppedIff | src/ratelimit.rs:236-244 | the walk stops exactly if some hop is not the address of a trusted proxy |

## Left out

- Time to live and the row cap of the query table: no claim is evicted during a run.
- Time is a budget in milliseconds, not a clock; a leg's timeout is an event that may happen to it.
- FanOut.ReadPathHeader: the limit on an entry's length counts characters where the original counts bytes; peer bases are taken without trailing slashes.
- Scores are integers; JSON, HTTP and the byte cap on a reply are not modelled.
- Coverage.CoversExactlyTheReachable: assumes hop limits of at least the number of registries within reach and time and caps to match; the code clamps `max_hops` to 8, so this is met with at most eight of them. Below that a registry first reached late does not fan out again.
- NoWayBack.SearchNeverTurnsBack: hop limits that differ by two at most. A registry keeps two entries more of a path than its own hop limit, so behind one with a larger limit the path may be cut; `NoWayBack.NoLegTurnsBack` then holds up to there, and a registry asked again refuses (`Protocol.FirstArrivalIsAccepted`).
- The snapshot file written before a rebase, the redirect of old hosts and form encoding of values.
- Rebase.Registry.RenameOps: a unique key that the renaming would make collide fails the transaction in the original; the model has no unique keys.
- RebasedKeys.RenamedKeyIff: bases and run IRIs without a bar, which RFC 3987 does not allow in an IRI; artifact IRIs may hold anything.
- Ledger.BooksBalance: calls are handled one at a time and each reaches its commit; a failure between the ops rows and the graph commit is not modelled, nor are statements about an artifact other than its links.
- Registration.RunKeepsUnique: two first announcements of one deployment handled at the same moment are not modelled.
- Scopes, roles and the shapes are a single yes or no per request; signature checking and key fetching are not modelled.
- Registration.OneRecordPerKey: runs that withdraw one of the credential's records, or in which it announces while a deployment names it, are outside the theorem; `Registration.StepKeepsUniqueIff` covers them.
- Digests do not collide, and a bundle's digest is what went into it.
- Bundles.RecordStore.Sync: runs to its end; a stop is modelled in the function it is proved against.
- Boot: statements about blank nodes of the retired graph are dropped with it, as in the original; `warn_about_unusable_stored_terms` changes nothing.
- Lineage: titles, types and origins of nodes; the order rows come back in is that of the store.
- Subclasses.Ingest: reading Turtle and the depth of the hierarchy, which is cut at 50 and follows one parent only.
- Stubs: reading Turtle and storing the stub.
- Paging: rows whose subject is a blank node, which the original drops from a page after counting them.
- Literals: when a search text is blank no filter is made; case-insensitive matching belongs to the engine.
- ClientAddress: the text form of an address is a parameter; the limiter's accounting is library code.
- Subscriptions, the resolver queue's retry policy, health probes, vocabulary search and the handlers that only read: no property across functions.
