# Datum, verified

A model in Dafny of the deterministic part of Datum: what lies between the documents of a
fleet and the calls made on a host, and the state an agent keeps between passes. One module
stands for each component.

| component | modules |
|---|---|
| references, values, their encoding and the digest | `Document`, `Canonical`, `Reader`, `Digest`, `DigestReader` |
| layers: substitution, merging, provenance, conflicts, resolution | `Substitute`, `Merge`, `Overlay`, `Provenance`, `Disputes`, `Resolve`, `Manifest` |
| dependency graph | `Topology`, `Counting`, `Graph` |
| observing, comparing, planning | `Provider`, `Diff`, `Closure`, `Plan` |
| applying and verifying | `Blocking`, `Reconcile`, `Pass`, `Convergence` |
| accepted revision | `Tags`, `Revision`, `Source`, `Agent` |
| schedule and stored reports | `Schedule`, `ReportNames`, `ReportStore` |
| patterns and sizes | `Glob`, `Size`, `Decimal` |
| text and sorting | `Text`, `Sorting` |

Verify everything with `dafny verify dfyconfig.toml`.

## How to read it

Where the program changes state, the model does: `Graph`, `Merger`, `Builder`, `Substituter`,
`Host`, `StateDir`, `Schedule` and `Store` are classes, and the loops of the program are loops.
Each method is proved against a function or predicate of its input or old state, and the main
results are lemmas about those.

**A provider** observes its own entry, a function of that entry, and applies in any way it
likes to that entry only, differently each time. A host is a map from (type, target) to entries.
With nothing else assumed, a pass that converges leaves nothing to do, and blocking is exact.

**The agent** is a machine whose steps are those of a fetching pass. Between any two of them
the host may crash, with any leftovers in the temporary file and the tree, and the pointer may
be cleared. A baseline may be provisioned between passes. Git may answer each question
differently in each state of the clone, as long as it never claims an ancestry that is not
there. `Agent.FetchingPass` shows that the pass is a run of this machine.

**A report directory** changes by links, which fail where the name is taken, and removals. What
holds over every run of those holds for any number of writers (`ReportStore.Run`).

**Layers** have names of their own and come in ascending precedence, as discovery lists them,
where a result about provenance needs it (`Resolve.WellListed`).

**Time** is whole nanoseconds. `Schedule.Duration` is a 64-bit type, so that an overflow would
be a verification error.

**Readers** of canonical values, digest input and report names are written from the format
alone, with tables of their own. The program has no such readers: they say what the formats are.

**Parameters** stand for what the model does not look into: which layers match a host, whether
a merged resource passes its schema, how one path segment matches one pattern segment, how a
fraction is parsed, what git answers, and what the file system refuses.

## Where the code differs from its documentation

`docs/fleet/precedence.md:39-40` promises an error whenever two layers of equal precedence set
a field differently. The code misses some of them, for two reasons.

- A layer that repeats the value of a lower one leaves the field credited to the lower one
  (`internal/resolve/merge.go:74-78`), so the next layer of the same precedence replaces it
  without a conflict (`Disputes.UnnoticedConflict`, and `Disputes.RepeatHides` for any value).
- A map carries no layer of its own (`internal/resolve/merge.go:42-44`), so a layer that sets
  something else where another of its precedence sets a map replaces the map without a conflict,
  with no lower layer involved (`Disputes.MapThenScalar`, `Disputes.MapsGoUncredited`).

`Disputes.FoldsCleanExactly` says exactly when a fold records nothing, whatever the layers set.
Where kinds agree only the first reason is left, and `Disputes.CleanWhereKindsAgree` and
`Resolve.ResolvesWithoutConflict` state the condition in terms of what the layers say.

Two results hold only under a condition the code does not enforce everywhere, and are stated
with it. A chain of accepted revisions needs the descendant requirement or signed tags
(`Agent.ChainNeedsOrder`). Backed-off ticks are ordinary ticks unless the interval saturated
(`Schedule.BackedOffTicks`).

A step that could not be read, or a resource declared absent and already gone, still becomes an
update when a trigger fires (`internal/plan/plan.go:118-135`). The model does the same. Applying
looks at the read error first, so the first of them is never attempted.

## Model

| member | source | states |
|---|---|---|
| Graph.Graph.FindDuplicateTargets | internal/graph/graph.go:115-144 | every resource that shares its target is in exactly one report, and each report names, in order, all resources of one target and no other; no report exactly when no target is shared |
| Graph.TargetKeyInjective | internal/graph/graph.go:123 | the grouping key `type target` tells targets apart, because no type name holds a space |
| Graph.Graph.AddEdges | internal/graph/graph.go:146-177 | one dependency list becomes edges, and the errors are exactly the complaints about its self-references and unknown names |
| Graph.Graph.BuildEdges | internal/graph/graph.go:146-183 | the edges kept are the usable declared ones, and there is no error exactly when all declared ones are usable |
| Graph.Graph.BuildProtecting | internal/graph/graph.go:81-113 | a build has no errors exactly on the applicable manifests: every target identified, none protected or shared, every reference usable, no cycle; otherwise it reports exactly what is wrong, a cycle alone and only when nothing else is |
| Graph.ReportsAre | internal/graph/graph.go:81-183 | the errors of a build, each with its condition: a target nothing identifies, a protected one, a shared one with all its resources, a dependency outside the manifest, a dependency on itself |
| Graph.DeclaredBy | internal/graph/graph.go:146-175 | an edge is declared exactly where its source stands in the list of its kind |
| Graph.DependenciesByName | internal/graph/graph.go:177-194 | the dependencies of a resource come by name |
| Graph.DependentsByName | internal/graph/graph.go:177-205 | and so do its dependents |
| Graph.Graph.Dependencies | internal/graph/graph.go:186-194 | the edges into a resource, in edge order |
| Graph.Graph.Dependents | internal/graph/graph.go:197-205 | the edges out of a resource, in edge order |
| Graph.Graph.CountWaiting | internal/graph/graph.go:214-221 | the initial counts are exact: as many as edges into each resource, parallel ones counted each |
| Graph.Graph.InitiallyReady | internal/graph/graph.go:223-229 | the initial ready list holds each resource without dependencies once, whatever order the map is read in |
| Graph.Graph.Release | internal/graph/graph.go:237-247 | placing a resource lowers the counts by the edges that leave it, and frees exactly what it alone held back |
| Counting.ReleaseAll | internal/graph/graph.go:237-247 | after releasing every outgoing edge the counts are exact for the larger placed set |
| Counting.PlacingReleases | internal/graph/graph.go:237-247 | a resource waits for fewer edges by exactly the edges from the one just placed |
| Counting.NextRound | internal/graph/graph.go:232-248 | one round keeps the invariant: counts exact, the ready list sorted and complete, the placed part greedy |
| Graph.Graph.PlaceReady | internal/graph/graph.go:214-248 | Kahn's loop places greedily by name, and what it leaves unplaced is deadlocked |
| Graph.Graph.Sort | internal/graph/graph.go:212-255 | a cycle is reported exactly when the edges are cyclic; otherwise the order is the least topological order by reference string |
| Counting.NothingReady | internal/graph/graph.go:250-253 | when the ready list runs dry early, each remaining resource waits for another remaining one |
| Topology.GreedyIsLeast | internal/graph/graph.go:232-248 | always taking the first ready name gives the lexicographically least of all topological orders |
| Topology.OrderedIsAcyclic | internal/graph/graph.go:250-253 | a topological order leaves no room for a cycle |
| Topology.LeastOrderIgnoresParallelEdges | internal/graph/graph.go:212-255 | the order depends on which resources are joined, not on how often, by which kind, or in what order edges are listed |
| Graph.Graph.StuckDependency | internal/graph/graph.go:282-293 | a next stuck dependency is always found among deadlocked resources |
| Graph.Graph.DescribeCycle | internal/graph/graph.go:257-301 | terminates with a path along real dependencies whose last entry, and no other, repeats |
| Graph.ReportedCycleIsReal | internal/graph/graph.go:257-301 | the tail of such a path is a cycle of the graph |
| Provider.ObserveHost | internal/observe/observe.go:75-108 | exactly the resources of the graph get a reading: what its provider makes of its own entry when asked without a trigger, or a skip with the reason nothing serves it |
| Provider.Host.Apply | internal/reconcile/reconcile.go:193-195 | an action changes at most the entry of its own (type, target) |
| Diff.Compare | internal/plan/diff.go:77-113 | the comparison lists exactly the declared fields that differ, once each and in name order: not the target identity, not unreadable, not one of the nine that steer a provider, state unless it only says present or absent, and reading otherwise than declared or missing; each entry tells what was asked for and what was found |
| Diff.CompareListsDifferences | internal/plan/diff.go:77-140 | the same of what a plan and a verification compare |
| Diff.MismatchesAreExact | internal/plan/diff.go:77-113 | a field is listed exactly when it is mismatched, so an empty list means every such field holds |
| Diff.ViewsDivide | internal/plan/diff.go:37-56 | correctable and uncorrectable differences partition the differences |
| Diff.ComparisonTells | internal/plan/diff.go:77-140 | nothing is listed exactly when every declared, comparable, readable field holds, and nothing correctable exactly when what differs cannot be corrected |
| Plan.ActionMeans | internal/plan/plan.go:113-170 | create, remove, update and skip in terms of the declaration and of what was seen |
| Plan.TriggersSay | internal/plan/plan.go:126-139 | the triggers of a step are exactly the resources whose own step changes and from which a restartOn or reloadOn edge leads into it |
| Plan.TriggeredIffReacting | internal/plan/plan.go:126-135 | a step has triggers exactly where a changing source leads into it by an edge of either kind |
| Plan.OperationSays | internal/plan/plan.go:126-195 | where no resource has both kinds, a step restarts exactly where a restartOn edge leads into it from a step that changes, and reloads exactly where a reloadOn edge does |
| Plan.WhySays | internal/plan/plan.go:131-135 | the kind an update is explained with is the operation it asks for |
| Plan.StepSays | internal/plan/plan.go:109-140 | the target, the error and the reason of a step: not served, or an update of nothing but its triggers |
| Plan.FieldsSay | internal/plan/plan.go:122-162 | the fields of a step are exactly those that differ where the target is there and meant to be, and none otherwise |
| Closure.WillChangeStep | internal/plan/plan.go:113-139 | the change set is a fixpoint: own change, or not skipped and some trigger source changes |
| Closure.ChangeSetIsLeast | internal/plan/plan.go:94-143 | every set closed under the same rule contains it |
| Closure.OperationIgnoresTies | internal/plan/plan.go:185-195 | with one kind of trigger per resource the operation does not depend on how parallel edges were sorted |
| Closure.DependenciesDecided | internal/plan/plan.go:94-143 | in graph order the triggers seen so far are all the triggers there will be |
| Closure.ReactsIffReached | internal/plan/plan.go:113-139 | reacting to the whole change set makes a resource change exactly when a trigger path reaches it |
| Plan.ChangesIffReached | internal/plan/plan.go:94-162 | a step changes the host exactly when a path of trigger edges through resources that are not skipped leads to it from an own change |
| Plan.Build | internal/plan/plan.go:94-143 | one forward pass plans every resource from the complete closure, unreadable and absent ones included: the plan that the results above and below are about |
| Plan.FiredTriggers | internal/plan/plan.go:173-181 | the changed sources of trigger edges, in edge order |
| Blocking.Block | internal/reconcile/reconcile.go:256-272 | exactly the resources downstream are added, with this reason, older reasons kept; not following a blocked resource again loses none |
| Blocking.MarkedAll | internal/reconcile/reconcile.go:256-272 | a marking closed under dependents holds everything downstream of the failure |
| Reconcile.EnforceStep | internal/reconcile/reconcile.go:167-217 | refusals touch nothing; an action is made with the step's trigger, its failure reported, and otherwise the verdict is on what a fresh read without trigger finds |
| Reconcile.VerifyConverges | internal/reconcile/reconcile.go:224-241 | verification converges exactly when the target reads back in the desired state |
| Reconcile.VerifyFails | internal/reconcile/reconcile.go:219-241 | an action failed to take exactly when existence is wrong or a field that could have been corrected differs |
| Reconcile.VerdictSays | internal/reconcile/reconcile.go:219-241 | a verdict names wrong existence, or exactly the correctable fields that differ, or, where there are none of those, exactly the fields that differ and cannot be corrected |
| Reconcile.VerifiedIsUnchanged | internal/plan/plan.go:146-162 | a target verifies exactly when its own comparison would have left it alone |
| Reconcile.ApplyOne | internal/reconcile/reconcile.go:105-155 | how one step ends, what it changes on the host, which call it makes and what it blocks |
| Pass.Apply | internal/reconcile/reconcile.go:98-160 | over a whole pass, with the host before and after each step: every step comes to what it should, an attempt as far as the provider and its verdict, anything else leaving the host alone; steps end as the failures above them demand, what converged still verifies, untouched targets hold what they held, the calls made are those of the attempts, and the outcome is failed, drifted, changed or converged exactly as results and calls have it |
| Pass.OutcomeTells | internal/reconcile/reconcile.go:281-307 | failed exactly when some result has an error, and otherwise drifted exactly when some result is, changed exactly when there was a call, converged when neither |
| Pass.BlockedSays | internal/reconcile/reconcile.go:254-279 | a blocked resource names the first result above it with an error, and whether that could not be read, did not verify or failed |
| Pass.EndOf | internal/reconcile/reconcile.go:287-307 | failed, drifted, changed and converged outcomes, in that order of weight |
| Pass.FirstReasonKept | internal/reconcile/reconcile.go:263-266 | the reason of a blocked resource is that of the first failure above it |
| Pass.EffectNext | internal/reconcile/reconcile.go:167-217 | acting on one target leaves what other targets verified, because targets are distinct |
| Convergence.ExactBlocking | internal/reconcile/reconcile.go:98-160 | a resource ends blocked exactly when it could be read, is not skipped, and something above it ended with an error; a provider is called for it exactly when it could be read, changes the host, has no failure above it, its type is served and the guard lets it through; whatever is to change below no failure ends as its attempt came out |
| Convergence.ReachedIffServed | internal/reconcile/reconcile.go:167-195 | an attempt reaches the provider unless its type is not served or the guard refuses |
| Convergence.FailureIsEarlier | internal/reconcile/reconcile.go:98-160 | in graph order all failures above a resource have happened by its turn |
| Convergence.NoCallBelowFailure | internal/reconcile/reconcile.go:98-160 | no provider is asked to act below a failed or unverified prerequisite |
| Convergence.QuietAfterwards | internal/reconcile/reconcile.go:167-241 | a resource that ended converged reads back with nothing to do when the pass is over |
| Convergence.Convergence | internal/reconcile/reconcile.go:98-241 | if every resource of a completed enforcing pass converged, reading and planning again finds no change and no error |
| Convergence.QuietPass | internal/reconcile/reconcile.go:98-160 | such a plan makes no call, changes no target and ends converged |
| Convergence.RunTwice | internal/reconcile/reconcile.go:98-241 | observe, plan and apply twice: after a converged pass the second makes no call and ends converged |
| Merge.Merger.Merge | internal/resolve/merge.go:56-98 | the merged value, and exactly the conflicts of this merge added to those recorded |
| Merge.CleanMeansNoConflict | internal/resolve/merge.go:79-89 | a merge records nothing exactly when no field is set differently by the precedence credited with it |
| Merge.ComparedBy | internal/resolve/merge.go:114-125 | scalars are compared by their text, other values by what they declare, and a scalar with another value by its encoding |
| Overlay.MergeIsOverlay | internal/resolve/merge.go:56-98 | a merge without conflict is the right-biased overlay if and only if no differing values read alike |
| Overlay.KindsAgreeReadsTrue | internal/resolve/merge.go:114-125 | where kinds agree values that read alike declare alike |
| Overlay.FoldIsOverlay | internal/resolve/resolve.go:150-184 | when kinds agree and nothing conflicts, the fold over any number of layers is their overlay |
| Overlay.LastSetterWins | internal/resolve/resolve.go:150-184 | each path holds what the last layer to set it says |
| Disputes.FoldsCleanExactly | internal/resolve/merge.go:56-98 | whatever the layers set, of whatever kind, a fold records no conflict if and only if each value that is disputed, and is no map, has stood since a layer of lower precedence said it |
| Disputes.CleanWhereKindsAgree | internal/resolve/merge.go:56-98 | where kinds agree, in terms of what the layers say: no conflict if and only if each change of a value changes one that a lower layer said and every layer since has repeated |
| Disputes.UnnoticedRepeats | internal/resolve/merge.go:74-78 | every disagreement within one precedence that goes unnoticed has such a repeat in it |
| Disputes.GroupConflict | internal/resolve/merge.go:74-89 | layers of one precedence setting one field to scalars or lists pass unnoticed if and only if they repeat what they found some times and then agree |
| Disputes.CreditedSince | internal/resolve/merge.go:39-50 | a leaf is credited to the lowest precedence since which the path has held it |
| Disputes.MapsGoUncredited | internal/resolve/merge.go:39-50 | a map a fold holds is credited to nobody, so nothing that replaces it conflicts |
| Disputes.DisplacedWereThere | internal/resolve/merge.go:90-97 | whatever a value is said to have displaced was contributed at its path by the layer named, reading as stated, or was a map the fold held there before |
| Disputes.RepeatHides | internal/resolve/merge.go:74-78 | any value, a list for one: a repeat of a lower value hides the disagreement after it, and the last layer wins |
| Disputes.UnnoticedConflict | internal/resolve/merge.go:74-78 | three layers in which two of one precedence disagree and no conflict is recorded |
| Disputes.MapThenScalar | internal/resolve/merge.go:42-44 | two layers of one precedence, a map and a scalar: no conflict is recorded and the scalar wins |
| Provenance.LeafNamesItsSource | internal/resolve/merge.go:56-112 | every leaf is credited to a layer that contributed an equal value at that path |
| Provenance.FoldOrdered | internal/resolve/merge.go:90-97 | what a leaf displaced comes from strictly falling precedences, starting below its own |
| Provenance.FoldConflictsAreReal | internal/resolve/merge.go:79-89 | a recorded conflict names two contributions of one precedence at the path it gives, which read differently |
| Provenance.FieldIsDotted | internal/resolve/merge.go:127-132 | the field of a conflict is its path with dots |
| Canonical.CanonicalPrefix | internal/document/value.go:108-143 | an encoding followed by anything determines what the value declares and what follows |
| Canonical.CanonicalIgnoresProvenance | internal/document/value.go:103-134 | provenance and quoting leave no trace in the encoding |
| Canonical.CanonicalTells | internal/document/value.go:108-134 | two values are written alike if and only if they declare the same |
| Canonical.StringPrefix | internal/document/value.go:136-143 | an escaped JSON string ends where it says, whatever it contains |
| Canonical.Builder.WriteCanonical | internal/document/value.go:108-134 | the builder grows by exactly the encoding, which the reader below takes apart |
| Reader.StringReads | internal/document/value.go:136-143 | a reader of JSON strings with its own table of escapes (section 7 of RFC 8259) gets back every string as it was, and what follows it |
| Reader.WrittenPlain | internal/document/value.go:136-143 | which characters are written as they are, and which by a two-character escape |
| Reader.LowerCaseEscape | internal/document/value.go:136-143 | hexadecimal escapes are in lower case |
| Reader.EncodingReads | internal/document/value.go:108-134 | a reader of JSON texts (section 2 of RFC 8259) that insists on ascending keys gets back what was declared: brackets, commas, colons and quotes are where they belong |
| Document.ReferencePrefix | internal/document/document.go:129-131 | a printed reference says where it ends |
| Document.ParsesItsText | internal/document/names.go:99-111 | a reference is parsed from exactly the text it prints as |
| Document.TargetSays | internal/document/identity.go:21-37 | what a resource manages: its path, its id or its name by type |
| Digest.Write | internal/resolve/resolve.go:63-76 | the bytes hashed are one line per resource, in manifest order |
| Digest.WriteRefs | internal/resolve/resolve.go:85-104 | a reference list is written sorted, and not at all when empty |
| Digest.LinePrefix | internal/resolve/resolve.go:65-73 | one resource's line determines its reference, desired value and three dependency multisets, and where the line ends |
| Digest.InputTells | internal/resolve/resolve.go:61-104 | manifests with equal digest input give the same instructions, resource by resource |
| Digest.SameInstructionsSameInput | internal/resolve/resolve.go:61-104 | and nothing but the instructions is in the digest input |
| DigestReader.SectionReads | internal/resolve/resolve.go:85-104 | a section reads back as its references, sorted |
| DigestReader.InputReads | internal/resolve/resolve.go:61-76 | a reader of digest input that knows the names of the sections gets back, line by line, the reference, what is declared and the three sorted lists |
| Resolve.MergeRefs | internal/resolve/merge.go:137-150 | dependency lists combine as sets in the order first seen, the existing list kept as a prefix |
| Resolve.FoldItem | internal/resolve/resolve.go:150-184 | folding in one document keeps every resource the fold of its settings, and the conflicts recorded exactly those its merges find |
| Resolve.FoldLayers | internal/resolve/resolve.go:150-184 | the loops over layers and documents fold every setting of every resource in order |
| Resolve.ResolveHost | internal/resolve/resolve.go:117-217 | the manifest lists the fold of every resource by reference, and an error is reported exactly when what it says is so: a placeholder that stands for nothing, a conflict found in the fold, both kinds of trigger, an invalid resource |
| Manifest.ListedLooksIn | internal/resolve/resolve.go:219-238 | every listed resource looks its content up in the directory of the matching layer its source is credited to, else of the one its template is, else in that of the first document about it |
| Manifest.MatchingPicks | internal/resolve/resolve.go:130-143 | the layers that apply, each once, in the order given |
| Manifest.ItemsAreListed | internal/resolve/resolve.go:150-151 | the documents folded are those of the matching layers, layer by layer and in their own order |
| Manifest.SettingsArePicked | internal/resolve/resolve.go:150-184 | what is folded for a resource is every document about it in that order, placeholders filled in, under the name and precedence of its layer |
| Resolve.RecordedTellsClean | internal/resolve/resolve.go:186-191 | no conflict is recorded exactly when every resource folds cleanly |
| Resolve.ReportedConflictIsReal | internal/resolve/resolve.go:186-191 | every reported conflict names two layers of one precedence that set the field it gives and read differently |
| Resolve.ResolvesWithoutConflict | internal/resolve/resolve.go:150-191 | where kinds agree, a host resolves without conflict exactly when every change of a value changes one that a lower layer said |
| Resolve.ResolvedIsOverlay | internal/resolve/resolve.go:150-217 | where kinds agree each listed resource is the overlay of its settings in fold order |
| Resolve.ResolvedEdges | internal/resolve/resolve.go:177-180 | the manifest declares an edge exactly when some matching layer does: none can take one away |
| Resolve.ResolvedProvenance | internal/resolve/resolve.go:117-184 | with layers named apart and listed by precedence, every leaf of a merged resource is credited to a layer that set it, and displaced values fall in precedence |
| Resolve.ResolvedReactsOneWay | internal/resolve/resolve.go:196-199 | in a resolved manifest no resource has both kinds of trigger |
| Substitute.SplitIsSplit | internal/resolve/substitute.go:80-106 | the scan is in bounds and splits any text into literals and placeholders with nothing lost |
| Substitute.SplitIsUnique | internal/resolve/substitute.go:80-106 | there is only one such split |
| Substitute.Substituter.Text | internal/resolve/substitute.go:80-106 | the result is the concatenation of expansions over that split, so inserted values are never scanned again |
| Substitute.Substituter.Expand | internal/resolve/substitute.go:110-134 | a name expands to its declared value, a secret to itself, anything else is an error |
| Substitute.Substituter.Value | internal/resolve/substitute.go:54-76 | substitution reaches every scalar of a tree and keeps its shape |
| Manifest.SubstitutedAt | internal/resolve/substitute.go:54-76 | filling in placeholders keeps the shape of a value and changes only the text of its scalars |
| Substitute.PlaceholderComesOut | internal/resolve/substitute.go:80-134 | around any text: host stands for the host, a label for its value, a secret for itself and anything else for nothing, and the rest of the text is substituted as if it stood alone |
| Substitute.UnclosedStays | internal/resolve/substitute.go:93-98 | a text with braces that are not closed stays as it is, and is a mistake |
| Substitute.SecretTextUnchanged | internal/resolve/substitute.go:110-134 | a text with no placeholders but secrets comes through unchanged |
| Substitute.PlainTextUnchanged | internal/resolve/substitute.go:80-106 | a text without open braces comes through unchanged |
| Tags.SelectTag | internal/git/verify.go:196-224 | succeeds, where every question is answered, exactly when some candidate descends from all; an answered failure is ambiguity |
| Tags.TopCommitIsUnique | internal/git/verify.go:191-224 | by antisymmetry the commit is the same for every order of the candidates |
| Tags.SelectTwice | internal/git/verify.go:191-224 | two orders of one candidate set agree on success, commit and error |
| Revision.WrittenReadsBack | internal/revision/revision.go:36-65 | what is written reads back as itself exactly when it is a full object name |
| Revision.AcceptedIsFullName | internal/revision/revision.go:91-115 | only forty or sixty-four lower-case hexadecimal digits are ever accepted |
| Revision.TornReading | internal/revision/revision.go:117-129 | a write cut short would read as nothing, as refused, or as a revision nobody accepted, which is why the file is renamed into place |
| Revision.StateDir.Advance | internal/revision/revision.go:57-65 | the new revision reads back, or the pointer is what it was, under every failure of the write |
| Revision.StateDir.WriteAtomic | internal/revision/revision.go:119-129 | only a completed write followed by a rename reaches the pointer |
| Revision.StateDir.Clear | internal/revision/revision.go:73-84 | back to first contact, even from a file that cannot be read |
| Source.SignedTag | internal/source/source.go:217-267 | finds the tag that tops all tags signed, on the branch and no older than the accepted revision |
| Source.Candidate | internal/source/source.go:171-204 | finds what the configured mode asks for, exactly when there is one, and blames the signature correctly |
| Source.CandidateSays | internal/source/source.go:171-267 | what a candidate is in each mode: the tip, the tip with a good signature, or the signed tag on the branch that all others of the kind lead up to |
| Source.CandidateIsUnique | internal/source/source.go:171-267 | there is at most one candidate |
| Source.CheckCurrent | internal/source/source.go:270-306 | passes exactly a descendant of a present accepted revision, and tells a refusal from a failure of git |
| Source.Fallback | internal/source/source.go:334-361 | the accepted revision again with the cause, or the cause alone |
| Source.Select | internal/source/source.go:128-168 | selects the candidate exactly when a usable one exists, else the accepted revision with the first step that failed and why, and leaves the pointer alone |
| Agent.StepKeepsInvariant | internal/source/source.go:128-361 | every step of a pass, every crash and every reset keeps the invariant of its phase |
| Agent.PointerChain | internal/source/source.go:270-306 | over every run from any disk, with the descendant control on or in signed-tag mode, pointer values between resets form a chain under ancestry |
| Agent.ChainNeedsOrder | internal/source/source.go:270-278 | the chain is kept over every run if and only if one of the two controls is on |
| Agent.AcceptingMoves | internal/source/source.go:274-278 | with neither control one pass takes the pointer from any revision to any other |
| Agent.PointerIsEarned | cmd/datum/agent.go:126-162 | the pointer changes only at a reset, or at a rename of a revision found by the configured verification and then resolved from its own tree in the same pass |
| Agent.PointerStaysReadable | internal/revision/revision.go:117-129 | no pass and no crash leaves a pointer that cannot be read |
| Agent.SelectedIsCurrent | internal/source/source.go:128-168 | what a pass reconciles is the accepted revision or one that descends from it |
| Agent.FetchingPass | cmd/datum/agent.go:123-163 | the pass is a run of these steps; it records exactly a newer, resolved, fully named revision, and a failed record changes nothing else |
| Schedule.Schedule.constructor | internal/schedule/schedule.go:66-75 | the offset lies within the splay, and a missing interval is a minute |
| Schedule.Schedule.Backoff | internal/schedule/schedule.go:90-98 | after any history the multiplier is two to the trailing run of upstream failures, capped at three |
| Schedule.Schedule.Record | internal/schedule/schedule.go:101-114 | the capped counter stays in step with the history |
| Schedule.Schedule.Next | internal/schedule/schedule.go:122-145 | the first tick after now, at most one backed-off interval away, with no overflow of 64 bits on the way |
| Schedule.Schedule.Wait | internal/schedule/schedule.go:148-150 | now plus the wait is the next tick, at most one backed-off interval away |
| Schedule.TickAfterDelay | internal/schedule/schedule.go:131-144 | the delay computed from phase and offset leads to the least later instant congruent to the offset |
| Schedule.BackedOffTicks | internal/schedule/schedule.go:123-129 | backed-off ticks are ordinary ticks if and only if the wide interval is a multiple of the plain one |
| Schedule.BackedOffHostKeepsItsTicks | internal/schedule/schedule.go:123-129 | so they are whenever the interval did not saturate |
| Schedule.SaturationLeavesTheTicks | internal/schedule/schedule.go:125-129 | a saturated interval that is not a multiple leaves the ticks |
| ReportNames.KeyOrder | internal/report/store.go:22-45 | names without extension sort by time to the nanosecond and then by sequence |
| ReportNames.NameClaims | internal/report/store.go:159-171 | a name gives its sequence to its own instant and to no other |
| ReportNames.RenderedOrder | internal/report/store.go:22-45 | fixed-width fields sort as text the way their numbers do |
| ReportNames.NameReads | internal/report/store.go:22-45 | a name reads back, field by field, as the time in UTC to the nanosecond and the sequence |
| ReportStore.List | internal/report/store.go:100-120 | every report, strictly ascending |
| ReportStore.ClimbsOneWay | internal/report/store.go:113-119 | a directory has one listing |
| ReportStore.ListingIsLog | internal/report/store.go:100-120 | listing gives back the entries in the order they were written |
| ReportStore.NextSequence | internal/report/store.go:152-171 | one past every sequence in use for an instant, refused only at the highest |
| ReportStore.SequenceFollows | internal/report/store.go:152-171 | a report that is not earlier than the last gets a name behind all that are kept |
| ReportStore.HoldsWhatClaimedIt | internal/report/store.go:172-184 | over every run of links and removals by any number of writers, a name holds exactly the report that claimed it while it was free |
| ReportStore.ReplacedAfterRemoval | internal/report/store.go:172-184 | a published report is only replaced after it was removed |
| ReportStore.Store.Link | internal/report/store.go:174-178 | a name is granted exactly while it is free |
| ReportStore.Store.Publish | internal/report/store.go:172-184 | whatever other writers do before each attempt, publishing is such a run: it claims the first name that is free when asked for, and changes nothing else |
| ReportStore.PublishedIsHeld | internal/report/store.go:174-180 | the granted name was free at the claim and holds this report |
| ReportStore.Store.Prune | internal/report/store.go:122-130 | what remains is the last entries, and all it does is remove |
| ReportStore.Store.Write | internal/report/store.go:30-54 | the directory holds the last twenty of everything written so far, and it fails only when the sequence is exhausted |
| ReportStore.Store.Latest | internal/report/store.go:58-68 | the report written last |
| ReportStore.Store.History | internal/report/store.go:71-86 | the last twenty or fewer, newest first |
| Glob.MatchSegments | internal/discover/glob.go:18-40 | terminates, and matches exactly the paths that fall into one share per pattern segment |
| Glob.FirstShare | internal/discover/glob.go:18-40 | a pattern denotes a path when its first segment takes a leading share and the rest denotes what remains |
| Glob.MatchGlob | internal/discover/glob.go:14-16 | matching on the segments between slashes |
| Glob.JoinedSplitsBack | internal/discover/glob.go:48 | segments joined with slashes split back into themselves |
| Glob.Excluded | internal/discover/glob.go:44-54 | excluded exactly when some pattern denotes a non-empty leading part of the path |
| Glob.ExclusionIsInherited | internal/discover/glob.go:42-54 | everything beneath an excluded directory is excluded |
| Size.ParseSize | internal/config/scalars.go:108-138 | the size a text denotes by the first unit it ends in, in any case |
| Size.CountAndUnit | internal/config/scalars.go:113-132 | the unit and the gap before it do not get in the way of the count |
| Size.IntegerCount | internal/config/scalars.go:118-125 | an integer count is accepted exactly when the product fits, and denotes the product |
| Size.BareInteger | internal/config/scalars.go:133-137 | an integer without a unit is accepted exactly when it is not negative, and is its own value |
| Size.PrefixesScale | internal/config/scalars.go:94-105 | each step of the prefix from none over K, M and G to T is another factor of 1024, however the unit is spelt |
| Size.FractionCount | internal/config/scalars.go:126-131 | a fraction is accepted exactly when its bytes are not negative and fit, and is rounded down |
| Size.LowerCaseFits | internal/config/scalars.go:113-117 | units may be in lower case |
| Size.ToString | internal/config/scalars.go:140-151 | printed in the largest binary unit it is a whole number of |
| Size.PrintedSizeParses | internal/config/scalars.go:108-151 | a printed size parses to itself if and only if it is not negative |
| Size.PrintAndParse | internal/config/scalars.go:108-151 | printing and parsing again |
| Decimal.FormatParses | internal/config/scalars.go:147-150 | every 64-bit integer parses back from its printed form |

## Left out

- Running git, package managers and other commands, and file descriptors, permissions and locks: they appear as answers and faults.
- Reading YAML, field tables and per-field validation: whether a merged resource is valid is a parameter of resolution.
- Matching layers to hosts by labels: which layers apply is a parameter, and so is the map of labels.
- Provider selection and capability detection: the set of providers is given.
- SHA-256: the digest is modelled up to the bytes hashed, and the host's hash in the schedule is any number.
- The layers, positions and used placeholders recorded on a resolved resource: they only feed reports.
- Merged resources are kept as values in a map, where the program updates them through pointers: nothing else holds those pointers.
- Host state and the counts of a plan: they summarise results that are modelled.
- Comparing a whole host outside a pass (`internal/plan/diff.go:166-177`): it repeats `Diff.Compare` per resource.
- Applying without a graph: every pass the program makes has one.
- Cancellation is the step at which it is noticed, and there are no timeouts.
- The wording of errors: a refusal, a cause or a conflict is a value. Whether a message of git blames the key is part of its answer.
- Text is a sequence of Unicode scalar values, so invalid UTF-8 is not modelled. Its order is that of the UTF-8 bytes.
- Commit and tag parsing: which letter git gives a signature and which annotated tags exist are answers of the clone.
- Writing the pointer by hand while a pass is running: provisioning happens between passes, clearing at any time.
- Losing power: a rename that happened stays, as after a crash of the process.
- Reports written out of chronological order, report names from older versions, and other files in the report directory: the store holds its own reports, written in time order.
- Calendar arithmetic: a finish time comes in the fields of a UTC calendar and is ordered by them.
- The fraction of a size is an exact real number: every unit is a power of two, so scaling does not round.
- Durations in configuration files: printing and parsing them depends on library formatting.
- Metrics, report contents and command output.
- Agent.PointerChain: takes the trust configuration as fixed over a run.
- ReportStore.Store.Publish: other failures of a link than a taken name are not modelled.
