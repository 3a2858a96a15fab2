# Skill-tree aggregation, modelled in Dafny

This project models the core of a résumé-driven skill-tree application.

**The global skill tree.** One shared document aggregates every user's personal skill graph. For each skill it keeps how many users have the skill in their tree and how many have earned it. For each prerequisite edge it keeps how many graphs contain it. The tree changes in four places:

- **Merge on save.** Saving a user's skills folds that user's graph into the tree. This happens only when a gate lets it through: the user had no graph yet, the stored graph cannot be read, or the new graph has at least 20% more nodes.
- **Rebuild.** An administrative rebuild throws the tree away. It then folds in the earned skills of every user, giving each skill its whole prerequisite chain first.
- **Cleanup.** A repair pass removes duplicate nodes and duplicate connections and fills in defaults.
- **Read.** The read path sweeps duplicates once more and hands out the tree in the shape of one user's skills.

**Around the tree.** The model also covers:

- the résumé analysis: the language-model path with its sweeps and its "too many mastered" override, and the keyword fallback;
- the offline keyword analyzer;
- the node catalogue helpers;
- the user schema's checks;
- the database URI normalisation;
- the user directory with its stable sort by skill total;
- the pure parts of the sidebar, the profile card, the skill-tree view and the skill detail card.

**Inputs in place of I/O.** The model is written in functions over immutable data. Everything the program gets from outside is a parameter:

- `now` is a clock reading.
- `parse` stands for `JSON.parse`: `None` means it throws.
- `reply` is the language model's answer: `None` means the call throws.
- `hasApiKey` says whether the API key is set.
- `env` is the `MONGODB_URI` variable.

**Modules.** They follow the program's files:

- `Individual`: a user's graph.
- `Global`: the tree document, its invariants and lookups.
- `Dedup`: the first-occurrence sweep every route repeats.
- `Chain`: the prerequisite-chain resolver.
- `Rebuild`, `SaveSkills`, `Cleanup` and `ReadTree`: the four routes that touch the tree.
- `ResumeRoute`: the analysis route.
- `ResumeAnalyzer` and `Keywords`: the offline analyzer.
- `NodeCatalog`, `UserSchema`, `MongoUri`, `UserDirectory`, `Levels`, `Sidebar`, `Profile`, `TreeView`, `SkillDetails`: the helpers and components of the same names.
- `Text`: the JavaScript string operations the code relies on.

**Invariants of the tree document** (`Global`):

- I1: node ids are unique.
- I2: connection `(from, to)` pairs are unique.
- I3: every prerequisite a node names is itself a node.
- I4: no node is earned by more users than have it.

**What the proofs show:**

- The merge keeps I1, I2 and I4.
- The rebuild establishes I1, I2 and I4, and it also establishes I3 when it reports no errors. A rebuild that synthesises a foundation node does not pass the node schema, so its write fails (see "Left out").
- The cleanup restores I1 and I2 from any stored state.

Observations the proofs make precise:

- The skill-tree view spreads `skillTreeData.software`, `skillTreeData.hardware` and `skillTreeData.categories`. The fixture file `data/skill-tree-data.ts` defines none of these lists; it has `programming`, `webDevelopment`, `devops`, `design` and `management`. The view's lists are therefore parameters of `TreeView.CreateNodes` and `TreeView.CreateEdges`.
- The detail card matches a prerequisite badge by slug: lower-cased, with each run of whitespace turned into `-`. A prerequisite written as an id matches as written (`SkillDetails.PrereqBadgeEarned`). A name such as `HTML & CSS` slugs to `html-&-css`, which is never the id `html-css`.
- The fallback of the analysis route removes earned skills from its five offered skills. None of those five has a keyword in its table, so the filter never removes anything (`ResumeRoute.FallbackOffersAll`).
- A skill that is both in the stored earned list and earned in the stored tree counts twice in the user list's and the profile's totals (`Profile.CountedTwice`). The same skill is highlighted once (`Sidebar.HighlightBelowTotal`).
- The merge sweeps duplicate nodes out of the stored tree but not duplicate connections. A stored duplicate pair survives a merge (`SaveSkills.DuplicateConnectionsSurvive`).

## Model

| member | source | states |
|---|---|---|
| Individual.FindSource | app/api/rebuild-global-tree/route.ts:23 | the lookup in the user's graph finds a node exactly when one carries the id, and the node found carries it and belongs to the graph |
| Individual.EarnedNodes | app/api/rebuild-global-tree/route.ts:137 | the earned filter keeps exactly the earned nodes of the graph |
| Individual.EarnedNodesCount | components/user-profile.tsx:34 | the earned filter's length is the number of earned positions of the graph |
| Global.FindNode | app/api/save-skills/route.ts:43 | the node lookup returns the first index carrying the id, and nothing exactly when the id is absent |
| Global.NodeFor | app/api/save-skills/route.ts:43 | the node found for an id carries that id and is one of the tree's nodes; there is none exactly when no node has the id |
| Global.DedupLookup | app/api/save-skills/route.ts:24-35 | sweeping duplicate nodes changes no lookup: the node, the user count and the earned count found for every id are those the unswept list gave |
| Global.FindNodeAppendNew | app/api/save-skills/route.ts:57 | a node appended under a new id is the one later lookups of that id return |
| Global.UpdateKeepsIds | app/api/save-skills/route.ts:59-80 | updating a node in place keeps the id set, every lookup and id uniqueness |
| Global.AddConnectionCount | app/api/save-skills/route.ts:89-109 | folding one edge adds 1 to the count found for its own pair and leaves every other pair's count alone |
| Global.FoldConnectionsCount | app/api/save-skills/route.ts:85-110 | after folding a list of edges, each pair's count is its stored count plus the number of times the list carries that pair |
| Global.FoldConnectionsUnique | app/api/save-skills/route.ts:89-109 | folding edges never creates a second connection for a pair (I2 is kept) |
| Global.FreshTreeInvariants | app/api/save-skills/route.ts:14-22 | the tree created when none is stored satisfies I1 to I4 and counts no user |
| Chain.EnsureChain | app/api/rebuild-global-tree/route.ts:8-70 | resolving a skill only appends nodes and keeps I1 and I4; an id already visited or present changes nothing; a foundation id missing from the graph gets a category node; without a break the skill ends up in the tree and every appended node's prerequisites are present or still on the path; a break names an id found neither in the graph nor among the foundations |
| Chain.ChainFromSource | app/api/rebuild-global-tree/route.ts:49-69 | a skill found in the user's graph has its prerequisites resolved with itself on the path; without a break its own node is appended last and the skill is then in the tree; on a break the skill itself is never appended and the nodes appended before it stay |
| Chain.EnsureAll | app/api/rebuild-global-tree/route.ts:50-54 | resolving a prerequisite list keeps the tree's prefix, I1 and I4; without a break every listed prerequisite is present or on the path |
| Chain.FoundationOutsideSchema | app/api/rebuild-global-tree/route.ts:29-38 | a synthesised category node has no prerequisites and its category `Category` is outside the node schema's enum |
| Chain.ChainKeepsClosed | app/api/rebuild-global-tree/route.ts:8-70 | a resolution that does not break turns a prerequisite-closed tree (I3) into a closed tree holding the skill |
| Chain.CycleTerminates | app/api/rebuild-global-tree/route.ts:10-14 | two skills that name each other as prerequisites are resolved without looping: each is appended once, the deeper one first |
| Chain.BrokenChainKeepsPrefix | app/api/rebuild-global-tree/route.ts:42-46 | an unknown prerequisite breaks the chain after the prerequisites before it were appended, and the skill itself is not appended |
| Rebuild.CountEarner | app/api/rebuild-global-tree/route.ts:155-164 | counting another earner raises both counters by one, keeps id and prerequisites, and never shortens the description |
| Rebuild.ProcessSkill | app/api/rebuild-global-tree/route.ts:140-171 | one earned skill keeps the existing ids, I1 and I4; a counted skill is in the tree afterwards and keeps I3; a skill already present is always counted |
| Rebuild.ProcessSkills | app/api/rebuild-global-tree/route.ts:140-171 | every earned skill is either counted or an error, and without errors I3 is kept |
| Rebuild.ProcessUser | app/api/rebuild-global-tree/route.ts:112-199 | one user keeps the tree healthy (I1, I2, I4); a user with a graph adds 1 to the processed users; an unparseable graph adds at least 1 to the errors |
| Rebuild.FoldUsers | app/api/rebuild-global-tree/route.ts:112-200 | the user loop keeps the tree healthy, counts the processed users as the users with a graph, and counts at least one error per unparseable graph |
| Rebuild.Rebuild | app/api/rebuild-global-tree/route.ts:89-223 | no users means the failure reply; otherwise the new tree is healthy, its user total is the number of processed users, the stats report every queried user, the final sizes are the list lengths, and an error-free rebuild is prerequisite-closed |
| Rebuild.FoldUsersConnections | app/api/rebuild-global-tree/route.ts:174-191 | the user loop's connection counts are the stored counts plus the occurrences of each edge in the processed graphs |
| Rebuild.RebuildConnections | app/api/rebuild-global-tree/route.ts:173-191 | every connection count of the rebuilt tree is the number of times the processed users' graphs list that edge |
| Rebuild.UserCountsExisting | app/api/rebuild-global-tree/route.ts:153-164 | with the corrected "new node" test, a user raises both counters of a skill already in the tree by the number of times the user earned it |
| Rebuild.AsWrittenUndercounts | app/api/rebuild-global-tree/route.ts:154 | two users who earned the same lone skill leave it at 1 user of 1 although the tree counts 2 users |
| Rebuild.CorrectedCountsBoth | app/api/rebuild-global-tree/route.ts:153-164 | with the corrected test the same two users leave the skill at 2 of 2 |
| SaveSkills.NewPrereqs | app/api/save-skills/route.ts:75 | the new prerequisites are exactly the incoming ones not already stored |
| SaveSkills.UnionPrereqs | app/api/save-skills/route.ts:73-80 | the merged prerequisite list starts with the stored list, holds exactly the stored and incoming prerequisites, and appends only ones not stored |
| SaveSkills.UnionPrereqsIdempotent | app/api/save-skills/route.ts:73-80 | merging the same incoming prerequisites a second time changes nothing |
| SaveSkills.NewNode | app/api/save-skills/route.ts:45-57 | a skill not yet in the tree copies the incoming node's id, name, category, description and prerequisites, has no children, and starts at 1 user, earned by 1 if the user earned it and by 0 otherwise |
| SaveSkills.MergeUserNode | app/api/save-skills/route.ts:41-81 | one incoming node is appended as a new node when its id is absent and otherwise merged into the first stored node with its id, everything else in place; ids stay unique and I4 is kept |
| SaveSkills.MergeNode | app/api/save-skills/route.ts:58-81 | merging into a stored node adds one user and one earner if earned, keeps I4, keeps the longer description and unions the prerequisites |
| SaveSkills.MergeNodes | app/api/save-skills/route.ts:38-83 | the node loop keeps existing ids in place, makes the id set the union of the stored and incoming ids, and keeps I1 and I4 |
| SaveSkills.MergeNodesCounts | app/api/save-skills/route.ts:41-64 | after the node loop each skill's user count grows by the number of incoming nodes with its id, and its earned count by the number of those that are earned |
| SaveSkills.UpdateGlobalTree | app/api/save-skills/route.ts:9-119 | the merged tree has unique ids (the swept stored ids plus the incoming ones), keeps I2 and I4, counts one more user and carries the new timestamp |
| SaveSkills.UpdateCounts | app/api/save-skills/route.ts:24-83 | across the whole merge each skill's counts are the first stored node's counts plus the incoming occurrences |
| SaveSkills.UpdateConnectionCounts | app/api/save-skills/route.ts:85-110 | across the whole merge each pair's count is the stored count of its first entry plus the incoming occurrences |
| SaveSkills.DuplicateConnectionsSurvive | app/api/save-skills/route.ts:85-110 | the stored connections are not swept, so a duplicated pair is still duplicated after a merge |
| SaveSkills.ShouldMerge | app/api/save-skills/route.ts:140-163 | the global tree is updated exactly when a graph is submitted and the user had none, the stored one does not parse, or the node count grew by at least 20% |
| SaveSkills.SignificantIsTwentyPercent | app/api/save-skills/route.ts:152-153 | the integer growth test agrees with the source's division `(new - old) / old >= 0.2` over the rationals |
| SaveSkills.NoGrowthNeverMerges | app/api/save-skills/route.ts:152-153 | resubmitting a graph with no more nodes than the stored one never updates the global tree |
| SaveSkills.GateMonotone | app/api/save-skills/route.ts:152-153 | a larger new graph never closes a gate a smaller one opened |
| SaveSkills.SaveSkills | app/api/save-skills/route.ts:183-198 | the save changes the global tree exactly when the gate opens, and the changed tree is then the merge of the submitted graph into the stored tree (unique ids, one more user) |
| SaveSkills.UpdateKeepsSchemaValid | models/global-tree.ts:27-36 | when every stored node and every incoming node pass the node schema, every node of the merged tree passes it, so the write is not rejected |
| Cleanup.CleanNode | app/api/cleanup-global-tree/route.ts:34-42 | a surviving node keeps every field except its children list, which becomes empty |
| Cleanup.CleanConnection | app/api/cleanup-global-tree/route.ts:58-62 | a surviving connection keeps its pair; a zero count becomes 1 and a positive count is kept |
| Cleanup.CleanTree | app/api/cleanup-global-tree/route.ts:26-72 | the cleaned node list is the cleaned first stored node of each id and the connection list the cleaned first stored connection of each pair, both in the order of first occurrence; hence unique ids and pairs, the same id and pair sets, counts of at least 1 and no children; the stored user total and the new timestamp |
| Cleanup.Cleanup | app/api/cleanup-global-tree/route.ts:14-91 | no stored tree gives the "not cleaned" reply; otherwise every original record is either kept or counted as removed, one node survives per distinct id and one connection per distinct pair |
| Cleanup.CleanTreeIdempotent | app/api/cleanup-global-tree/route.ts:26-72 | a second cleanup removes nothing and changes only the timestamp |
| Cleanup.CleanConnectionsByArrow | app/api/cleanup-global-tree/route.ts:49-67 | the sweep as written leaves no two connections with the same arrow string and never grows the list |
| Cleanup.ArrowKeyCollision | app/api/cleanup-global-tree/route.ts:55 | two connections with different pairs can share an arrow string; the sweep as written then drops one, and the pair-keyed sweep keeps both |
| ReadTree.ReadGlobalTree | app/api/get-global-tree/route.ts:14-83 | a missing or empty tree gives the "no tree" reply; otherwise the view's nodes are the first stored node of each id and its edges the first stored connection of each pair, both converted and in the order of first occurrence; no node is earned, there are no skills or points, the user total is the stored one and the totals are the list sizes |
| ReadTree.ReadAfterCleanup | app/api/get-global-tree/route.ts:26-72 | reading a cleaned tree gives the same nodes and edges as reading it before the cleanup |
| Dedup.DedupDistinct | app/api/save-skills/route.ts:24-35 | the sweep leaves no two elements with one key and loses no key |
| Dedup.DedupSubseq | app/api/save-skills/route.ts:24-35 | the sweep keeps its survivors in their original order |
| Dedup.DedupKeepsFirst | app/api/get-global-tree/route.ts:27-35 | the first element carrying each key survives |
| Dedup.FirstIndices | app/api/get-global-tree/route.ts:27-35 | the positions listed are first occurrences of their key, every first occurrence is listed, and the list is increasing |
| Dedup.FirstIndicesUnique | app/api/get-global-tree/route.ts:27-35 | those three facts determine the list of first-occurrence positions |
| Dedup.DedupSwept | app/api/save-skills/route.ts:24-35 | the sweep's survivors are exactly the elements at the first-occurrence positions, in order |
| Dedup.DedupOfDistinct | app/api/cleanup-global-tree/route.ts:26-47 | on a list without repeated keys the sweep changes nothing |
| Dedup.DedupIdempotent | app/api/get-global-tree/route.ts:26-47 | sweeping a swept list changes nothing |
| Dedup.DedupLength | app/api/cleanup-global-tree/route.ts:84-89 | one element survives per distinct key |
| Dedup.DedupLoop | app/api/cleanup-global-tree/route.ts:26-47 | the loop with its seen-set and duplicate counter computes the sweep, and the survivors plus the removed count make up the input |
| ResumeRoute.JsonSpan | app/api/analyze-resume/route.ts:89-92 | there is no span exactly when no `}` follows a `{`; otherwise the span starts with `{`, ends with `}` and occurs in the reply |
| ResumeRoute.JsonSpanFrame | app/api/analyze-resume/route.ts:89 | a braced object framed by text with no `{` before it and no `}` after it is exactly the span found |
| ResumeRoute.SweepNodes | app/api/analyze-resume/route.ts:96-114 | the reply's nodes are swept to the first node of each id, in the order of first occurrence, keeping every id |
| ResumeRoute.SweepEdges | app/api/analyze-resume/route.ts:116-135 | the reply's connections are swept to the first connection of each arrow string, in the order of first occurrence, keeping every arrow string |
| ResumeRoute.SweepGraphIdempotent | app/api/analyze-resume/route.ts:96-135 | sweeping an already swept reply changes nothing |
| ResumeRoute.MasteredOverride | app/api/analyze-resume/route.ts:137-154 | the override touches only the mastered flags and only clears them; below the 30% threshold nothing changes; above it exactly the mastered nodes among the first two keep the flag |
| ResumeRoute.MasteredOverrideSettles | app/api/analyze-resume/route.ts:137-154 | after the override fires at most two nodes are mastered, the earned count is unchanged, and a second override changes nothing |
| ResumeRoute.MatchIndices | app/api/analyze-resume/route.ts:163-169 | the listed positions are exactly the nodes whose earned flag has the wanted value, in increasing order |
| ResumeRoute.MatchIndicesUnique | app/api/analyze-resume/route.ts:163-169 | those three facts determine the list of positions |
| ResumeRoute.IdsWhereAtMatches | app/api/analyze-resume/route.ts:163-169 | the filtered and mapped id list is the node ids at those positions, in node order |
| ResumeRoute.Lists | app/api/analyze-resume/route.ts:162-171 | the earned ids are the ids of the earned nodes and the available ids those of the other nodes, each in node order, one entry per node, with 10 points per earned and 5 per available skill |
| ResumeRoute.Without | app/api/analyze-resume/route.ts:216-217 | the filter keeps exactly the entries not in the drop list, repeat-free if the input was |
| ResumeRoute.Fallback | app/api/analyze-resume/route.ts:190-223 | an id is earned exactly when one of its keywords occurs in the lower-cased résumé, never twice; the offered skills are the fixed five minus the earned ones; points follow the 10/5 rule |
| ResumeRoute.FallbackOffersAll | app/api/analyze-resume/route.ts:209-217 | the fallback always offers all five fixed skills, because none of them is a keyword target |
| ResumeRoute.Analyze | app/api/analyze-resume/route.ts:35-186 | the graph path is taken exactly when a key is set, the model answers, a span is found, it parses and has a node list; otherwise the fallback answers; on the graph path the returned nodes are the swept nodes after the mastered override, the connections are the swept connections, and the lists are those of the returned nodes (unique per id, repeat-free, disjoint, covering exactly the node ids) |
| Keywords.MatchedIds | lib/resume-analyzer.ts:58-63 | the matched ids are exactly the targets of keywords that occur in the text |
| Keywords.ScanSpec | lib/resume-analyzer.ts:58-63 | the scan's earned list holds exactly the ids whose keyword occurs, without repeats, and is no longer than the table |
| Keywords.ScanIsDedup | lib/resume-analyzer.ts:58-63 | the push-unless-present loop is the first-occurrence sweep of the matched ids |
| ResumeAnalyzer.ApplyRules | lib/resume-analyzer.ts:65-112 | a skill is offered by the rules exactly when some rule names it, its enabler is earned and it is not |
| ResumeAnalyzer.ApplyRulesNoDuplicates | lib/resume-analyzer.ts:65-112 | rules that name distinct skills offer each skill at most once |
| ResumeAnalyzer.NothingEarnedNothingFires | lib/resume-analyzer.ts:114-117 | with nothing earned no rule fires, so the starter list is what is offered |
| ResumeAnalyzer.AddIfMissing | lib/resume-analyzer.ts:119-128 | a foundational skill is offered afterwards unless earned, nothing else is added, and the list stays repeat-free |
| ResumeAnalyzer.AvailableSpec | lib/resume-analyzer.ts:65-128 | for any rule table naming distinct skills: the offered list is repeat-free and holds no earned skill; it holds every foundational skill not earned, the starter skills when nothing is earned and the skill of every rule that fires; and it holds nothing else |
| ResumeAnalyzer.AnalyzeResume | lib/resume-analyzer.ts:3-135 | earned ids are exactly the keyword hits of the lower-cased text, without repeats; the offered list is the rule-based one; points follow the 10/5 rule |
| ResumeAnalyzer.AnalyzeResumeSpec | lib/resume-analyzer.ts:3-135 | for every résumé the offered list is repeat-free and disjoint from the earned list, every foundational skill is earned or offered, and every offered skill has a reason: a fired rule, the starter list, or the foundational list |
| NodeCatalog.FindNodeByName | data/nodes.ts:63-65 | the lookup finds nothing exactly when no entry has the name, and otherwise the first entry with it |
| NodeCatalog.NodesByCategory | data/nodes.ts:68-70 | exactly the entries of the category, in catalogue order |
| NodeCatalog.AvailableNodes | data/nodes.ts:73-78 | exactly the entries not accomplished whose prerequisites are all accomplished, in order; an unaccomplished entry without prerequisites is always available |
| NodeCatalog.AvailableMonotone | data/nodes.ts:73-78 | accomplishing more never makes an available entry unavailable |
| UserSchema.CheckEmailIsShape | models/user.ts:28-30 | the e-mail check accepts exactly the strings of the form local `@` domain `.` suffix, none of whose parts is empty or holds whitespace or `@` |
| UserSchema.EmailShapeOneAt | models/user.ts:29 | an accepted address has exactly one `@` |
| UserSchema.LowerKeepsEmailShape | models/user.ts:26-30 | lower-casing before the check never changes whether an address is accepted |
| UserSchema.CreateUser | models/user.ts:16-48 | a user is stored exactly when name, e-mail and password all pass; otherwise the reply lists exactly the failing fields; a stored user has a name of at most 60 characters, a well-shaped lower-cased e-mail, a password of at least 8 characters, and the submitted skill lists, each empty when missing |
| MongoUri.Configured | lib/mongodb.ts:18-24 | an unset or empty variable gives the local default URI, any other value is used as given |
| MongoUri.NormaliseUri | lib/mongodb.ts:26-41 | the URI used always ends with the database name; one already ending with it is unchanged |
| MongoUri.NormaliseIdempotent | lib/mongodb.ts:26-41 | normalising a normalised URI changes nothing |
| MongoUri.HostOnlyUriLosesHost | lib/mongodb.ts:32 | a URI without a database path loses its host: its last `/` is the second one of `//` |
| MongoUri.NormaliseUriKeepingHost | lib/mongodb.ts:26-41 | the corrected normalisation also always ends with the database name and leaves a URI already ending with it unchanged |
| MongoUri.KeepingHostAppends | lib/mongodb.ts:33-36 | with the corrected normalisation a host-only URI keeps its host and gets `/UsersDB` appended |
| UserDirectory.DecodeTree | app/api/get-users-with-skills/route.ts:23-33 | a missing or empty stored tree and an unparseable text both read as no tree; an object is used as stored |
| UserDirectory.Summarise | app/api/get-users-with-skills/route.ts:35-42 | an entry keeps the user's id, name and e-mail; missing lists read as empty; the tree nodes are those of the decoded tree, or none if it does not decode; the total is the stored earned count plus the number of earned positions in those nodes |
| UserDirectory.SortByTotal | app/api/get-users-with-skills/route.ts:46 | the sort is a permutation into non-increasing totals |
| UserDirectory.SortIsStable | app/api/get-users-with-skills/route.ts:46 | users with equal totals keep their stored order |
| UserDirectory.ListUsers | app/api/get-users-with-skills/route.ts:22-46 | the reply has one entry per user, is a permutation of the summaries, and is sorted most skilled first |
| Levels.Level | components/user-list-sidebar.tsx:110 | the level is at least 1 and every 5 skills add one level |
| Levels.TierCountsThresholds | components/user-list-sidebar.tsx:113-185 | the badge's rank is the number of the thresholds 2, 4, …, 20, 25 that the level reaches |
| Levels.TierMonotone | components/user-list-sidebar.tsx:108-185 | more skills never give a lower badge |
| Levels.TitleOf | components/user-profile.tsx:150 | the title's rank is the number of the thresholds 3, 6 and 11 that the level reaches |
| Levels.TitleMonotone | components/user-profile.tsx:150 | more skills never give a lower title |
| Sidebar.EarnedIds | components/user-list-sidebar.tsx:83 | the ids of exactly the earned tree nodes, one per earned node |
| Sidebar.Highlight | components/user-list-sidebar.tsx:80-87 | the highlighted skills are the first occurrence of each id in the stored earned skills followed by the earned node ids, in that order: repeat-free, and exactly the stored earned skills and the earned node ids |
| Sidebar.HighlightBelowTotal | components/user-list-sidebar.tsx:80-87 | when a stored earned skill is also an earned node, fewer skills are highlighted than the user's total counts |
| Sidebar.FirstsOfSplit | components/user-list-sidebar.tsx:99-102 | taking the first character of every space-separated word reads off the word starts |
| Sidebar.Initials | components/user-list-sidebar.tsx:98-105 | the initials are the first two word starts, upper-cased |
| Sidebar.LevelBadge | components/user-list-sidebar.tsx:108-185 | a user's badge rank is the number of badge thresholds their level reaches |
| Sidebar.LevelBadgeMonotone | components/user-list-sidebar.tsx:108-185 | a user with more skills never shows a lower badge |
| Profile.TotalSkills | components/user-profile.tsx:34 | the total is the stored earned count plus the number of earned nodes in the tree, no tree counting none |
| Profile.TotalAgreesWithDirectory | components/user-profile.tsx:34 | the card's total equals the user list's total for the same stored record |
| Profile.CountedTwice | components/user-profile.tsx:34 | a skill stored as earned and also earned in the tree counts twice |
| Profile.ProfileHeading | components/user-profile.tsx:34-150 | the heading's level brackets the total in steps of 5, its badge rank counts the badge thresholds reached and its title rank counts the title thresholds reached |
| Profile.SkillPoints | components/user-profile.tsx:37 | the stored points when they are non-zero, otherwise 10 per earned and 5 per available skill; zero only when nothing is stored, earned or available |
| Profile.LocalPart | components/user-profile.tsx:120 | the local part is the longest prefix of the address without `@`: it holds no `@` and ends at the first `@` or at the end of the address |
| Profile.LocalPartOf | components/user-profile.tsx:120 | the local part of `p@q` is `p` whatever `q` holds |
| Profile.SpaceSeparators | components/user-profile.tsx:120 | every `.` and `_` becomes a space and nothing else changes |
| Profile.Capitalise | components/user-profile.tsx:120 | capitalising changes letter case only, and only at word starts, where no lower-case letter remains |
| Profile.CapitaliseIdempotent | components/user-profile.tsx:120 | capitalising twice is capitalising once |
| Profile.DisplayName | components/user-profile.tsx:119-120 | a non-empty stored name is shown as is; otherwise a non-empty e-mail gives its local part with separators turned into spaces, up to letter case; otherwise `User` |
| Profile.DerivedNameExample | components/user-profile.tsx:119-120 | `jo.x@a.io` is shown as `Jo X` |
| Profile.EmptyLocalPartGivesEmptyName | components/user-profile.tsx:119-120 | an address starting with `@` gives an empty name rather than `User` |
| TreeView.SkillStatus | components/skill-tree/skill-tree-visualization.tsx:30-34 | earned exactly when the id is earned, available exactly when it is offered and not earned, locked otherwise |
| TreeView.PrereqEdges | components/skill-tree/skill-tree-visualization.tsx:152-165 | one edge per prerequisite entry, each from a prerequisite to the skill that lists it |
| TreeView.EveryPrerequisiteDrawn | components/skill-tree/skill-tree-visualization.tsx:152-165 | every prerequisite of every skill gets its edge |
| TreeView.CreateEdges | components/skill-tree/skill-tree-visualization.tsx:144-213 | the edges are the three lists' prerequisite edges in order, followed by the six bracket curves |
| TreeView.SkillNodes | components/skill-tree/skill-tree-visualization.tsx:100-115 | a skill is drawn as a skill node exactly when it is not a category and has a position |
| TreeView.CreateNodes | components/skill-tree/skill-tree-visualization.tsx:99-141 | the skill nodes are exactly the placed skills of the three lists, followed by one heading per category |
| SkillDetails.DetailsStatus | components/skill-details.tsx:16-43 | Mastered exactly when earned, Ready to Learn exactly when offered and not earned, Locked otherwise |
| SkillDetails.StatusAgreesWithTree | components/skill-details.tsx:20-43 | the detail card and the tree view always show a skill in the same status |
| SkillDetails.ShowsReadyPanel | components/skill-details.tsx:146-154 | the Ready-to-Learn panel is shown exactly when the skill is offered |
| SkillDetails.MasteredWithPanel | components/skill-details.tsx:16-154 | a skill both earned and offered reads Mastered and still shows the Ready-to-Learn panel |
| SkillDetails.HyphenateRun | components/skill-details.tsx:91 | a word, then a non-empty whitespace run, then the rest: the word is kept, the run becomes one `-` and the rest is treated on its own |
| SkillDetails.HyphenateNoSpace | components/skill-details.tsx:91 | a string without whitespace is unchanged |
| SkillDetails.HyphenateKeepsVisible | components/skill-details.tsx:91 | replacing whitespace runs keeps every other character in order |
| SkillDetails.SlugRun | components/skill-details.tsx:91 | the slug of a word, a whitespace run and the rest is the lower-cased word, one `-`, then the slug of the rest |
| SkillDetails.SlugIdempotent | components/skill-details.tsx:91 | a slug is its own slug |
| SkillDetails.PrereqBadgeEarned | components/skill-details.tsx:86-98 | a badge is green exactly when the prerequisite's slug is earned; a prerequisite written as an id is matched as written |
| SkillDetails.SlugOfTwoWords | components/skill-details.tsx:91 | two id-like words separated by a space slug to the hyphenated id |

## Left out

- Persistence is not modelled. This covers database connections, `findOne`, `find`, `save`, `deleteMany` and `findOneAndUpdate`. The stored document is an input and the written document is the result.
- The language-model call and `JSON.parse` are inputs: `reply` and `parse`. The prompt text is left out.
- PDF extraction, sign-up and sign-in (password hashing, sessions) and the contact mail route are outside the aggregation core.
- The thin lookup routes (get-user-profile, get-user-skilltree, get-users-by-skill) only query the database.
- The user queries' filters (`$or`, `$ne`, `$exists`) are left out. The rebuild and the directory receive the users the query returns.
- Timestamps are modelled as the `now` parameter. `Date.now`, the schema's `timestamps` option and `lastUpdated` defaults are not.
- Floating point is left out. This covers the mastery percentage in the read path's node description, positions, the curve offsets and styles. The two fractional comparisons are modelled exactly in integers: the 20% gate and the 30% mastered threshold.
- The read path's decorated description is not modelled. It appends user count, earned count and rounded percentage.
- The save route's write to the user record and its response body are left out (app/api/save-skills/route.ts:165-179 and 200-209). Only the global tree's update and the gate are modelled.
- Concurrency is not modelled. The rebuild deletes before it saves, and two saves may race on the singleton tree.
- Mongoose's own validation of `required` and `enum` on the tree schema runs only on save. It is stated as a predicate (`Global.SchemaValidNode`), not enforced.
- React state, hover handlers, the sidebar's badge slicing, icons and colours are presentation. So are the canvas positions of category headings.
- Case mapping and whitespace are ASCII only. `toLowerCase`, `toUpperCase`, `\s` and `\w` on other characters are not modelled.
- Rebuild.Rebuild: `errorsEncountered` is stated only as at least the number of unparseable graphs. A broken prerequisite chain adds further errors, which the contract does not count exactly. The stat `totalSkillsProcessed` is computed but has no contract beyond the per-user split into counted skills and errors.
- Rebuild.Rebuild: the model returns the rebuilt tree as if the write succeeded. A rebuild that synthesises a foundation node (category `Category`, app/api/rebuild-global-tree/route.ts:29-38) holds a node outside the schema's enum (`Chain.FoundationOutsideSchema`), so the save at app/api/rebuild-global-tree/route.ts:207 throws. The route then answers 500 (lines 224-230) after it already deleted the old tree (line 97), leaving no tree. That failure path is not modelled.
- SaveSkills.SaveSkills: the model returns the merged tree as if the write succeeded. When a node fails the schema the source's write throws, the error is swallowed and the stored tree stays as it was (app/api/save-skills/route.ts:191-194). `SaveSkills.UpdateKeepsSchemaValid` gives the condition under which this cannot happen.
- Profile.DisplayName: states the name derived from an e-mail up to letter case. The exact capitalisation is the contract of `Profile.Capitalise`.
- Sidebar.Initials: upper-cases ASCII letters only.
- ResumeRoute.JsonSpan: states that the span is a braced substring of the reply, not that it runs from the first `{` to the last `}`. `ResumeRoute.JsonSpanFrame` pins the span down for replies framed by text without braces.
- TreeView.CreateNodes: bounds the number of nodes rather than giving it. The count depends on the position table, whose coordinates are presentation.

## Findings

| source | as written | input that shows it | evidently intended | confidence | as-written member | corrected member |
|---|---|---|---|---|---|---|
| app/api/rebuild-global-tree/route.ts:154 | a node is treated as newly created when its counters read 1 of 1, so the counters of a node another user created are never raised while they still read 1 of 1 | two users whose graphs hold the same single earned skill: the skill ends at 1 user and 1 earner while the tree counts 2 users | a node is new only if the current user's chain created it; every later earner raises both counters | not executed | Rebuild.AsWrittenUndercounts | Rebuild.CorrectedCountsBoth |
| app/api/cleanup-global-tree/route.ts:55 | connections are keyed by the string `from->to`, so two different pairs whose ids contain `->` collide; the read sweep at app/api/get-global-tree/route.ts:40 uses the same key | connections `(a->b, c)` and `(a, b->c)`: both give `a->b->c` and the second is dropped | one connection per distinct `(from, to)` pair, the key the merge and the rebuild use to find connections | not executed | Cleanup.ArrowKeyCollision | Cleanup.CleanTree |
| lib/mongodb.ts:32 | the last `/` and everything after it are replaced by `/UsersDB`, even when that `/` belongs to `//` | `mongodb://localhost:27017` becomes `mongodb://UsersDB` and loses its host | a URI without a database path gets `/UsersDB` appended | not executed | MongoUri.HostOnlyUriLosesHost | MongoUri.KeepingHostAppends |
