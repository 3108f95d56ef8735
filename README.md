# RuneComper requirement engine in Dafny

This project models the requirement-graph engine of RuneComper. RuneComper orders the steps towards RuneScape's completionist capes: skill levels, quests and achievements. Each step's prerequisites are combined in AND/OR trees. The engine builds the graph, finds how deep each step sits below the cape, folds required skill levels through the trees, counts dependents, and sorts the steps into a build order. The model states what each part does and proves it.

Modules and the source files they model:

| module | file | source |
|---|---|---|
| `AndOr` | and_or.dfy | `src/util/andOrMap.ts`: the AND/OR element datatype, its recursive folds, and the class `AndOrMap` for `add`, `splice` and `remove` |
| `Requirements` | requirement.dfy | `src/requirements/requirement.ts`: kinds, references, `getRequirementID` and the node with its two trees |
| `Skills` | skills.dfy | `src/requirements/skills.ts`: skill nodes and the per-skill level chains |
| `Combat` | combat.dfy | `src/requirements/combat.ts` |
| `Runescape` | runescape.dfy | `src/model/runescape.ts` |
| `ReqsById` | store.dfy | `convertToMapped`, the `reqsById` map and `getReq` in `src/requirements/index.ts` |
| `MaxDepth`, `MaxLevels`, `DependentCounts` | depth.dfy, levels.dfy, dependents.dfy | the three analysis passes of `src/requirements/index.ts` |
| `Sorting`, `Pipeline` | sorting.dfy, pipeline.dfy | the rest of `getRequirements`: the node list, the rows, the 7-key sort and the validation replay |
| `Achievements` | achievements.dfy | the worklist closure and the trimmed cape of `src/requirements/achievements.ts` |
| `CompSteps`, `Assoc`, `Shortcuts`, `CompShortcut`, `CompPriority`, `CompGain`, `CompLevels`, `CompReqs` | comp_*.dfy, assoc.dfy, shortcuts.dfy, compreqs.dfy | the older planner in `src/compreqs/index.ts`: skill steps, shortcut tallies, priorities, `addMaxLevel` and the final sort |
| `Layers` | layers.dfy | `src/requirements-graph/index.ts`: `formatSkill`, the skilling chains, the graph and `getRequirementLayers` |
| `DefaultMaps`, `Url`, `StringUtil`, `RsWiki` | default_map.dfy, url.dfy, string_util.dfy, rswiki.dfy | the utilities `DefaultMap`, `URLBuilder` and `formatQuery`, `upperFirst`, and the wiki path helpers |
| `Text`, `Wrappers`, `Sets` | text.dfy, wrappers.dfy, sets.dfy | the language's string operations (number to text, `split`, case mapping, code-unit order), Option/Result for `undefined` and thrown errors, and the set-size facts the recursive passes terminate by |

How the model represents the program:

- **Errors.** A thrown `Error` is the `Err` case of a `Result`. The messages of the core's own `throw` statements ("Unknown requirement: ", "Ending requirement not found!", "Graph already has skill: " and the others) appear word for word. A wiki page that cannot be loaded is also an `Err`, but its message ("Failed to load " and the page) is the model's own, because the fetch and its retries are not modelled.
- **`reqsById`.** The map and the analysis fields of its nodes are a value `Store`. It holds the node map, the fields (depth, both levels, the four dependent sets) and the keys in insertion order. Each pass is a function from store to store, and the lemmas beside it state what it may change.
- **Termination.** Each recursive pass carries a ghost set of ids, the nodes the store may ever hold. Its measure is the number of those ids not yet on the path or in the seen set.
- **Depth.** Depth is an integer extended with −∞ (`ExtInt`), the initial value that `convertToMapped` gives.
- **Planner state.** The planner's step objects live in one sequence. `requirementMap` and `skillReqMap` hold positions in that sequence, so a step reached through either table is the same step. JavaScript objects used as dictionaries are lists of (key, value) pairs in insertion order (`Assoc`).
- **Layering.** `getRequirementLayers` threads a `Walk` through its loops: the layers, the depth reached, and the shared seen set. Each layering method also returns, as a ghost result, the names it expanded, in order, so that what it pushed can be stated as a multiset of nodes.

Where the documented behaviour and the code differ, the model follows the code:

- `reduce` combines every child inside a group with that group's own combinator, and the top level with `and`. Each nested group starts again from the seed.
- The depth pass walks recommended leaves as well as required ones, because `Requirement.map` includes recommendations by default. No pass ever writes `depthRecommended`.

## Model

| member | source | states |
|---|---|---|
| AndOr.AndOrMap.constructor | src/util/andOrMap.ts:29-31 | a new map holds exactly the given elements, in order |
| AndOr.AndOrMap.Add | src/util/andOrMap.ts:33-39 | `add` appends its arguments at the end in order, and `length` (top-level elements only) grows by their number |
| AndOr.AndOrMap.Splice | src/util/andOrMap.ts:176-189 | with no selected element nothing changes and the result is undefined; otherwise only the first selected element is replaced by the leaves of the replacement (argument, else the map the predicate returned, else nothing) and returned in a one-element list |
| AndOr.AndOrMap.Remove | src/util/andOrMap.ts:191-201 | the index-adjusting loop leaves exactly `Kept(old values)`: the unselected elements in their original order |
| AndOr.KeptSpec | src/util/andOrMap.ts:191-201 | an element survives `remove` iff it was present and not selected; nothing is added; a predicate selecting nothing changes nothing |
| AndOr.KeptSnoc | src/util/andOrMap.ts:191-201 | `remove`'s result on a list extended by one element is the old result extended by that element iff it is not selected |
| AndOr.FirstSelected | src/util/andOrMap.ts:180-188 | the index `splice` stops at is selected and every earlier element is skipped; with no index, every element is skipped |
| AndOr.Spread | src/util/andOrMap.ts:185-186 | the spread replacement is the replacement's leaves, one top-level leaf each, in iteration order |
| AndOr.SpliceLeaves | src/util/andOrMap.ts:176-189 | after `splice`, the iteration order is the old one with the removed element's leaves replaced, in place, by the replacement's leaves |
| AndOr.LeavesAppend | src/util/andOrMap.ts:41-60 | iterating a concatenation iterates the first part, then the second |
| AndOr.SpreadLeaves | src/util/andOrMap.ts:185-186 | the spread replacement iterates to the same leaves as the replacement |
| AndOr.Map | src/util/andOrMap.ts:77-97 | `map` returns a map with as many top-level elements as the input |
| AndOr.MapLeaves | src/util/andOrMap.ts:77-97 | iterating a mapped map gives `f` of each original leaf, one for one, in iteration order |
| AndOr.MapPreservesShape | src/util/andOrMap.ts:77-97 | `map` keeps the skeleton: after forgetting leaf values the mapped map equals the original (same counts at every level, `and` stays `and`, `or` stays `or`) |
| AndOr.MapIdentity | src/util/andOrMap.ts:77-97 | mapping with the identity gives the map back |
| AndOr.Reduce | src/util/andOrMap.ts:99-137 | `reduce` of an empty map returns the seed unchanged |
| AndOr.FoldSnoc | src/util/andOrMap.ts:113-134 | the group fold is a left fold: the last element is combined last with the group's own combinator, and a nested group contributes its own fold restarted from the seed |
| AndOr.FoldCongruence | src/util/andOrMap.ts:99-137 | `reduce` only looks at the mapper's values on the leaves: mappers that agree there give the same result |
| AndOr.ChildValueCongruence | src/util/andOrMap.ts:113-134 | the same for the value one nested element contributes |
| AndOr.FoldConcatLeaves | src/util/andOrMap.ts:139-145 | folding with singleton lists and concatenation appends the leaves in iteration order to the accumulator |
| AndOr.FlattenIsLeaves | src/util/andOrMap.ts:139-145 | `flatten` returns the leaves in iteration order (that of the iterator and `forEach`, lines 41-75), duplicates kept |
| AndOr.FindNoneSpec | src/util/andOrMap.ts:147-174 | `find` returns undefined iff no leaf of the map satisfies the predicate |
| AndOr.FindSpec | src/util/andOrMap.ts:147-174 | `find` is undefined iff no leaf matches; otherwise it returns the first top-level element whose subtree holds a matching leaf (the group itself for a nested match) |
| AndOr.ElemMatchesSpec | src/util/andOrMap.ts:156-170 | the test `find` applies to one element (the predicate on a leaf, a nested `find` on a group) holds iff a leaf under the element matches |
| Requirements.KindName | src/requirements/requirement.ts:5 | each kind's `type` string is at least five characters and holds no `:` |
| Requirements.GetRequirementID | src/requirements/requirement.ts:40-49 | an id starts with the kind's `type` followed by `:` |
| Requirements.IDsEqual | src/requirements/requirement.ts:40-49 | two ids are equal iff the kinds are equal, the page slugs (text after the last `/w/` piece) are equal and, for skill and combat, the levels are equal |
| Requirements.LevelInID | src/requirements/requirement.ts:44-48 | skill and combat ids of one page differ for different levels; quest and achievement ids never depend on the level |
| Requirements.Requirement.AddRequired | src/requirements/requirement.ts:108-110 | `addRequired` appends to `required` and changes nothing else |
| Requirements.Requirement.AddRecommended | src/requirements/requirement.ts:112-114 | `addRecommended` appends to `recommended` and changes nothing else |
| Requirements.NewRequirement | src/requirements/requirement.ts:82-106 | the constructor stores kind, name, page and level, leaves each tree empty unless supplied, and gives the node the id of its kind, page and level |
| Requirements.Tagged | src/requirements/requirement.ts:147-156 | the calls `forEach` makes on one tree: every leaf, in order, paired with the tree's flag |
| Requirements.OfKindSpec | src/requirements/requirement.ts:57-67 | filtering by `isSkill`/`isQuest`/`isAchievement` keeps exactly the references of that kind, never more elements, and everything when all have that kind |
| Requirements.OfKindAppend | src/requirements/requirement.ts:173-176 | filtering a concatenation is concatenating the filtered parts |
| Requirements.FilterByTypeSpec | src/requirements/requirement.ts:169-190 | `getSkills`/`getQuests`/`getAchievements` return the required leaves of that kind in iteration order, duplicates kept, followed by the recommended ones when the flag is set; a leaf is listed iff it has that kind and lies in a consulted tree |
| Requirements.FindSpecReq | src/requirements/requirement.ts:116-145 | `find` is undefined iff no required leaf matches with `true` and, when recommendations are included, no recommended leaf matches with `false`; a match in the required tree always wins |
| Requirements.MapTreesSpec | src/requirements/requirement.ts:158-167 | `map` has the required tree's element count plus one when recommendations are appended; its leaves are the mapped required leaves followed by the mapped recommended leaves, the order in which `forEach` visits them |
| Skills.NewSkillRequirement | src/requirements/skills.ts:21-44 | a skill node has kind skill, the given name and level, the skill's wiki page unless one is given, no recommendations, and the id of its kind, page and level |
| Skills.DefaultRequiredIsPreviousLevel | src/requirements/skills.ts:25-33 | without an explicit tree the node requires exactly one leaf: the same skill at level−1 on the same page, not boostable, whose id is that of the node one level below |
| Skills.SkillID | src/requirements/skills.ts:43 | a skill node's id is `skill:<page slug>:<level>` |
| Skills.DefaultSkillID | src/requirements/skills.ts:21-44 | on the default page of a slash-free skill name the id is `skill:<Capitalised name>:<level>` |
| Skills.GetMaxLevel | src/requirements/skills.ts:103-112 | the maximum level is 120 iff the level-up table has at least 124 header cells, else 99 |
| Skills.GetSkillRequirements | src/requirements/skills.ts:47-87 | the generator's output is, skill by skill in id order, each skill's level chain up to its maximum level |
| Skills.ChainsOf | src/requirements/skills.ts:49-85 | the outer loop concatenates the chains of the skills in list order |
| Skills.ChainOf | src/requirements/skills.ts:50-84 | the inner loop produces level 1 and then levels 2..maxLevel, as `Chain` describes |
| Skills.LevelNode | src/requirements/skills.ts:62-81 | one pass of the inner loop builds the default node for the level, with the extra leaves added only to level 2 of a skill listed in `SKILL_REQS` |
| Skills.ChainLength | src/requirements/skills.ts:49-85 | a chain to maxLevel ≥ 1 has maxLevel nodes |
| Skills.ChainSpec | src/requirements/skills.ts:49-85 | the chain holds one node per level 1..maxLevel in ascending order, all of the skill, on its page; level 1 requires nothing and each later level's first leaf is the same skill one level lower on the same page |
| Skills.ChainLinks | src/requirements/skills.ts:61-84 | from level 2 on, each node's first prerequisite has exactly the id of the node before it |
| Skills.OnlyInventionLevelTwoHasExtras | src/requirements/skills.ts:12-81 | a chain node has more than one required leaf iff it is Invention level 2, whose extra leaves are the three listed skills at level 80 |
| Combat.NewCombatRequirement | src/requirements/combat.ts:9-28 | a combat node has kind combat, name "Combat", page "/w/Combat_level", the level it was given, empty required and recommended trees, and the id of its kind, page and level |
| Combat.CombatSlug | src/requirements/combat.ts:15 | the slug of the combat page is "Combat_level" |
| Combat.CombatIDShape | src/requirements/combat.ts:26 | a combat node's id is `combat:Combat_level:<level>`, and two combat ids are equal iff the levels are |
| Runescape.SkillsById | src/model/runescape.ts:68-72 | the id table maps exactly the ids 0..28, each to the skill at that position of `SKILLS` |
| Runescape.IsSkillSpec | src/model/runescape.ts:66-76 | `isSkill` accepts a text iff it is one of the names listed in `SKILLS` |
| Runescape.SkillsDistinct | src/model/runescape.ts:34-66 | the 29 names are pairwise distinct, so the skill set has 29 members |
| Runescape.SkillsByIdCoversSkills | src/model/runescape.ts:66-76 | a text is a skill iff it is a value of the id table |
| Runescape.AvgLevelForCombatLvl | src/model/runescape.ts:78-82 | the result is the floor of combatLvl/1.4, i.e. the largest level whose seven-fold does not exceed five times the combat level |
| Runescape.AvgLevelMonotone | src/model/runescape.ts:78-82 | a higher combat level never gives a lower average level |
| Runescape.AvgLevelBelowCombat | src/model/runescape.ts:78-82 | for a non-negative combat level the result lies between 0 and the combat level |
| StringUtil.UpperFirst | src/util/string.ts:4-9 | `upperFirst("")` is ""; otherwise the length is kept, the first character is upper-cased and the rest is unchanged |
| StringUtil.UpperFirstIdempotent | src/util/string.ts:4-9 | capitalising twice is capitalising once |
| StringUtil.UpperFirstFixed | src/util/string.ts:4-9 | a string not starting with a lower-case letter is unchanged |
| DefaultMaps.DefaultMap.constructor | src/util/collections/defaultMap.ts:2-7 | the map starts with the given default function and initial entries |
| DefaultMaps.DefaultMap.Get | src/util/collections/defaultMap.ts:9-15 | a defined stored value is returned and nothing changes; a missing or undefined one is replaced by `getDefault(key)`, which is stored and returned; afterwards the key holds the returned value (so a second `get` returns it without calling the default) and no other key changes |
| Url.EncodeChar | src/util/url.ts:7 | `encodeURI` keeps an unreserved character and turns any other into at least three characters, all `%` or hex digits |
| Url.PercentBytes | src/util/url.ts:7 | each UTF-8 byte becomes three characters: `%` and two hex digits |
| Url.Utf8 | src/util/url.ts:7 | a character encodes to one to four bytes, each below 256 |
| Url.EncodeURILength | src/util/url.ts:7 | encoding never shortens a value, and keeps its length iff every character is left alone |
| Url.EncodeURIIdentity | src/util/url.ts:7 | `encodeURI` is the identity exactly on strings of characters it leaves alone |
| Url.EncodeURIAlphabet | src/util/url.ts:7 | encoded text holds only unreserved characters and `%`, and an `&` appears in it iff it appeared in the input |
| Url.FormatQuery | src/util/url.ts:4-13 | the loop that collects `key=encodeURI(value)` pairs and joins them returns `QueryString(query)` |
| Url.QueryStringPieces | src/util/url.ts:4-13 | an empty query formats to ""; otherwise the result starts with `?`, and the rest splits at `&` into exactly the `key=encoded value` pieces in key order, when no key or value holds `&` |
| Url.SplitJoin | src/util/url.ts:12 | splitting a `join` at its separator gives the pieces back when no piece holds the separator |
| Url.SplitOnCut | src/util/url.ts:12 | a string split at a separator yields the text before its first occurrence, then the split of the rest |
| Url.URLBuilder.Add | src/util/url.ts:18-20 | `add` returns a builder whose base is the old base followed by the part; the original builder is a value and stays unchanged |
| Url.URLBuilder.Build | src/util/url.ts:24-32 | every built URL starts with the builder's base |
| Url.AddThenBuild | src/util/url.ts:18-32 | `add(p).build()` equals `build(p)`, equals `build(p, {})`, equals base + p; `build({})` equals `build()` |
| Url.AddAssociates | src/util/url.ts:18-32 | building a page on an extended builder is building the longer page |
| RsWiki.GetSkillPage | src/rswiki/index.ts:11-13 | a skill's page is `/w/` followed by the capitalised skill name |
| RsWiki.ReplaceSlash | src/rswiki/index.ts:37 | after replacing every `/` by `_-_` no `/` is left |
| RsWiki.FormatPagePathNoSlash | src/rswiki/index.ts:32-38 | a page's file name holds no `/`, so every cache path is a file directly under `./pages/` |
| RsWiki.ReplaceSlashToLower | src/rswiki/index.ts:37 | replacing slashes and lower-casing commute |
| RsWiki.CachePathIgnoresCase | src/rswiki/index.ts:32-38 | pages whose last `/w/` pieces differ only in letter case share a cache path |
| RsWiki.CachePathIgnoresPrefix | src/rswiki/index.ts:32-38 | pages that differ only in a prefix before the last `/w/` share a cache path |
| RsWiki.OverlappingMarker | src/rswiki/index.ts:37 | `split` cuts at non-overlapping occurrences from the left: the file name of "/w/w/x" is "w_-_x" |
| RsWiki.SkillPageSlug | src/rswiki/index.ts:11-13 | for a slash-free skill name, the last `/w/` piece of the skill's page is the capitalised name |
| Text.SplitLastSpec | src/rswiki/index.ts:37 | the last piece of `split` is a suffix of the input and holds no separator |
| Text.SplitLastDropsPrefix | src/requirements/requirement.ts:43 | the last piece ignores everything up to a separator, given text before it that cannot start a separator |
| Text.NoSeparatorSplitLast | src/requirements/requirement.ts:43 | without a separator, the last piece is the whole string |
| Text.IntToStringInjective | src/requirements/requirement.ts:45 | different levels are written differently in an id |
| Text.ParseNatToString | src/requirements/requirement.ts:45 | reading back a written natural number gives the number |
| Text.IntToStringHasNo | src/requirements/requirement.ts:45 | a written number holds no character other than digits and a leading `-` (in particular no `:`) |
| Text.SignShows | src/requirements/requirement.ts:45 | a written number starts with `-` iff it is negative |
| ReqsById.AtLeastTrans | src/requirements/index.ts:466 | `>=` on depths extended with −∞ is transitive |
| ReqsById.ConvertAll | src/requirements/index.ts:119-129 | the loop that fills `reqsById` builds the store `Build(nodes)`: each node under its id, with `convertToMapped`'s defaults |
| ReqsById.Defaults | src/requirements/index.ts:75-89 | after `convertToMapped` every stored id has depth −∞, maxLevel 0 and empty dependent sets, and only stored ids have fields |
| ReqsById.ByIdKeys | src/requirements/index.ts:119-129 | `reqsById` holds exactly the ids of the listed nodes |
| ReqsById.ByIdValue | src/requirements/index.ts:119-129 | each id is stored with the last listed node carrying it |
| ReqsById.KeyOrderSpec | src/requirements/index.ts:119-129 | the map's iteration order lists each id of the nodes exactly once |
| ReqsById.BuildValid | src/requirements/index.ts:119-129 | a freshly built store is well formed: every key has fields and appears once in the order |
| ReqsById.Lookup | src/requirements/index.ts:131-148 | `getReq` succeeds iff the id is stored or the reference is combat; on success the id is stored; otherwise the error is "Unknown requirement: " followed by the id |
| ReqsById.LookupSpec | src/requirements/index.ts:131-148 | a hit returns the store unchanged; a combat miss adds exactly a new combat node of the reference's level under its id, with the defaults, at the end of the order; no lookup changes an existing node or its fields |
| ReqsById.LookupTwice | src/requirements/index.ts:131-148 | after a successful lookup, looking the same reference up again returns the same node and changes nothing |
| ReqsById.LookupValid | src/requirements/index.ts:131-148 | a lookup keeps the store well formed |
| ReqsById.ResolveAll | src/requirements/index.ts:386-474 | `map(getRequirement)` over a node's prerequisites, on success, stores every referenced id, keeps old nodes and their fields, and adds only combat nodes with defaults |
| ReqsById.ResolveAllOk | src/requirements/index.ts:131-148 | resolving a list succeeds iff every reference is stored or names combat |
| ReqsById.ResolveAllErr | src/requirements/index.ts:145 | a failed resolution reports "Unknown requirement: " with the id of a listed reference that is neither stored nor combat |
| ReqsById.ResolveAllValid | src/requirements/index.ts:131-148 | resolution keeps the store well formed |
| MaxDepth.Visit | src/requirements/index.ts:458-479 | `findMaxDepth` returns at once, changing nothing, when the node's id is on the path or its depth already reaches the proposed one; otherwise it only raises depths, only adds combat nodes, changes no other field, leaves nodes on the current path untouched, and ends with the node's depth at least the proposed depth |
| MaxDepth.Each | src/requirements/index.ts:473-477 | visiting the dependencies in turn keeps those guarantees, and every dependency not on the path ends at least at the proposed depth |
| MaxDepth.SetDepthStep | src/requirements/index.ts:470 | setting a depth that was below the proposed one is a raise that touches nothing else |
| MaxDepth.DepthStepTrans | src/requirements/index.ts:458-478 | "only raises depths and adds combat nodes" composes over successive calls |
| MaxDepth.FindMaxDepth | src/requirements/index.ts:458-478 | the pass from the root at depth 0 with an empty path only raises depths and adds combat nodes: a node's depth never decreases |
| MaxDepth.RootDepth | src/requirements/index.ts:466-471 | a root that starts at −∞ ends at depth 0 exactly, since it is on every path below it |
| MaxDepth.ChildrenDeeper | src/requirements/index.ts:466-477 | after visiting a node that was not skipped, each of its prerequisites is stored and ends at least one deeper, unless its id is on the path (the edge closes a cycle and is cut) |
| MaxDepth.VisitWitnessed | src/requirements/index.ts:458-479 | a visit of a node that lies `depth` prerequisite steps below the root writes only depths that are lengths of prerequisite paths from the root |
| MaxDepth.EachWitnessed | src/requirements/index.ts:473-477 | visiting dependencies that lie `depth` steps below the root writes only depths that are path lengths from the root |
| MaxDepth.VisitCloses | src/requirements/index.ts:458-479 | on a store without cycles (the ids are ranked so that every prerequisite ranks below its dependent), a visit from below the whole path leaves every node off the path closed: each prerequisite of a node with a depth is at least one deeper |
| MaxDepth.EachCloses | src/requirements/index.ts:473-477 | visiting dependencies ranked below the path keeps the store ranked and every node off the path closed |
| MaxDepth.PathDepth | src/requirements/index.ts:458-479 | in a closed store with the root at depth 0 the node at the end of a path from the root is at least as deep as the path is long |
| MaxDepth.Longest | src/requirements/index.ts:458-479 | in a closed store with the root at depth 0 no path from the root is longer than the depth of the node it ends at |
| MaxDepth.LongestPaths | src/requirements/index.ts:458-479 | on a store without cycles whose depths are all unset, the pass from the root gives each node the length of the longest prerequisite path from the root to it: each depth written is the length of such a path, and no such path is longer than the depth |
| MaxLevels.Visit | src/requirements/index.ts:374-416 | `findMaxLevels` adds the node's id to the shared seen set, changes only level fields, never touches a node whose id was already seen (so each node is computed at most once), leaves every changed node with maxLevelRecommended ≥ maxLevel, and, for a node seen for the first time that does not list itself, sets maxLevel to the `reduce` of its required tree (AND = max, OR = min, seeded by `Seed`) and maxLevelRecommended to the larger of that and the reduction of its recommended tree |
| MaxLevels.Compute | src/requirements/index.ts:383-413 | the same for a node with prerequisites seen for the first time: required fold written to maxLevel, then the recommended part |
| MaxLevels.Recommend | src/requirements/index.ts:410-413 | maxLevelRecommended becomes the larger of maxLevel and the fold of the recommended tree over the recommended levels, and the other seen nodes keep their fields |
| MaxLevels.FoldTree | src/requirements/index.ts:385-407 | the `helper` fold visits each leaf's node in iteration order and returns the fold of their levels (`maxLevel` for required, `maxLevelRecommended` for recommended leaves), max in AND and min in OR position, each nested group restarted from the seed |
| MaxLevels.FoldChild | src/requirements/index.ts:386-399 | one element's value: a leaf's node visited and its level read, a nested group folded from the seed |
| MaxLevels.FoldCompose | src/requirements/index.ts:385-407 | the levels read for the first element are not changed by visiting the rest, since their nodes are already seen |
| MaxLevels.LeaflessStep | src/requirements/index.ts:401-413 | a node without prerequisites gets its seed as both levels |
| MaxLevels.ComputeFacts | src/requirements/index.ts:409 | the required fold equals the `reduce` over the levels the store ends with |
| MaxLevels.FinishStep | src/requirements/index.ts:409-413 | writing maxLevel, running the recommended part and writing maxLevelRecommended only changes level fields and leaves the node ordered |
| MaxLevels.LevelStepTrans | src/requirements/index.ts:374-416 | the pass's step guarantees compose over successive calls |
| MaxLevels.FindMaxLevels | src/requirements/index.ts:374-416 | the pass from the root with an empty seen set keeps the store well formed, only changes level fields, keeps every node with maxLevelRecommended ≥ maxLevel when that held before, and gives the root the `reduce` levels of its trees |
| DependentCounts.AddDependent | src/requirements/index.ts:440-452 | recording an edge adds the parent to the direct set and the whole path to the indirect set of the edge's kind, leaves the other kind's sets, every other field and every other node unchanged, and afterwards the edge is on record |
| DependentCounts.AddDependentStep | src/requirements/index.ts:428-453 | with the parent on the path, recording an edge only grows dependent sets and keeps every direct set inside its indirect set |
| DependentCounts.Deps | src/requirements/index.ts:430-431 | `req.map` pairs every leaf's key with `true` for required and `false` for recommended leaves, required first, in iteration order |
| DependentCounts.Visit | src/requirements/index.ts:419-456 | `findDependentCounts` only grows dependent sets (no other field changes), only adds combat nodes, and keeps direct ⊆ indirect in both kinds when that held before |
| DependentCounts.Each | src/requirements/index.ts:432-455 | after handling a node's edges each one is on record: an edge already on record is skipped without recursion, any other is recorded and its prerequisite visited |
| DependentCounts.Record | src/requirements/index.ts:440-454 | an edge not yet on record is recorded, its prerequisite visited with the same path, then the rest handled; all of them end on record |
| DependentCounts.DepStepTrans | src/requirements/index.ts:419-456 | "only grows dependent sets" composes over successive calls |
| DependentCounts.RecordedKept | src/requirements/index.ts:434-449 | an edge on record stays on record as the sets grow |
| DependentCounts.FindDependentCounts | src/requirements/index.ts:419-456 | the pass from the root only grows dependent sets and keeps direct ⊆ indirect for every node |
| DependentCounts.EdgesRecorded | src/requirements/index.ts:428-455 | after a node is handled, each required prerequisite lists it as a direct dependent and every id on the path, the node included, as indirect dependents; each recommended prerequisite does the same in the `Recommended` sets |
| DependentCounts.EdgeIsDep | src/requirements/index.ts:430-431 | every edge the pass follows is a prerequisite edge of the graph the depth pass walks |
| DependentCounts.AddSound | src/requirements/index.ts:440-452 | recording an edge of the node `req`, with every id in `seen` the id of a node that reaches `req`, keeps every dependent set justified: `req.id` has an edge of the set's kind to `dep`, and every id of `seen` reaches a node with such an edge |
| DependentCounts.OnPathEnter | src/requirements/index.ts:428 | adding the node's own id to `seen` keeps every id in it the id of a node that reaches the node |
| DependentCounts.OnPathStep | src/requirements/index.ts:454 | following an edge to `dep` keeps every id in `seen` the id of a node that reaches the node visited next |
| DependentCounts.SoundGrows | src/requirements/index.ts:430-431 | `getRequirement` creating combat nodes with empty sets keeps every dependent set justified |
| DependentCounts.RecordFirst | src/requirements/index.ts:440-454 | recording the first edge keeps the sets justified and the path reaching the prerequisite about to be visited |
| DependentCounts.VisitSound | src/requirements/index.ts:419-456 | `findDependentCounts` keeps the invariant: every direct dependent of a node is the id of a node with an edge of that set's kind (required or recommended) to it, and every indirect dependent the id of a node that reaches a node with such an edge |
| DependentCounts.EachSound | src/requirements/index.ts:432-455 | handling the edges of one node keeps the same invariant |
| DependentCounts.RecordSound | src/requirements/index.ts:440-454 | recording an edge, visiting its prerequisite and handling the rest keeps the same invariant |
| DependentCounts.FindSound | src/requirements/index.ts:419-456 | the pass from the root with an empty path keeps every dependent set justified by the edges, so no recommended edge puts anything in the required sets and the reverse |
| DependentCounts.SoundKept | src/requirements/index.ts:150-155 | a pass that changes no dependent set and gives new nodes empty sets keeps them justified |
| DependentCounts.BuildSound | src/requirements/index.ts:119-129 | the store as first built, with every dependent set empty, is justified |
| Sorting.Insert | src/requirements/index.ts:182-191 | inserting adds exactly one copy of the element |
| Sorting.Slot | src/requirements/index.ts:182-191 | the insertion point is the first element the new one does not compare above: everything before it compares below |
| Sorting.InsertSplits | src/requirements/index.ts:182-191 | inserting places the element at its slot and keeps the other elements in order around it |
| Sorting.InsertKeepsOrder | src/requirements/index.ts:182-191 | inserting keeps the relative order of what was there |
| Sorting.InsertAhead | src/requirements/index.ts:182-191 | the inserted element ends ahead of every element it does not compare above |
| Sorting.SortStable | src/requirements/index.ts:182-191 | the sort is stable: an element that does not compare above a later one stays ahead of it, so ties keep their input order |
| Sorting.Sort | src/requirements/index.ts:182-191 | `sort` returns a permutation of its input |
| Sorting.InsertSorted | src/requirements/index.ts:182-191 | with a comparator that orders any two elements one way or the other, inserting into a sorted list keeps it sorted |
| Sorting.SortSorted | src/requirements/index.ts:182-191 | with such a comparator the sorted list has every adjacent pair in comparator order |
| Pipeline.QuestCape | src/requirements/index.ts:102-107 | the Quest Cape is an achievement named "Quest Cape" at `/w/Quest_Cape` whose required leaves are exactly the quests, in order, with nothing recommended |
| Pipeline.TrueTrim | src/requirements/index.ts:109-116 | True Trim is an achievement at `/w/True_trim` whose required leaves are exactly the Quest Cape and the trimmed cape, in that order |
| Pipeline.AllNodes | src/requirements/index.ts:120-127 | the node list holds the skills first, one node for each skill, quest and achievement plus three, and ends with True Trim |
| Pipeline.RootStored | src/requirements/index.ts:119-129 | True Trim, set last, is the node the map holds under True Trim's id, so every pass can start from it |
| Pipeline.BuildDefaults | src/requirements/index.ts:119-129 | before any pass every stored node has depth −∞, its two levels ordered and its direct dependents inside its indirect ones |
| Pipeline.Analyse | src/requirements/index.ts:150-158 | on success the three passes in turn keep the store well formed and only grow it, put an unvisited root at depth 0, keep the level and dependent-set orderings, and keep every dependent set justified by the edges |
| Pipeline.LevelsThenDependents | src/requirements/index.ts:153-158 | the level and dependents passes together keep the root's depth and both orderings, only grow the store, and keep every dependent set justified by the edges |
| Pipeline.DepthKeeps | src/requirements/index.ts:458-478 | the depth pass touches neither the levels nor the dependent sets, so their orderings and their justification by the edges survive it |
| Pipeline.LevelsKeep | src/requirements/index.ts:374-416 | the level pass touches neither depths nor dependent sets, so the dependent sets stay justified by the edges |
| Pipeline.DependentsKeep | src/requirements/index.ts:419-456 | the dependents pass touches neither depths nor levels |
| Pipeline.DepthSets | src/requirements/index.ts:458-478 | the depth pass leaves every dependent set as it was and gives new nodes empty ones |
| Pipeline.LevelsSets | src/requirements/index.ts:374-416 | the level pass leaves every dependent set as it was and gives new nodes empty ones |
| Pipeline.DepthThenRest | src/requirements/index.ts:150-158 | the depth pass then the other two keep the store well formed, put an unvisited root at depth 0, and keep both orderings and the justification of every dependent set |
| Pipeline.ToRow | src/requirements/index.ts:163-180 | a row keeps the node's id, name, kind, depth and levels, turns its page into the wiki URL, its dependent sets into their sizes, and lists its skill, quest and achievement prerequisites including recommended ones |
| Pipeline.Rows | src/requirements/index.ts:160-181 | there is one row per stored id, in the map's iteration order |
| Pipeline.TypePriority | src/requirements/index.ts:361-372 | quests rank 1, skills 2, everything else 3 |
| Pipeline.SortRows | src/requirements/index.ts:182-191 | sorting with the comparator is a permutation of the rows |
| Pipeline.CompareTotal | src/requirements/index.ts:182-191 | if `localeCompare` orders any two names one way or the other, the comparator orders any two rows one way or the other |
| Pipeline.SortRowsSorted | src/requirements/index.ts:182-191 | the sorted rows have every adjacent pair in comparator order and are a permutation of the input |
| Pipeline.PrecedesKeys | src/requirements/index.ts:184-187 | a row the comparator puts first is at least as deep; on equal depth its required level is no higher, then its recommended level, then it has at least as many indirect dependents |
| Pipeline.SortedByDepth | src/requirements/index.ts:182-191 | in sorted rows depth never increases from a row to any later row |
| Pipeline.SortedByLevel | src/requirements/index.ts:182-191 | among sorted rows of the same depth the required level never decreases |
| Pipeline.UnseenSpec | src/requirements/index.ts:199-205 | the filter keeps exactly the prerequisite ids not yet seen |
| Pipeline.ReportRow | src/requirements/index.ts:199-208 | a step logs at most one line, naming itself |
| Pipeline.Replay | src/requirements/index.ts:195-209 | the replay logs exactly the lines of the specification: each row checked against the ids of the rows up to and including itself |
| Pipeline.ReplayStep | src/requirements/index.ts:197-208 | one more step adds its id to the seen set before its line, if any, is appended |
| Pipeline.ReportForPlaced | src/requirements/index.ts:198-208 | a step logs nothing iff each of its prerequisites is itself or comes earlier |
| Pipeline.NoReports | src/requirements/index.ts:195-209 | nothing is logged iff every row comes after all of its prerequisites |
| Pipeline.ReportsSound | src/requirements/index.ts:207 | every logged line names a row and only prerequisites of that row that come after it |
| Pipeline.RowsFacts | src/requirements/index.ts:160-181 | every row of an analysed store has recommended level at least the required one and no more direct than indirect dependents |
| Pipeline.NodeStored | src/requirements/index.ts:120-129 | every node given is stored under its own id |
| Pipeline.StoredRow | src/requirements/index.ts:160-191 | every stored node's row appears in the sorted output |
| Pipeline.AnalysedRows | src/requirements/index.ts:150-191 | after the passes from True Trim the sorted rows are in comparator order, contain True Trim at depth 0 and a row for every node given, and every row has ordered levels and nested dependent counts |
| Pipeline.Run | src/requirements/index.ts:150-191 | a successful run from True Trim returns the sorted rows with those output facts; a pass error ends the run |
| Pipeline.Output | src/requirements/index.ts:102-191 | the full node list analysed from True Trim yields, on success, sorted rows with True Trim at depth 0, a row per node, ordered levels and nested dependent counts |
| Pipeline.GetRequirements | src/requirements/index.ts:91-212 | `getRequirements` returns the sorted rows of `Output` (or its error) and logs exactly the replay's lines about them |
| Achievements.NewAchievementRequirement | src/requirements/achievements.ts:11-22 | an achievement node has kind achievement, the given name and page, and the given trees, an absent tree read as empty |
| Achievements.AchievementID | src/requirements/achievements.ts:15 | an achievement's id is `achievement:` followed by its page slug, whatever level is passed |
| Achievements.Fetch | src/requirements/achievements.ts:41-47 | the fetched node keeps the entry's name and page and takes the required and recommended trees that page yields |
| Achievements.FetchRound | src/requirements/achievements.ts:36-48 | a round succeeds iff every pending entry can be fetched (it is not "Trimmed Completionist" and its page loads), and then yields one fetched node per entry, in order; otherwise it fails with the first failing entry's error |
| Achievements.QueueLeaves | src/requirements/achievements.ts:52-64 | visiting one node's leaves extends the queue exactly as the specification `Discover` does over all leaves visited so far |
| Achievements.Queue | src/requirements/achievements.ts:49-65 | the entries queued after a round are `Discover` applied to the round's leaves, with pages looked up among all fetched nodes |
| Achievements.DiscoverSpec | src/requirements/achievements.ts:53-63 | every queued entry is a leaf with a page not yet fetched that is neither a quest nor a skill, the queued pages are pairwise distinct, and every leaf is fetched, queued or skipped as a quest or skill |
| Achievements.DiscoverStep | src/requirements/achievements.ts:53-63 | one more leaf, queued or skipped by the `find` tests, keeps those three facts |
| Achievements.RoundLeavesSpec | src/requirements/achievements.ts:51-52 | a leaf is visited in a round iff it is a required or recommended leaf of some node of the round |
| Achievements.StepPages | src/requirements/achievements.ts:49 | after a round the fetched pages are the earlier ones plus the pending pages |
| Achievements.StepFetched | src/requirements/achievements.ts:36-49 | after a round every fetched node is still what its page yields and the initial entries are still the first ones fetched, in order |
| Achievements.StepCovered | src/requirements/achievements.ts:49-65 | after a round every prerequisite of a fetched node is fetched, pending, or a quest or skill |
| Achievements.StepNewPages | src/requirements/achievements.ts:49-65 | after a later round every node fetched past the initial ones still has a page no earlier node has |
| Achievements.CloseAchievements | src/requirements/achievements.ts:32-66 | the do/while loop ends; on success the initial entries come first, every node is what its page yields, every prerequisite of every node has been fetched unless it is a quest or skill, no page past the initial ones is fetched twice, every node past the initial ones was named (same name and page) by an unskipped leaf of an earlier node, and an initial entry that cannot be fetched makes it fail |
| Achievements.StepPendingFrom | src/requirements/achievements.ts:51-65 | every entry queued after a round is an unskipped leaf of a node fetched so far |
| Achievements.StepDiscovered | src/requirements/achievements.ts:34-66 | when the pending entries are the initial ones on the first round, or leaves of fetched nodes afterwards, every node past the initial ones is still named by an earlier node after the round |
| Achievements.DiscoveredAt | src/requirements/achievements.ts:36-49 | a node fetched in the round, past the initial ones, was named by a node fetched before it |
| Achievements.NamedRefsSpec | src/requirements/achievements.ts:76-82 | the filter-and-map keeps exactly the fetched nodes whose names are required, as achievement leaves |
| Achievements.TrimmedNode | src/requirements/achievements.ts:71-83 | the trimmed cape node has the given name and page and nothing recommended |
| Achievements.TrimmedSpec | src/requirements/achievements.ts:68-83 | the trimmed cape's leaves are exactly the fetched nodes named among the initial entries, so every initial entry is one of them |
| Achievements.GetCompletionistCapeAchievementsWithRequirements | src/requirements/achievements.ts:24-86 | on success the trimmed cape requires every initial achievement, and the closure returned starts with the initial achievements, has every node fetched from its own page, every prerequisite covered, and every node past the initial ones named by an unskipped leaf of an earlier node |
| Assoc.Find | src/compreqs/index.ts:423 | reading `d[k]` gives a value exactly when `k` is one of the object's keys |
| Assoc.Put | src/compreqs/index.ts:420-423 | `d[k] = v` makes `k` read `v`, leaves every other key's value alone, adds `k` to the keys (at the end when new) and never stores a key twice |
| Assoc.AddAll | src/compreqs/index.ts:422-424 | adding `b` into `acc` gives the union of their keys, still each key once |
| Assoc.GetAddAll | src/compreqs/index.ts:422-424 | after adding `b` into `acc`, every count (absent read as 0) is the sum of the two counts |
| Assoc.FindAppend | src/compreqs/index.ts:420 | reading a key from an object with one more entry at the end finds the earlier value if the key was present, else the new entry's |
| Assoc.FindAt | src/compreqs/index.ts:419-421 | in an object whose keys are distinct, each entry's key reads that entry's value |
| Shortcuts.CountLevel | src/compreqs/index.ts:503-507 | `skills[name][level] += 1` raises exactly that one (skill, level) count by one and keeps every dictionary free of repeated keys |
| Shortcuts.AddSkillsKeys | src/compreqs/index.ts:440-446 | after adding the skill tallies of `b`, the skills present are those of either side |
| Shortcuts.AddSkillsDistinct | src/compreqs/index.ts:440-446 | adding skill tallies keeps every level dictionary free of repeated levels |
| Shortcuts.LevelCountAddSkills | src/compreqs/index.ts:440-446 | each (skill, level) count after adding is the sum of the two counts |
| Shortcuts.MergeWellFormed | src/compreqs/index.ts:414-448 | merging two well-formed tallies gives a well-formed tally |
| Shortcuts.MergeSums | src/compreqs/index.ts:414-448 | every quest, achievement and (skill, level) count of the merge is the sum of the two counts |
| Shortcuts.MergeKeys | src/compreqs/index.ts:414-448 | the merge's keys, in each of its three dictionaries, are those of either input |
| Shortcuts.CopyDict | src/compreqs/index.ts:418-421 | copying the entries of `a` one by one into a fresh object reproduces `a` |
| Shortcuts.AddDict | src/compreqs/index.ts:422-424 | the loop adding each count of `b` computes `AddAll(a, b)` |
| Shortcuts.CopySkills | src/compreqs/index.ts:432-439 | copying every skill's levels into fresh inner objects reproduces the skill tally |
| Shortcuts.AddSkillDicts | src/compreqs/index.ts:440-446 | the nested loop adding each level count of `b` computes `AddSkills(a, b)` |
| Shortcuts.MergeShortcuts | src/compreqs/index.ts:414-448 | `mergeShortcuts` returns the merged tally `Merge(a, b)`, whose counts are proved to be sums |
| CompSteps.Fresh | src/compreqs/index.ts:120-125 | a scraped step starts with priority unset (read as 0) and neither level maximum set |
| CompSteps.SkillChain | src/compreqs/index.ts:183-205 | one skill's chain has a step for each level from 2 to its maximum (120 for the six 120 skills, else 99), each step requiring the level below it |
| CompSteps.GetSkillRequirements | src/compreqs/index.ts:178-208 | the nested loop produces exactly the chains of the API's skills, one skill after another |
| CompSteps.GetSkillChain | src/compreqs/index.ts:183-205 | the inner loop produces exactly one skill's chain |
| CompSteps.LevelStep | src/compreqs/index.ts:184-203 | one iteration builds the step for that level, with its cap raised to 80 for Invention below 81 |
| CompSteps.ChainPrefix | src/compreqs/index.ts:183-205 | the chain up to a level is the chain below it followed by that level's step |
| CompSteps.SkillStepsSound | src/compreqs/index.ts:178-208 | every generated step is the step of a listed skill at a level from 2 to that skill's maximum |
| CompSteps.SkillStepsCover | src/compreqs/index.ts:178-208 | every level from 2 to the maximum of every listed skill has its step among those generated |
| CompSteps.SkillNamesDistinct | src/rsapi/index.ts:36-65 | no skill is listed twice |
| CompSteps.SkillStepsUnique | src/compreqs/index.ts:254-262 | with no skill listed twice, no (skill, level) has two steps, so the level table is unambiguous |
| CompSteps.SkillStepLevels | src/compreqs/index.ts:187-203 | a generated step's required maximum is the level below it, raised to 80 for Invention at or below 80, and never below the level it requires |
| CompSteps.NameIndex | src/compreqs/index.ts:237-240 | `requirementMap` maps each name to a step of that name, the last one when a name repeats |
| CompSteps.LevelIndex | src/compreqs/index.ts:256-260 | one skill's level table maps each level to the step of that skill and level, and holds every level of the skill |
| CompSteps.LevelIndexes | src/compreqs/index.ts:254-262 | `skillReqMap` holds exactly the listed skills, each with its level table |
| CompReqs.StepOrderMeaning | src/compreqs/index.ts:284-285 | a step may come before another exactly when its priority is higher, or equal with a level no higher |
| CompReqs.StepOrderTotal | src/compreqs/index.ts:271-286 | the comparator orders any two steps one way or the other |
| CompReqs.FindEnding | src/compreqs/index.ts:221-226 | the lookup finds the first achievement named "Completionist", or reports that none is |
| CompReqs.MasterQuestCape | src/compreqs/index.ts:227-234 | the master quest cape is an achievement with every quest, in order, as a required quest and nothing else |
| CompReqs.WithCape | src/compreqs/index.ts:235 | pushing the cape onto the ending requirement appends its name to the achievements and changes nothing else |
| CompReqs.OtherFailures | src/compreqs/index.ts:225 | no other error the planner raises is the missing-ending one |
| CompReqs.Number | src/compreqs/index.ts:287 | numbering sets each step's order to its position and changes nothing else |
| CompReqs.SortNodes | src/compreqs/index.ts:271-286 | the sort moves the steps, never adding or dropping one |
| CompReqs.CreateSteps | src/compreqs/index.ts:210-289 | it fails with "Ending requirement not found!" exactly when no achievement is named "Completionist"; any error is one the planner raises; on success the steps are the skill chains, the quests, the achievements (the ending one with the cape) and the cape, sorted by the comparator, numbered in order, with every recommended maximum at least the required one and the ending step's maxima set; and, numbers aside, they are a reordering of exactly what `mapReqOrder` and then `addMaxLevel` from the ending requirement make of those initial steps |
| CompReqs.Initial | src/compreqs/index.ts:245-252 | before planning the steps are the skill chains, quests, achievements and cape, with only the skill steps carrying a required maximum and none a recommended one |
| CompReqs.Plan | src/compreqs/index.ts:264-288 | the tally, the level maxima, the sort and the numbering: on success a sorted, numbered permutation of the steps in which the root has both maxima, and, numbers aside, a reordering of the steps as the tally (each step gaining exactly its tally count) and then `addMaxLevel` from the root left them |
| CompReqs.Tally | src/compreqs/index.ts:265 | `mapReqOrder` changes only priorities, each step gaining exactly what the root's tally gives it; its errors are the tally's |
| CompReqs.LevelAndSort | src/compreqs/index.ts:266-288 | `addMaxLevel` from the ending requirement, then the sort and the numbering: the result keeps every step, leaves the root with both maxima, and, numbers aside, reorders the steps exactly as `addMaxLevel` left them (only the maxima of reached steps changed; the root's maxima are the highest of its skill levels and of what its two passes read) |
| CompReqs.SortAndNumber | src/compreqs/index.ts:271-287 | the sort and the numbering give a sorted permutation, numbered in order, still sound, which apart from the numbers holds exactly the same steps as before |
| CompReqs.UnnumberedPermutation | src/compreqs/index.ts:271-287 | two orderings of the same steps are still two orderings of the same steps once their numbers are cleared |
| CompReqs.MapFailure | src/compreqs/index.ts:450-533 | a failed tally fails with one of the planner's messages, never the missing-ending one |
| CompReqs.Prepared | src/compreqs/index.ts:237-266 | before `addMaxLevel` the name table leads to steps whose maxima are unset, so the first call may start |
| CompReqs.Finished | src/compreqs/index.ts:271-287 | numbering keeps the sort order, the soundness, the steps and the root's maxima |
| CompLevels.MaxAll | src/compreqs/index.ts:330-349 | `Math.max(...xs)` is at least every value, is one of them, and is −∞ for none |
| CompLevels.MaxAllDominates | src/compreqs/index.ts:330-369 | if every value of one list is matched by one at least as high in another, the second maximum is at least the first |
| CompLevels.OwnLevels | src/compreqs/index.ts:332 | the step's own skill levels, in order |
| CompLevels.ReqNames | src/compreqs/index.ts:333 | the required pass's names are among the recommended pass's names |
| CompLevels.AddMaxLevel | src/compreqs/index.ts:324-370 | `addMaxLevel` sets the step's required maximum to the maximum of its skill levels and the required maxima of the required quests and achievements off the path, and its recommended maximum likewise over all quests and achievements; it changes only the two fields of steps off the path, keeps "recommended at least required", fails only on a name missing from the table, always fails when a quest or achievement off the path is missing, and cannot fail when every name is in it |
| CompLevels.Require | src/compreqs/index.ts:329-349 | the required half: the pass over the required names, then the step's required maximum |
| CompLevels.Phase | src/compreqs/index.ts:333-348 | one `.filter(...).map(...)` pass fills in every name off the path that is unset, and returns exactly the fields those names' steps then hold; it fails only on a missing name, always fails when a name off the path is missing, and cannot fail when every name is in the table |
| CompLevels.SetRequired | src/compreqs/index.ts:330 | setting the required maximum keeps the frame and the pairing of fields |
| CompLevels.FinishFrame | src/compreqs/index.ts:350-369 | after the recommended maximum is set the whole call has changed only the fields of steps off the path, and the step has both |
| CompLevels.FinishReads | src/compreqs/index.ts:350-369 | completing the step changes none of the values the two passes read |
| CompLevels.FinishSound | src/compreqs/index.ts:330-369 | the step's recommended maximum is at least its required one |
| CompLevels.ReadsDominate | src/compreqs/index.ts:333-366 | each value the required pass reads is matched by a value at least as high that the recommended pass reads |
| CompLevels.ReadsHas | src/compreqs/index.ts:353-366 | the recommended pass reads the field of every name off the path |
| CompLevels.ReadsSame | src/compreqs/index.ts:333-366 | what a pass reads depends only on the steps of the names off the path |
| CompLevels.FrameTrans | src/compreqs/index.ts:324-370 | "only the fields of steps off the path change" composes over successive calls |
| CompShortcut.RequiredNames | src/compreqs/index.ts:489 | the filter keeps the name of every required quest and only those |
| CompShortcut.CountSkillsCounts | src/compreqs/index.ts:503-507 | counting the node's skills raises each (skill, level) count by how often the node lists it |
| CompShortcut.CountSkillsGood | src/compreqs/index.ts:503-507 | counting skills keeps the tally well formed, non-negative and confined to the same names |
| CompShortcut.CountSelfCounts | src/compreqs/index.ts:525-530 | the node counts itself once, as a quest when it is one and as an achievement for any other kind, and nothing else changes |
| CompShortcut.FinishCounts | src/compreqs/index.ts:487-530 | a node's tally counts what its two prerequisite tallies count, plus its own skills and itself |
| CompShortcut.FinishCount | src/compreqs/index.ts:487-530 | every single count of a fresh tally is the two prerequisite counts plus the node's own |
| CompShortcut.FinishStep | src/compreqs/index.ts:531 | remembering a finished tally keeps every remembered tally well formed and counting its own name at least once |
| CompShortcut.PrereqStep | src/compreqs/index.ts:468-471 | merging a remembered prerequisite tally into a sound running tally keeps it sound |
| CompShortcut.MergeGood | src/compreqs/index.ts:414-448 | merging keeps tallies well formed, non-negative and confined to the map's names |
| CompShortcut.MergeNonNeg | src/compreqs/index.ts:414-448 | merging two tallies with no negative count gives none |
| CompShortcut.MapShortcut | src/compreqs/index.ts:476-533 | on success the tally is remembered under the node's name and every earlier memo entry is kept; a sound memo stays sound; a fresh tally counts, for every quest, achievement and (skill, level), the sum of the remembered tallies of the required quests and achievements off the path plus the node's own skills and itself; an error names a prerequisite missing from the map; a missing prerequisite is always an error; and when every followed prerequisite is in the map it cannot fail |
| CompShortcut.MapPrereqs | src/compreqs/index.ts:450-474 | `mapPrereqShortcuts` keeps the memo's entries and remembers every name off the path; each count of the result is the running count plus the remembered counts of the names off the path, a repeated name counted again; it fails exactly when some name is missing from the map (given every remembered node's prerequisites are in it), and its error names the missing one |
| CompShortcut.MergeCount | src/compreqs/index.ts:414-448 | every count of a merged tally is the sum of the two tallies' counts |
| CompShortcut.FollowedCounts | src/compreqs/index.ts:466-472 | merging a followed name's remembered tally adds exactly that tally to the running counts |
| CompShortcut.ShortcutCounts | src/compreqs/index.ts:487-531 | a fresh tally is the sums over the required quests and the achievements plus the node's own counts, read in the memo the call returns |
| CompShortcut.FreshTally | src/compreqs/index.ts:487-531 | from what the two prerequisite loops return, a fresh tally is remembered under the node's name, the memo only grows and stays sound, and each count is the two followed sums plus the node's own |
| CompShortcut.FollowedAgree | src/compreqs/index.ts:458-472 | the followed sum reads only the remembered tallies of the names off the path |
| CompPriority.NodeMap | src/compreqs/index.ts:237-240 | the name table read as name-to-node has the same names and each name's step |
| CompPriority.AddNamePriorities | src/compreqs/index.ts:385-394 | the first loop succeeds iff every counted quest and achievement is in the table; then each step's priority grows by its name's count and nothing else changes; else the error names a missing one |
| CompPriority.CountDown | src/compreqs/index.ts:401-408 | the innermost loop adds the count to the step of every level from the given one down to 2 that the table holds, skipping missing levels |
| CompPriority.AddLevels | src/compreqs/index.ts:400-409 | the middle loop adds each counted level's count to the steps at and below it |
| CompPriority.AddSkillPriorities | src/compreqs/index.ts:395-410 | the second loop succeeds iff every counted skill is in the level table; then every step gains what the skill counts give it and nothing else changes; else the error names a missing skill |
| CompPriority.ApplyTally | src/compreqs/index.ts:385-410 | both loops succeed iff every counted name and skill is in its table, and then each step's priority grows by exactly its gain from the tally |
| CompPriority.MapReqOrder | src/compreqs/index.ts:378-412 | `mapReqOrder` fails with the tally's error, or with a missing name or skill, and otherwise raises each step's priority by exactly its gain from the tally of the root, changing nothing else |
| CompGain.NameGainAppend | src/compreqs/index.ts:385-388 | what a step gains from the quests then the achievements is the sum of the two gains |
| CompGain.NameGainOwn | src/compreqs/index.ts:385-394 | a step gains the count of its own name and nothing from other names |
| CompGain.CountdownOne | src/compreqs/index.ts:401-408 | a count added from a level down to 2 reaches the step of level L once when 2 ≤ L ≤ that level, else not at all |
| CompGain.LevelGainOne | src/compreqs/index.ts:400-409 | the step of level L gains the counts of every level at L or above |
| CompGain.SkillGainOne | src/compreqs/index.ts:395-410 | the step of (skill, L) gains the counts of that skill at L or above, from no other skill |
| CompGain.StepGain | src/compreqs/index.ts:378-412 | a step's whole gain is the count of its name plus, for a skill step, the counts of its skill at its level or above |
| CompGain.CountFromMonotone | src/compreqs/index.ts:401 | with no negative count, the counts from level L+1 up never exceed those from L up |
| CompGain.LowerLevelsFirst | src/compreqs/index.ts:395-410 | in a tally with no negative count a lower level of a skill never gains less than a higher one |
| CompGain.SkillTablesLead | src/compreqs/index.ts:254-262 | the level tables built from the generated skill steps lead every (skill, level) to its own step |
| CompGain.SkillTablesSound | src/compreqs/index.ts:254-262 | those tables lead each level to a step of that skill and level in the full step list |
| Layers.PadLength | src/requirements-graph/index.ts:274-276 | the padding loop stops at three characters and leaves longer texts as they are |
| Layers.PadShape | src/requirements-graph/index.ts:274-276 | padding keeps the text as a suffix and puts only zeros before it |
| Layers.FormatSkill | src/requirements-graph/index.ts:272-278 | `formatSkill` with its `while` loop yields `<name> level <level padded to three digits>` |
| Layers.PadThree | src/requirements-graph/index.ts:273-276 | a level below 1000 is written with exactly its three decimal digits |
| Layers.LevelTextOrder | src/requirements-graph/index.ts:243 | padded three-digit level texts compare by code unit exactly as the levels compare as numbers |
| Layers.HasLevel | src/requirements-graph/index.ts:242-247 | for one skill and levels below 1000 the formatted texts are ordered exactly as the levels, so "player already has it" means the player's level is at least the needed one |
| Layers.SplitAtSpace | src/requirements-graph/index.ts:277 | for space-free names the formatted text determines the name and the level text |
| Layers.FormattedInjective | src/requirements-graph/index.ts:272-278 | space-free skill names and levels below 1000 give different step names for different (skill, level) |
| Layers.GetSkillingRequirements | src/requirements-graph/index.ts:289-304 | the nested loop yields exactly the chains of the API's skills, in order |
| Layers.LevelChain | src/requirements-graph/index.ts:292-301 | one skill's chain runs from level 11 for constitution (else 2) to 138 for combat, 120 for the six 120 skills, else 99, each step needing the level below |
| Layers.ChainStep | src/requirements-graph/index.ts:294-301 | one more iteration appends the next level's step |
| Layers.SkillingSound | src/requirements-graph/index.ts:289-304 | every generated step is the step of a listed skill at a level between its first and last |
| Layers.ApiSkillNamesDistinct | src/runescape-api/index.ts:37-67 | the API's skill names are distinct and contain no space |
| Layers.ChainDistinct | src/requirements-graph/index.ts:294-301 | the levels of one skill have distinct step names |
| Layers.SkillingDistinct | src/requirements-graph/index.ts:289-304 | distinct space-free skill names give generated steps with pairwise distinct names |
| Layers.ApiSkillingDistinct | src/requirements-graph/index.ts:289-304 | the skilling steps generated for the API's skills have pairwise distinct names, so they never clash with one another in the graph |
| Layers.NameMapLookup | src/requirements-graph/index.ts:117-135 | the keys of the name map are the nodes' names, and with distinct names each name maps to its node |
| Layers.NameMapAppend | src/requirements-graph/index.ts:117-135 | the map of two lists is the first's map overridden by the second's |
| Layers.FreshAppend | src/requirements-graph/index.ts:117-135 | two lists have distinct names together iff the first does and the second clashes neither with itself nor with the first |
| Layers.Clash | src/requirements-graph/index.ts:119-120 | a name already present is in the graph or on an earlier node of the list, so the list cannot be added |
| Layers.AddFresh | src/requirements-graph/index.ts:122 | adding a fresh name extends the map by that node |
| Layers.AddAll | src/requirements-graph/index.ts:118-123 | one loop succeeds iff no name clashes with the graph or an earlier node, then the graph gains exactly the nodes; on failure the message is the prefix plus the name of the first node that clashes: the nodes before it are fresh, and it is in the graph or repeats an earlier name |
| Layers.ClashAfter | src/requirements-graph/index.ts:117-135 | in a joined list, a node of the second part whose name is in the first part's map or repeats an earlier name of the second part, with distinct names before it, is the first clash of the joined list |
| Layers.DistinctJoin | src/requirements-graph/index.ts:117-135 | names distinct in the first part and fresh in the second part up to a node make the joined list's names distinct before that node |
| Layers.ClashWithin | src/requirements-graph/index.ts:118-123 | a node repeating an earlier name, with distinct names before it, is the list's first clash |
| Layers.ClashExtends | src/requirements-graph/index.ts:117-135 | the first clash of a list stays the first clash when later lists are appended |
| Layers.ClashNotDistinct | src/requirements-graph/index.ts:117-135 | a list with a clash does not have distinct names |
| Layers.AchievementsClash | src/requirements-graph/index.ts:118-123 | a clash among the achievements is the first clash of all three lists, at the achievement's own position |
| Layers.QuestsClash | src/requirements-graph/index.ts:124-129 | a clash of a quest with the achievements or an earlier quest, the achievements being distinct, is the first clash of all three lists, at the quest's position |
| Layers.SkillsClash | src/requirements-graph/index.ts:130-135 | a clash of a skill with the achievements and quests or an earlier skill is the first clash of all three lists, at the skill's position |
| Layers.CreateGraph | src/requirements-graph/index.ts:115-138 | `createRequirementGraph` succeeds iff all names are distinct, then maps each name to its node; on a clash the message names the first node, in achievements, quests, skills order, whose name repeats an earlier one, with "Graph already has achievement: " when it is an achievement or a quest and "Graph already has skill: " when it is a skill |
| Layers.FirstWord | src/requirements-graph/index.ts:237 | `split(' ')[0]` is a space-free prefix |
| Layers.FirstWordFormatted | src/requirements-graph/index.ts:237 | the first word of a generated step name is its skill |
| Layers.SkillCheck | src/requirements-graph/index.ts:237-247 | on a generated step the skill read back is the step's own, and the player is found to have it iff their level is at least the step's |
| Layers.PlaceAbove | src/requirements-graph/index.ts:265-269 | pushing the node on layer `maxDepth` puts it after what that layer held, above the starting depth, with nothing the walk added at or above it, and either `maxDepth` is the starting depth or the layer just under it received a node during the walk |
| Layers.Layers | src/requirements-graph/index.ts:168-270 | `getRequirementLayers` pushes the node on layer `maxDepth` and returns `maxDepth + 1`, where `maxDepth` is the starting depth or one above the highest layer a requirement it expanded filled: nothing lands at or above the node's layer, and unless it is the starting depth the layer just under it gained a node; every name the call marks seen either has no node, or had its node pushed on a layer from the starting depth up to below the node's own with that node's lists walked, or is skipped (in the node's own lists or where the graph lists it); layers are only appended to, all its requirements end seen, an already covered node goes straight onto the starting layer, the only error is reading `completed` of a quest the profile lacks, and it cannot fail when the profile lists every quest; the nodes it adds to the layers are, as a multiset, exactly the node itself plus the node of each name it newly marked seen, has a node and did not skip, each such name once, and every other newly seen name has no node or is skipped |
| Layers.WalkList | src/requirements-graph/index.ts:177-264 | the loop over the k-th list (quests, achievements, skills): it marks that list seen on top of the earlier ones, keeps `maxDepth` at or above the starting depth, only appends below the new `maxDepth`, accounts for every name it marked seen (no node, node pushed from the starting depth up to below `maxDepth`, or skipped), and changes nothing when the node is already covered; the nodes it adds are exactly one node per newly seen name with a node that was not skipped, each once |
| Layers.VisitAll | src/requirements-graph/index.ts:177-203 | one loop over a list marks every name seen, only appends to layers below the new `maxDepth`, and raises `maxDepth` only to one above a layer it filled; every name it marked seen has no node, had its node pushed from the starting depth up to below the new `maxDepth`, or is skipped by this list's rule or where the graph lists it; a fully seen list changes nothing; the nodes it adds are exactly one node per newly seen name with a node that was not skipped, each once, every other newly seen name having no node or being skipped by this list's rule or where the graph lists it |
| Layers.Visit | src/requirements-graph/index.ts:178-202 | each skip rule one by one: a seen name changes nothing; an unseen quest the profile does not list is the `completed` error; a completed quest, a skill whose first word is not a skill of the profile, a skill the player already has (the formatted level compares at or above the name), and a name with no graph node are only marked seen; any other unseen name has its node pushed on a layer from the starting depth up to below the returned `maxDepth`, and every name its recursion marked seen is accounted for the same way; with every quest listed it cannot fail; the nodes it adds are exactly the name's node and those its recursion added, one per newly seen name with a node that was not skipped, and the name is among them iff it was unseen, has a node and is not skipped |
| Layers.WalkLists | src/requirements-graph/index.ts:176-264 | the three loops in order, from `maxDepth = depth`: every list of the node ends seen, the layers only grow below the final `maxDepth`, every name marked seen is accounted for (no node, node pushed from `depth` up to below `maxDepth`, or skipped), a covered node changes nothing, and the only error is the unlisted quest; the nodes added are exactly one per newly seen name with a node that the node's lists do not skip, each once |
| Layers.Next | src/requirements-graph/index.ts:178-202 | one iteration of a loop: the name ends seen, earlier names stay seen, `maxDepth` never drops, what the loop has marked seen stays accounted for, the nodes the loop added stay exactly one per newly seen, unskipped name with a node, and a seen name changes nothing |
| Layers.AdvancedTrans | src/requirements-graph/index.ts:192-202 | successive iterations compose: layers only grow, and `maxDepth` only rises to one above a layer the walk filled |
| Layers.RequirementPath | src/requirements-graph/index.ts:142-158 | without a "Completionist" node the path is empty; otherwise it is the layers of `getRequirementLayers` from that node, lowest first, ending with that node alone; as a multiset it is that node plus one node per seen name that was expanded, each name once, every other seen name having no node or being skipped where the graph lists it; when no name is listed under two kinds, every requirement reached from it through a chain of requirements that have a node and are not skipped is on the path before it; it cannot fail when the profile lists every quest |
| Layers.Expanded | src/requirements-graph/index.ts:192-202 | a requirement that is expanded has its node on the layer just below the height its recursion returned, from the starting depth up to below the loop's new `maxDepth`, and the names its recursion saw stay accounted for |
| Layers.AccountedStep | src/requirements-graph/index.ts:178-202 | one more iteration keeps every name the loop marked seen accounted for |
| Layers.PlaceKeepsReached | src/requirements-graph/index.ts:265-269 | pushing the node on top leaves each requirement's placement below it |
| Layers.LayEnding | src/requirements-graph/index.ts:152 | the layering from the ending node with the default arguments leaves the graph laid out, its layers holding exactly the ending node and the nodes of the expanded names; it fails only on the unlisted quest, never when every quest is listed |
| Layers.Concat | src/requirements-graph/index.ts:153-156 | the loop pushes the layers one after the other, so every node of every layer is on the path |
| Layers.PathEnds | src/requirements-graph/index.ts:142-158 | the path of a laid graph is not empty, ends with the ending node, and before it holds the layers below the top |
| Layers.LaidExactlyFrom | src/requirements-graph/index.ts:142-158 | what the layering from the ending node pushed is, as a multiset, the whole path, and a seen name it did not expand has no node or is skipped where the graph lists it |
| Layers.AddedTrans | src/requirements-graph/index.ts:177-264 | what two successive stretches of a walk add to the layers sums to what the whole walk adds |
| Layers.PlaceAdds | src/requirements-graph/index.ts:265-269 | pushing a node on a layer adds exactly that node |
| Layers.AddedFromNothing | src/requirements-graph/index.ts:152-156 | what a walk from empty layers added is the flattened layering |
| Layers.ExactTrans | src/requirements-graph/index.ts:177-264 | two stretches that each add exactly the nodes of their new names compose: the whole walk adds exactly the nodes of both lists of names |
| Layers.ExpandedExactly | src/requirements-graph/index.ts:192-202 | when a name is expanded, the recursion's additions plus the name itself are exactly its node and the nodes the recursion listed, the name counted once |
| Layers.MarkedOnly | src/requirements-graph/index.ts:178-191 | a new name that is skipped or has no node is only marked seen: no layer changes and nothing is pushed |
| Layers.ExactStep | src/requirements-graph/index.ts:178-202 | one more name of a loop keeps the loop's additions exactly one node per expanded name |
| Layers.ListsExactly | src/requirements-graph/index.ts:176-264 | one more list walked keeps the additions exactly one node per expanded name, the rest skipped in the node's lists or where the graph lists it |
| Layers.PlaceExactly | src/requirements-graph/index.ts:265-269 | pushing the node itself adds it to what the walk pushed |
| Layers.LaidFrom | src/requirements-graph/index.ts:142-158 | the layering from the ending requirement leaves it alone on top, with every seen name accounted for below it |
| Layers.ChainLaid | src/requirements-graph/index.ts:142-158 | when no name is listed under two kinds, the end of every chain of unskipped requirements from the ending requirement was seen, pushed below the top, and had its own lists walked |
| Layers.ChainsOnPath | src/requirements-graph/index.ts:142-158 | the end of every such chain is on the path before the ending node |

## Left out

- Scraping, HTTP and file I/O are left out: wiki pages, the RuneScape API, the page cache, `loadWikiPage`, the Express server. Their results are inputs instead. The achievement wiki is a finite map from page to the trees its infobox yields. `getMaxLevel` takes the count of level-table header cells. The player profile is a value.
- Async coordination, the polling single-flight in `src/compreqs/index.ts:136-176`, `retry`, and all console logging are left out. The validation replay's `console.error` lines are returned as a list of reports instead.
- In-place update and aliasing of the node objects of `reqsById` are not modelled. The store is a value passed from call to call, and each pass's lemmas state what it changes. The same holds for the planner's step objects (positions in one sequence) and for the `depths` array and `seen` set of `getRequirementLayers` (a `Walk` value). Only `AndOrMap` and `DefaultMap` are classes.
- The appended recommended tree of `Requirement.map` is modelled as one nested AND group. The `handleAndOr` shown would hand a bare `AndOrMap` to the leaf callback; that is not modelled, because `requirement.ts` imports a different module for it.
- The `page` fields of quest and achievement references in the planner are dropped, and so are icons, release dates (`moment`) and `released`. Names identify those steps, and the page plays no part in any computation modelled.
- `calcWeight` and `priorityA` are left out: they compute a floating-point weighted mean. `Math.floor(c / 1.4)` is modelled exactly as `floor(5c / 7)` on integers.
- `localeCompare` in the 7-key sort is a parameter; its properties are proved for any comparator that orders every pair one way or the other. The "player already has" test of the layering uses code-unit order, which is what `localeCompare` gives for the ASCII step names generated.
- JavaScript's ordering of integer-like keys before other keys in `Object.entries` is not modelled. Dictionaries iterate in insertion order. The counts and priorities proved do not depend on the order.
- Dead code is left out: `combineSkillRanges` (its call is commented out), `addImplicitRequirements` and `addUnmetPrereqRequirements`, `taskMasterAchievements`, `requirementDistance`, `src/requirements/parser.ts`, and `src/compreqs/quests.ts` and `skills.ts`, which extend a class that is not exported.
- Achievements.FetchRound: a page that cannot be loaded fails with the model's own message, "Failed to load " followed by the page. The source rethrows whatever error the fetch raised after its retries (`loadWikiPage` in src/rswiki/index.ts, `retry` in src/util/async.ts), and that fetch is not modelled.
- Layers.RequirementPath: the chain property is stated for graphs in which no name is listed under two kinds. Otherwise a name first met under a kind whose skip rule applies is marked seen, and the code skips it later under its other kind, so it is not placed.
- Sorting.SortStable: stability is stated through values. When the input holds equal copies of an element, it says only that some copy of the earlier element comes first.
- AndOr.Find: `find` tests the nested search's result for truthiness, at src/util/andOrMap.ts:169; the model tests whether it found a leaf. The two differ only for a falsy leaf, and every leaf the program stores is an object reference.
- Both the quest and the achievement clash of `createRequirementGraph` report "Graph already has achievement: ", as the code does. `Layers.CreateGraph` states it that way.
- An unset `priority` is modelled as 0. The tally adds to it with `|| 0`, and the comparator reads it the same way.
- `toLocaleLowerCase` and `toUpperCase` are modelled on ASCII letters only. Other letters are left unchanged, so the case-folding claims about cache paths hold for ASCII case.
- Strings are sequences of Unicode scalar values, not UTF-16 code units. `encodeURI` is modelled as UTF-8 percent-encoding of each scalar value. The `URIError` a lone surrogate raises cannot arise in this model.
- A prerequisite quest that the player profile does not list makes `profile.quests[name].completed` throw a TypeError. The model returns that error, with the message V8 prints, as `Err`.
