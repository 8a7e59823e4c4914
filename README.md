# Course requirement trees, in Dafny

This project models the core of `traversal_util.py`: course prerequisite
structures built from AND/OR/Course nodes, and three algorithms over them.

- **Build.** `create_full_tree_from_apoc` and `create_prerequisite_tree_from_apoc` turn parsed node and relationship records into `CourseNode` objects. They do so by creating every node first, then appending the end node of each relationship to its start node's children.
- **Completion.** `mark_completion` takes a list of completed course codes and makes two walks. The first walk sets `completed` on Course nodes. The second walk runs children first: it sets `marked` on OR nodes (some child done) and AND nodes (every child done), and sets `ready_to_take` on Course nodes.
- **Commonality.** `commonality_algorithm` takes several roots and:
  - collects the Course codes under each root;
  - inverts that into code ↦ the set of roots holding it;
  - files each code shared by two or more roots under every group (of two or more) of its roots;
  - prunes each code from the groups smaller than its own root set;
  - derives a containment relation between roots.
- **Serialization.** `course_node_to_dict` turns a node and everything under it into nested dictionaries.

The model is organised as follows:
- Objects live in a `NodeArena` (`course_nodes.dfy`): a reference is a position in the arena, and a node is a record whose children are positions. A node reached through two edges is one shared object, as in the source. The walks visit it once per path to it.
- The walks only terminate on acyclic structures. The source never checks this, so every walk takes a ghost `rank` that strictly decreases from parent to child.
- Dictionary iteration order is left open: each loop over a dictionary or set picks its next key with `:|`. Every result below is proved for every order.
- The build uses one id → node table and one code → node table per call. The source keeps these in module-level dictionaries that survive between calls. This is a deliberate departure: a lookup can otherwise return a node built by an earlier call.
- `ready_to_take` follows the code: it does not depend on `completed`, and it is only ever set, never cleared.

Files:
- `wrappers.dfy`: `Option`, `Result`.
- `course_nodes.dfy`: nodes, arena and reachability.
- `materialize.dfy`: the build.
- `completion.dfy`: `mark_completion`.
- `course_search.dfy`: `find_all_course_nodes`.
- `powerset.dfy`: `powerset`.
- `commonality.dfy`: the tables, filing and pruning of `commonality_algorithm`.
- `containment.dfy`: `check_containment` and `convert_frozenset_serializable`.
- `analysis.dfy`: the whole `commonality_algorithm`, stated in terms of the trees.
- `serialize.dfy`: `course_node_to_dict`.

## Model

| member | source | states |
|---|---|---|
| CourseNodes.NewCourseNode | traversal_util.py:36-55 | a Course node keeps code and full name and has no index; an AND/OR node keeps its index and has no code or name; all three flags are false; there are no children |
| CourseNodes.NodeArena.NewNode | traversal_util.py:19-55 | constructing a node allocates a fresh object after all existing ones and leaves them untouched |
| CourseNodes.NodeArena.AddChild | traversal_util.py:58-65 | the child is appended at the end of the parent's children; no other node and no other field changes |
| Completion.CompletedCoursesSet | traversal_util.py:393-404 | the set holds exactly the listed codes and is no larger than the list |
| Completion.MarkCompletion | traversal_util.py:341-389 | the arena afterwards is `Propagated`: first walk, then second walk, over the nodes reachable from the root |
| Completion.MarkCompletedCourses | traversal_util.py:357-361 | every reachable Course node gets `completed` = its code is in the set; unreachable nodes are unchanged; shared nodes are handled, since the step is idempotent |
| Completion.UpdateParents | traversal_util.py:363-383 | children are finished before their parent; every reachable node ends in its `UpdatedNode` state; the others are unchanged |
| Completion.SecondWalkStep | traversal_util.py:365-383 | the `any`/`all` the code computes over finished children equals the specification's verdict for OR, AND and Course nodes |
| Completion.PropagatedWrites | traversal_util.py:357-383 | only `completed` of reached Course nodes, `marked` of AND/OR nodes and `ready_to_take` of Course nodes are written; labels, codes, names, indexes, children and all unreached nodes are unchanged |
| Completion.FlagsAgreeWithChildren | traversal_util.py:369-383 | OR is marked iff some child is completed or marked; AND iff every child is; a Course node is ready iff it was ready or every child is done; so an empty OR is unmarked, an empty AND is marked and a leaf Course is ready |
| Completion.SatisfiedMonotone | traversal_util.py:369-375 | more completed children never unsatisfy a node |
| Completion.FirstWalkMonotone | traversal_util.py:357-359 | a larger completed set marks at least the same Course nodes completed and touches no other flag |
| Completion.PropagateIdempotent | traversal_util.py:341-389 | running mark_completion twice with the same list leaves the arena exactly as one run does |
| Completion.PropagateMonotone | traversal_util.py:357-383 | on the same tree, a larger completed set never turns `completed`, `marked` or `ready_to_take` from true to false |
| Completion.PropagateKeepsFlagDiscipline | traversal_util.py:31-33 | if every node keeps the documented discipline (`marked` never on Course nodes; `completed` and `ready_to_take` never on AND/OR nodes), it still holds afterwards |
| Materialize.FirstRecordError | traversal_util.py:107-148 | no error iff every record has a first label and the properties its label needs; otherwise it is the error of the first failing record |
| Materialize.Registered | traversal_util.py:107-148 | the node loop only appends to the arena and keeps both tables pointing into it |
| Materialize.RegisteredKeys | traversal_util.py:107-148 | the loop registers exactly the ids of kept records and the codes of Course records; all other entries are unchanged |
| Materialize.RegisteredNodeAt | traversal_util.py:118-148 | each kept record's node is built by the constructor with the record's label and properties, at its own slot |
| Materialize.RegisteredIdLastWins | traversal_util.py:114-148 | an id names the node of the last kept record with that id |
| Materialize.RegisteredCourseLastWins | traversal_util.py:118-128 | a code names the node of the last Course record with that code |
| Materialize.RegisteredCoursesFrom | traversal_util.py:118-128 | every code entry names a Course node carrying that code |
| Materialize.RegisterNodes | traversal_util.py:107-148 | the loop fails iff some record fails, with the first record's error; on success the arena and tables are those of `Registered` |
| Materialize.WiredFailsOnUnknown | traversal_util.py:151-164 | wiring succeeds iff every edge names two registered ids; otherwise it reports the first bad edge, naming the start id if that one is missing and the end id otherwise |
| Materialize.WiredChildren | traversal_util.py:151-166 | after wiring, each node's children are its old children followed by the end nodes of the edges starting at it, in edge order; nothing else changes |
| Materialize.WireEdges | traversal_util.py:151-166 | the loop's outcome and resulting arena are those of `Wired` |
| Materialize.BuiltCoursesFrom | traversal_util.py:100-168 | the code table of a build names only Course nodes that the build created, each carrying its code |
| Materialize.BuiltCourseKeys | traversal_util.py:100-168 | a successful build files exactly the codes of its Course records |
| Materialize.CreateFullTreeFromApoc | traversal_util.py:100-168 | the outcome is the first error, or the node filed under the requested code; that node is a freshly built Course node with that code; a missing code fails with CourseNotFound |
| Materialize.CreatePrerequisiteTreeFromApoc | traversal_util.py:265-335 | the same build over the one-level query rows, with the same outcome |
| CourseSearch.Traverse | traversal_util.py:484-488 | appends to the list the Course nodes under the node, in pre-order |
| CourseSearch.FindAllCourseNodes | traversal_util.py:472-491 | returns `CoursesUnder(root)`, the pre-order list of Course nodes |
| CourseSearch.CoursesUnderReach | traversal_util.py:472-491 | a node is collected iff it is a Course node reachable from the root |
| CourseSearch.RootCollected | traversal_util.py:485-486 | a Course root is collected from its own tree |
| CourseSearch.CollectedAreCourses | traversal_util.py:485-486 | every collected node is a Course node of the arena |
| Powersets.Powerset | traversal_util.py:590-600 | the powerset contains the set itself and the empty set |
| Commonality.PowersetMember | traversal_util.py:600 | a set is in the powerset iff it is a subset |
| Powersets.PowersetSize | traversal_util.py:600 | a set of n elements has 2^n subsets |
| Commonality.TreeTableKeys | traversal_util.py:515-518 | the table has one entry per distinct root code; roots sharing a code collapse into one |
| Commonality.TreeTableLastWins | traversal_util.py:515-518 | a code's entry is the collected list of the last root with that code |
| Commonality.BuildTreeTable | traversal_util.py:515-518 | the loop builds `TreeTable` |
| Commonality.InvertTable | traversal_util.py:522-533 | the result maps each code to exactly the roots whose trees hold it (`Invert`) |
| Commonality.FileCode | traversal_util.py:555-560 | the code is added to the entry of each given group, the entry created empty when missing; other entries are unchanged |
| Commonality.AddCombinations | traversal_util.py:540-564 | combinations maps each group of two or more roots to exactly the shared codes whose root set includes it; pwr_to_sub maps each root set to its proper groups |
| Commonality.CombosHolds | traversal_util.py:540-564 | before pruning, combinations is the pruning state with no root set applied yet |
| Commonality.PruneStep | traversal_util.py:577-585 | pruning one subset by a root set removes exactly the codes the root set still holds, and deletes the entry when nothing is left |
| Commonality.PruneUnder | traversal_util.py:575-585 | after the inner loop, the root set has pruned all its proper groups |
| Commonality.PruneGroup | traversal_util.py:573-585 | a root set whose entry is gone prunes nothing, and otherwise prunes its proper groups |
| Commonality.Prune | traversal_util.py:570-585 | in every iteration order, pruning leaves each root set mapped to exactly the codes whose root set it is (`CommonalityOf`) |
| Containments.ListOf | traversal_util.py:633 | the list holds each element of the set exactly once |
| Containments.ConvertFrozensetSerializable | traversal_util.py:620-635 | one entry per key, listing exactly the elements of its set, each once |
| Containments.FileContainers | traversal_util.py:657-661 | the item is filed under every other code of the group |
| Containments.ContainmentOfGroup | traversal_util.py:650-661 | one group's pass accounts for exactly the pairs (group, item) where item is a root of the group and one of its common codes |
| Containments.ContainmentSets | traversal_util.py:647-661 | the dictionary maps `o` to `item` iff some group holds both, `o ≠ item`, and `item` is one of that group's common codes |
| Containments.CheckContainment | traversal_util.py:638-668 | the containment relation, each set listed once per element |
| Containments.ContainmentOfCommonality | traversal_util.py:650-661 | after pruning, `o` contains `item` iff `item` is a shared code that is a root of its own root set and `o` is another root of that set |
| Analysis.SharedIsOccurrence | traversal_util.py:537 | a code is kept iff it occurs in two or more trees, and its root set is exactly those trees |
| Analysis.CommonalityExact | traversal_util.py:515-587 | a code is listed under a group iff it occurs in two or more trees and the group is exactly those trees; a code in one tree only is listed nowhere |
| Analysis.FewRoots | traversal_util.py:515-587 | with fewer than two distinct root codes, the commonality is empty |
| Analysis.OwnCodeCounted | traversal_util.py:515-518 | when the roots are Course nodes, each root code is among the codes of its own entry |
| Analysis.CommonalityAlgorithm | traversal_util.py:494-587 | the result lists `CommonalityOf` for the trees' shared codes, and the containment derived from it |
| Serialize.OwnEntries | traversal_util.py:446-457 | a node's own entries: label, marked, ready_to_take and completed always, with the node's values; code and full_name exactly when the node is a Course node; index exactly when it is not; never children |
| Serialize.NodeDict | traversal_util.py:439-467 | the dictionary holds every own entry of the node with its value and nothing else but children; children is present exactly when the node has children, one entry per child |
| Serialize.NodeDictCodes | traversal_util.py:446-465 | the Course codes read off a node's dictionary are its own code (for a Course node) followed by those of its children's dictionaries in order |
| Serialize.CourseNodeToDict | traversal_util.py:439-467 | builds `NodeDict`, appending the children's dictionaries one by one |
| Serialize.ChildrenInOrder | traversal_util.py:462-465 | the k-th entry of children is the dictionary of the k-th child |
| Serialize.SerializedCourses | traversal_util.py:439-467 | the Course codes in the dictionary, in pre-order, are exactly the codes of the nodes find_all_course_nodes collects, in the same order |

## Left out

- The database: `run_apoc_query`, `run_apoc_query_first_level` and `session.execute_read`. The build takes the parsed rows as input (`QueryRecord`).
- `parse_node` and `parse_relationship`: their output is modelled as plain records, with absent properties as `None`.
- The module-level tables `dict_course`, `dict_AND`, `dict_OR` and `dict_neo4j_all`. The model keeps one id table and one code table per build call. `dict_AND` and `dict_OR` are written but never read by the core, so they are not modelled.
- `tree_visualization` and every `print`: debug output only.
- The string rendering of keys, `str(list(key))` and `str(key)`. Group keys stay sets of root codes, and containment keys stay codes.
- The order in which sets and dictionaries are iterated: every loop picks its next key arbitrarily, so lists built from sets have an order left open.
- The list and set distinction of pruned values. After pruning, some values of `combinations` are lists without duplicates; the model keeps them as sets.
- `construct_dict`: modelled as the `CommonalityResult` constructor, which has no contract of its own.
- Object identity: an object is a position in the arena, and acyclicity is a precondition (`Ranked`), because the source never checks it.
- A record whose first label is none of Course, AND or OR: the source creates no node for it, and neither does the model. The constructor's fall-through for an unknown label, which leaves `code`, `full_name` and `index` unset, is not modelled, since no caller reaches it.
- CreateFullTreeFromApoc: when the build fails part-way, it states only that the arena did not shrink, not which nodes the failed row had already created or wired.
