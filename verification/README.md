# A model of the query engine

The engine answers cypher patterns on the address space of an OPC UA server. A pattern has a start
node, the pivot. The engine splits the pattern there, turns the left half around, walks both halves
away from the pivot by browsing, joins the two lists of rows as a cross product, and stores the rows
by columns. A source feeds it start elements: a depth-first visitor of the hierarchy for the first
match clause, a column of an earlier clause for a later one.

The project models that chain from the parsed pattern to the stored rows and proves what the rows
mean: which walks of the address space they are, how often and in which order they occur, and where
the code departs from the pattern as written.

| file | what it models |
|---|---|
| `AddressSpace.dfy` | nodes, references, Browse (OPC 10000-4, section 5.8.2), and the graph behind it |
| `BrowseResults.dfy` | the whole of a Browse result, in order |
| `Cypher.dfy` | parsed paths, name lookup, compilation to pattern paths |
| `Pattern.dfy` | pattern paths: split, in-place reversal, meaning; the path object |
| `Matching.dfy`, `PathMatchers.dfy` | `check`, `checkPath`, `filter` as functions, and as the methods of the matcher object proved against them |
| `Walks.dfy`, `Meaning.dfy`, `FastPath.dfy`, `Mirrors.dfy` | what the matcher's rows are |
| `ExampleSpaces.dfy`, `Assertions.dfy`, `Intentions.dfy` | address spaces made for a pattern, and with them exactly which patterns can abort and which are matched as written |
| `Counts.dfy`, `AnswerCounts.dfy` | how often an answer is found, counted in references of the address space |
| `PathResults.dfy` | the column store |
| `Visitors.dfy`, `Climb.dfy` | the depth-first source and the climb to the root |
| `Planning.dfy`, `Runs.dfy` | planning, and the runs of a query as a state machine |
| `Answers.dfy`, `Chains.dfy` | the answers of one clause, and of a whole chain of clauses, in terms of the address space |
| `Texts.dfy` | what a query's text says, from its fields alone: which walks fit, where it starts looking, what it finds |
| `Roots.dfy` | exactly which start nodes and roots let a query be answered as written |
| `TypeQueries.dfy`, `Rewriting.dfy`, `Backwards.dfy` | queries of the repository's documentation, and two ways to ask one question |
| `Sinks.dfy`, `MatchClauses.dfy`, `QueryEngines.dfy` | sources, sinks, clauses and the engine as objects that share columns |
| `Sequences.dfy`, `Wrappers.dfy` | helpers |

Three conventions. A run in which one of the engine's own size assertions fires ends in `Aborted`; this
is a build with assertions enabled. Rows are compared by the node ids they visit (`Ids`, `Yields`) or as
rows of reference descriptions; the statement says which. `Valid` says that references join known nodes.

The engine stops reading a Browse result at 1000 references. That every row is right (soundness) is stated
without regard to that, in every space: `Meaning.CheckPathSound`, `Answers.FeedSound`,
`Answers.OneClauseSound`, `Visitors.VisitSound`, `Chains.RowsAreAnswers`. That nothing is missed
(completeness) asks only that the browses on the way to the answer in question are not cut short
(`BrowsedAlong`, `BrowsedAround`, `BrowsedBelow`, `QueryBrowsed`). `Uncapped`, that no Browse call whatever is
cut short, is used where a space is shown to exist: there it makes the statement stronger.

Some statements are written without any function of the model's operations, in fields of the query, the
references and node attributes of the space, and literal ids: what a Browse call returns
(`BrowseResults.FoundInOrder`), which reference the id fast path takes (`FastPath.IdTakesFirstReference`), which
classes a visitor goes through (`Visitors.ClassesGoneThrough`), where a climb goes (`Climb.ParentMeaning`), and
what a query's text means (`Texts.dfy`).

## What the code does that its design does not ask for

Each of these is part of the model and has a statement that says exactly when it matters.

- A pattern whose half has an id-free node behind a node with an id is split at the wrong place. Such a half
  yields no row (`Walks.CheckUnsupported`), and in some address space the size assertion fires, unless the half
  asks for the null id, as the left half does when the reversal below has lost an id
  (`Assertions.AssertionSafeIffSupported` for a half, `Assertions.NeverAbortsIff` for a whole pattern).
- The pivot's own constraints count only when nothing follows it in the pattern (`Intentions.PivotCheckedIff`),
  and a type constraint only on an id-free node at either end (`Assertions.TypesCheckedIffAtEnd`).
- Together these say exactly which patterns are matched as they are written (`Intentions.IntendedIffPlain`); for
  every other pattern a space shows a walk that is lost or one too many (`Intentions.WalkLost`,
  `Intentions.WalkTooMany`).
- Nodes left of the pivot come out back to front, so the columns of those nodes are exchanged
  (`Meaning.ColumnAlignment`, `Answers.FirstClauseColumns`).
- Reversing the left half in place goes through a copy assignment that leaves a null id where the source
  has none. This loses every match exactly when an inner node of the left half lacks an id its mirror image has
  (`Pattern.ReversalIsFaithful`, `Meaning.LostIdsFindNothing`).
- The visitor's mask leaves out some classes it is asked for, so patterns that start at such a node see
  the root only (`Visitors.Unfindable`, `Visitors.UnfindableClasses`), and it does not look behind every class
  that can hold what it looks for (`Visitors.ClassesGoneThrough`).
- A name on the first node does not make it the start node when a later node has one too
  (`Planning.FirstNameIsPassedOver`), and an `ObjectType` start node overrides the root given by `WHERE`
  (`Planning.FirstPlanMeaning`).
- The visitor emits its root whatever its class and without a type, and a start node without a label is never
  looked for below it (`Roots.AskedIffRootAgrees`).
- Because a pivot is looked at only where nothing follows it, a query and the same query written from its other
  end can differ (`Backwards.AlwaysSameBagIff`, `Backwards.AlwaysSameRunsIff`).

## Model

| member | source | states |
|---|---|---|
| AddressSpace.BrowseSound | src/graph/PathMatcher.cpp:81-97 | whatever a Browse call reports is a node a reference of the space leads to in the asked direction, of an asked class, with that node's own class and type |
| AddressSpace.BrowseComplete | src/graph/PathMatcher.cpp:124-134 | a call that is not cut short at 1000 reports every node such a reference leads to |
| BrowseResults.FoundInOrder | src/graph/PathMatcher.cpp:81-134 | a Browse result of a known node is, in the order of the references and forward ends first, the entry of every end asked for, or of the first 1000; an entry has the class and type of its node and, only when asked for, the type and direction of the reference |
| BrowseResults.FirstFound | src/graph/PathMatcher.cpp:138-147 | the first entry for a node is that of the first reference that leads to it, cut short or not |
| AddressSpace.FoundDistinct | src/graph/PathMatcher.cpp:124-134 | a space that holds no reference twice gives no Browse result with a repeated entry |
| Pattern.MutablePath.InvertBrowseDirections | src/graph/Path.cpp:75-89 | from the index on, FORWARD and INVERSE are exchanged and BOTH stays; all else is unchanged |
| Pattern.MutablePath.ReverseNodes | src/graph/Path.cpp:100-105 | reversing by swaps through Node's copy assignment leaves at each position the assignment of its mirror position to it |
| Pattern.MutablePath.TransformForLeftToRightTraversal | src/graph/Path.cpp:107-116 | the object becomes the transformed path: dummy head, nodes reversed by assignment, relations reversed and flipped, nothing for an empty path |
| Pattern.SplitKeepsMeaning | src/graph/Path.cpp:91-116 | a walk fits a pattern iff its part from the split on fits the right half and its part up to the split, backwards, fits the turned-around left half, for every split and every mix of directions |
| Pattern.ReversalIsFaithful | include/graph/Path.h:36-67 | on everything matching looks at, the in-place reversal equals reversing node values iff no inner node lacks an id that its mirror image has |
| Pattern.LeftNodeFields | include/graph/Path.h:36-67 | after the reversal an inner node of the left half has class, id and type of its mirror image, and the null id in place of an id or type only it had itself |
| Pattern.MirrorKeepsMeaning | src/graph/Path.cpp:100-105 | a walk fits a pattern iff the reversed walk fits the pattern's mirror image |
| Cypher.GetIndex | include/cypher/Path.h:81-93 | returns the first node with the name, none when there is none |
| Cypher.Compile | src/graph/Path.cpp:8-26 | the loops build the compiled path the specification names; what that path means is Texts.TextIsCompiled |
| Texts.LabelMeaning | include/graph/Helper.h:9-37 | a label is read as a class iff it is the name of that class, for all eight; every other label, and none, stands for any class |
| Texts.TypeIsCompiled | include/graph/Helper.h:53-72 | the names HasTypeDefinition, HasSubType, HasProperty and HasComponent stand for references of i=40, i=45, i=46 and i=47 or a subtype, any other name and none for all references |
| Texts.TextIsCompiled | src/graph/Path.cpp:8-26 | a walk fits the compiled path iff it fits the text: labels, NodeId and TypeDefinitionId properties, type names and arrows |
| Cypher.BackwardsIsMirror | src/graph/Path.cpp:8-26 | a pattern written from its other end with flipped arrows compiles to the mirror image |
| Matching.Check | src/graph/PathMatcher.cpp:99-183 | every row of a half that does not abort is exactly as long as the half and begins with the start element |
| Matching.CheckPath | src/graph/PathMatcher.cpp:40-79 | every row of a pattern is exactly as long as the pattern and has the start element in the pivot column, so the size assertions of the merge and of the store hold |
| PathMatchers.PathMatcher.Check | src/graph/PathMatcher.cpp:99-183 | the loop, the id scan, and the restarted matchers with their stores return what `Matching.Check` says |
| PathMatchers.PathMatcher.CheckPath | src/graph/PathMatcher.cpp:40-79 | the merge loops return what `Matching.CheckPath` says |
| PathMatchers.PathMatcher.Filter | src/graph/PathMatcher.cpp:20-32 | the matcher's store holds what it held followed by the rows of the start element; fails iff matching aborts |
| PathMatchers.PathMatcher.constructor | src/graph/PathMatcher.cpp:8-18 | the halves are the split at the start index, the left one transformed, and the store is empty with one column per node |
| Walks.CheckIsWalk | src/graph/PathMatcher.cpp:121-182 | in the supported fragment nothing aborts, and the id fast path, the recursive branch and the restarts together return one list: the walks found by looking for each next node among the references of the last |
| Walks.CheckUnsupported | src/graph/PathMatcher.cpp:151-172 | outside the fragment a half never yields a row: nothing is found or the assertion fires |
| Walks.WalkMember | src/graph/PathMatcher.cpp:121-182 | a row is in that list iff it begins with the start and every element is one the path allows after the one before |
| Walks.WalkDistinct | src/graph/PathMatcher.cpp:121-182 | in a space that holds no reference twice no walk is listed twice |
| Meaning.WalkSound | src/graph/PathMatcher.cpp:99-183 | in every space the nodes of a row fit what is enforced of the half |
| Meaning.WalkComplete | src/graph/PathMatcher.cpp:99-183 | a fitting walk from the start has a row unless a browse along it is cut short |
| Meaning.CheckMeaning | src/graph/PathMatcher.cpp:99-183 | for a supported half of two or more nodes every row is a walk from the start that fits what is enforced, and every such walk along which no browse is cut short has a row |
| Meaning.CheckPathIsCross | src/graph/PathMatcher.cpp:40-79 | the rows of a pattern are the cross product of right rows and left rows, the left ones in reverse order of discovery |
| Meaning.CheckPathCount | src/graph/PathMatcher.cpp:43-78 | the number of rows is the product of the halves' numbers of rows, and no row occurs twice when no reference does; what these numbers are in the address space is Counts.CheckPathTimes |
| Counts.FoundTimes | src/graph/PathMatcher.cpp:124-134 | a Browse result holds at most one entry for a node per reference that leads to it, and exactly one for each when it is not cut short |
| Counts.WalkTimes | src/graph/PathMatcher.cpp:99-183 | the rows of a half that visit given nodes are at most as many as the reference walks through them that fit what is enforced, a node with an id counting once, and exactly as many when no browse along them is cut short |
| Counts.HalfWaysAreChoices | src/graph/PathMatcher.cpp:99-183 | that number is, for nodes that fit, the product over the relations of the number of references that lead from one node to the next, and none for others |
| Counts.CheckPathTimes | src/graph/PathMatcher.cpp:40-183 | the rows of a start element that visit given nodes: none unless they are an answer, else at most the product over all relations of the pattern, and exactly that when no browse along them is cut short |
| Meaning.CheckPathSound | src/graph/PathMatcher.cpp:40-183 | in every space, capped or not, a row occurs only inside the supported fragment and for a start the pivot admits, has the start in the pivot column, and visits a walk that fits what is enforced |
| Meaning.CheckPathDescribes | src/graph/PathMatcher.cpp:81-97 | every element of a row but the start carries the class and type definition its node has |
| Meaning.CheckPathMeaning | src/graph/PathMatcher.cpp:40-183 | for every pattern, pivot and start: inside the supported fragment the rows are, in the engine's column order, exactly the walks through the start that fit what is enforced, asked of walks along which no browse is cut short; outside it there are none |
| Meaning.CheckPathIntended | src/graph/PathMatcher.cpp:40-183 | for a pattern that asks only for what is enforced, and a start that meets the pivot, the rows are exactly the walks that fit the pattern as written, asked of walks along which no browse is cut short |
| Meaning.LostIdsFindNothing | src/graph/Path.cpp:100-105 | when the reversal loses an id no start element has a row |
| Meaning.ColumnAlignment | src/graph/PathMatcher.cpp:56-69 | column c left of the pivot holds pattern node idx-1-c; a column holds its own node iff it is not left of the pivot or is the middle of the left part |
| FastPath.FastPathRefines | src/graph/PathMatcher.cpp:136-150 | following only the first reference to a wanted id yields the same node sequences as following all, in every space |
| FastPath.FastPathIsExact | src/graph/PathMatcher.cpp:136-150 | without parallel references the two agree row by row |
| FastPath.IdTakesFirstReference | src/graph/PathMatcher.cpp:136-150 | in every row of `check` the element at a position with an id is the entry of the first reference of the space that leads to that id from the element before, in the asked direction and of the asked type |
| Assertions.AssertionSafeIffSupported | src/graph/PathMatcher.cpp:154-168 | the size assertion can fire in no space iff the half is supported or asks for the null id |
| Assertions.NullHalfFindsNothing | src/graph/PathMatcher.cpp:136-172 | a half that asks for the null id, as after a reversal that lost an id, finds nothing and aborts in no space, supported or not |
| Assertions.NeverAbortsIff | src/graph/PathMatcher.cpp:40-79 | matching a pattern can abort in no space and from no start iff its right half is supported, and its left half is supported or has lost an id |
| Assertions.TypesCheckedIffAtEnd | src/graph/PathMatcher.cpp:105-149 | the rows `check` returns for a half meet every constraint of its nodes behind the first, in all spaces, iff only its last node has a type constraint, and no id, or there are no rows because the half is unsupported or asks for the null id |
| Intentions.PivotCheckedIff | src/graph/PathMatcher.cpp:105-116 | every row has at its pivot a node that meets what the pattern asks there, in all spaces and from every described node, iff nothing follows the pivot, or it asks for nothing, or the pattern has no rows at all |
| Intentions.IntendedIffPlain | src/graph/PathMatcher.cpp:40-183 | the rows are exactly the walks that fit the pattern as written, in all spaces and from every node the pattern allows as pivot, iff the pattern is supported, loses no id, and has no type constraint that goes unlooked at |
| Intentions.WalkLost | src/graph/Path.cpp:100-105 | for every pattern outside the supported fragment, or whose reversal loses an id, a space, a start and a walk that fits the pattern and has no row |
| Intentions.WalkTooMany | src/graph/PathMatcher.cpp:105-149 | for every other pattern with a type constraint that is not looked at, a space, a start and a row whose walk does not fit the pattern |
| Mirrors.MirrorFindsTheSame | src/graph/PathMatcher.cpp:8-79 | a pattern and its mirror image give the same bag of rows up to the order of the columns, from a start that is a pivot for both or for neither |
| Backwards.BackwardsPlan | src/graph/MatchClause.cpp:61-165 | a query with one named node and the same query written from its other end are planned alike: both or neither, from that node, with the same source |
| Backwards.BackwardsFeed | src/graph/MatchClause.cpp:19-23 | fed the same elements, the two clauses give the same bag of rows up to the order of the columns iff the named node is inside the pattern or every row meets what is asked of it, as when all elements do; when this is so whatever is fed is Backwards.AlwaysSameBagIff |
| Backwards.BackwardsFindsTheSame | src/graph/QueryEngine.cpp:10-26 | the same for the rows of the two queries after their first runs, neither of which aborts; when this is so in every space is Backwards.AlwaysSameRunsIff |
| Backwards.AlwaysSameBagIff | src/graph/PathMatcher.cpp:105-116 | both ways give the same bag in all spaces and from every described node iff the named node is inside the pattern or the pattern asks nothing of it |
| Backwards.AlwaysSameRunsIff | src/graph/QueryEngine.cpp:10-26 | the first runs of both queries leave the same bag in every space that holds the root iff the named node is inside the pattern, or the pattern asks nothing of it, or only that it be the root |
| PathResults.PathResult.Emplace | include/graph/PathResult.h:21-30 | every column gets its element of the row, in place; fails iff the row is not as wide as the store |
| PathResults.PathResult.Paths | include/graph/PathResult.h:46-59 | the nested loops return the rows in order |
| PathResults.StoredRows | include/graph/PathResult.h:21-30 | after any sequence of rows all columns are equally long and the store holds the old rows and then the new ones |
| PathResults.RoundTrip | include/graph/PathResult.h:21-59 | rows stored in an empty store with columns come back in insertion order |
| PathResults.StoreIsItsRows | include/graph/PathResult.h:21-59 | any store is what storing its own rows gives |
| Visitors.TerminatesIffAcyclic | src/graph/HierachicalVisitor.cpp:70-99 | the recursion has a depth bound, and then the number of nodes is one, iff no chain of allowed references from the root is cyclic |
| Visitors.EmittedWalks | src/graph/HierachicalVisitor.cpp:15-29 | the visitor emits its root and then the end of every nonempty walk, by child index, of allowed references whose class is the wanted one, once per walk, in depth-first order; how many these are in references is AnswerCounts.EmittedTimes |
| Visitors.RootIsFirst | src/graph/HierachicalVisitor.cpp:15-29 | a known root is emitted first, with its class and nothing else; an unknown one, and all else, not at all |
| AnswerCounts.EmittedTimes | src/graph/HierachicalVisitor.cpp:15-29 | besides the root, a node of the wanted class is emitted at most once per chain of hierarchical references along allowed nodes from the root, and exactly once for each when no browse is cut short |
| AnswerCounts.BoundIsImmaterial | src/graph/HierachicalVisitor.cpp:70-99 | the bound in the number of such chains leaves none out where the visitor comes to an end |
| Visitors.TreeEmitsOnce | src/graph/HierachicalVisitor.cpp:70-99 | where no node stands twice among the lists of children of the root and of the nodes reached, and the root in none, no node is emitted twice |
| Visitors.VisitSound | src/graph/HierachicalVisitor.cpp:70-99 | in every space what it emits below its root has the wanted class, is reached along allowed nodes, and comes with its own class and type |
| Visitors.RootIsNotBelow | src/graph/HierachicalVisitor.cpp:70-99 | a visit that comes to an end never emits its root again |
| Visitors.VisitMeaning | src/graph/HierachicalVisitor.cpp:70-99 | below the root it emits exactly the nodes of the wanted class that references reach along allowed nodes, when none of its browses is cut short |
| Visitors.EmittedMeaning | src/graph/HierachicalVisitor.cpp:15-29 | with the root, which is emitted whatever its class, when it exists; nothing else in any case, and all of it when none of the visitor's browses is cut short |
| Visitors.Unfindable | src/graph/HierachicalVisitor.cpp:49-68 | for unlabelled nodes, variable types and views it emits nothing but the root |
| Visitors.UnfindableClasses | src/graph/HierachicalVisitor.cpp:49-99 | those are the only classes of which no visitor in any address space emits a node below its root; behind which classes it finds the others is Visitors.ClassesGoneThrough |
| Visitors.ClassesGoneThrough | src/graph/HierachicalVisitor.cpp:49-68 | in some space a visitor emits a node of one class that it can only come to behind a node of another, iff: objects behind objects and object types; variables behind variables, objects, object types, methods; methods behind objects, variables, methods; object types, data types, reference types behind their own class |
| Visitors.DescendantIsEmitted | src/graph/HierachicalVisitor.cpp:70-99 | a node of a class that can be found, at the end of a chain of references down from the root through such classes, is emitted, if no node on the way has more than 1000 |
| Sinks.VisitNode | src/graph/HierachicalVisitor.cpp:70-99 | the recursion feeds the sink, one by one and in order, what the specification of `visit` lists |
| Sinks.Generate | src/graph/HierachicalVisitor.cpp:15-29 | the same with the root first; nothing when the root is unknown |
| Sinks.GenerateColumn | src/graph/SourceColumn.cpp:9-16 | a column is replayed into a sink that does not own it, element by element, and is unchanged |
| Sinks.DefaultSink.Filter | include/graph/Sink.h:22-26 | appends the element as a row of one |
| Planning.StartIndexMeaning | src/graph/MatchClause.cpp:61-85 | the start index is in range: the least node bound by an earlier clause if any, else the least named node other than the first, else the first |
| Planning.FirstNameIsPassedOver | src/graph/MatchClause.cpp:77-80 | with nothing bound, a named first node is the start iff no later node has a name; else the first of those is |
| Planning.FirstPlanMeaning | src/graph/MatchClause.cpp:112-143 | the visitor looks for the start node's class; the root named by WHERE is its root, and makes a difference, iff the start node is not labelled ObjectType and the root is not the default one |
| Texts.FirstPlanReads | src/graph/MatchClause.cpp:102-143 | from the fields of the text: the clause collects iff it is one named node labelled ObjectType with NodeId and includeSubTypes, and then looks below that id; else it starts at the first named node behind the first, or the first, with root i=88 for the label ObjectType, else the NodeId of a first WHERE node named root, else i=85, and looks for the class its label names |
| Planning.PlanMatchMeaning | src/graph/MatchClause.cpp:102-165 | a later clause can be made iff its pattern uses a bound name, the first always; it then reads an existing column that carries the name of its start node |
| MatchClauses.FindSourceColumn | src/graph/MatchClause.cpp:87-100 | returns the column object of the first clause and first node with the name |
| MatchClauses.FindStartIndex | src/graph/MatchClause.cpp:61-85 | the loop over nodes and clauses returns the start index the plan says |
| MatchClauses.CreateMatchClause | src/graph/MatchClause.cpp:102-165 | makes a clause that carries out the plan, new but for the one column object it reads; none exactly when there is no plan |
| MatchClauses.MatchClause.Run | src/graph/MatchClause.cpp:19-23 | appends the rows of each source element; the column it reads is not touched |
| MatchClauses.MatchClause.Results | src/graph/MatchClause.cpp:47-54 | the column object of the first node with the name |
| MatchClauses.RunWired | src/graph/QueryEngine.cpp:20-26 | running one clause leaves every clause its columns and its source, and the other clauses their rows |
| QueryEngines.QueryEngine.ScheduleQuery | src/graph/QueryEngine.cpp:10-18 | the chain is extended by the planned clauses, rows already found stay, new clauses are empty; fails iff one cannot be planned; the engine's invariant is kept |
| QueryEngines.QueryEngine.Run | src/graph/QueryEngine.cpp:20-26 | the clauses' rows become those of one run of the state machine; fails iff it aborts; the engine's invariant is kept, for any number of runs |
| QueryEngines.QueryEngine.GetContext | src/graph/QueryEngine.cpp:39-47 | all clauses so far, in order |
| QueryEngines.QueryEngine.NotItsOwnColumn | src/graph/MatchClause.cpp:146-163 | no clause draws on a column it fills |
| Runs.RunMeaning | src/graph/QueryEngine.cpp:20-26 | a run appends to each clause, in order and with duplicates, the rows of each element of its source, and a source column is read as the run leaves it |
| Runs.RunKeepsInvariant | src/graph/QueryEngine.cpp:20-26 | in every reachable state every row of every clause is one its sink makes of an element its source holds; runs only append |
| Runs.ScheduleKeepsInvariant | src/graph/QueryEngine.cpp:10-18 | scheduling between runs keeps that |
| Runs.PivotsComeFromSource | src/graph/SourceColumn.cpp:9-16 | in every reachable state the element in a later clause's pivot column stands in the column it draws on, in a row of that earlier clause |
| Answers.FeedSound | src/graph/MatchClause.cpp:19-23 | in every space every row a clause makes of its source elements has one of them in the pivot column and visits a walk through it that fits what is enforced |
| Answers.FeedMeaning | src/graph/MatchClause.cpp:19-23 | the rows a clause makes of its source elements are exactly the walks through one of them that fit what is enforced, asked of walks along which no browse is cut short |
| AnswerCounts.FeedTimes | src/graph/MatchClause.cpp:19-23 | the number of rows that visit given nodes is at most the number of source elements for the start node times the number of ways to pick references along the pattern, and exactly that when no browse along them is cut short |
| Answers.OneClauseSound | src/graph/QueryEngine.cpp:10-26 | in every space every row of a one-clause query visits a walk that fits what is enforced, from a start node the visitor offers |
| Texts.StartsAreRead | src/graph/MatchClause.cpp:122-143 | in every space every row of a query's first run has at its start node the root its text gives, or a node of the labelled class to which references of i=33 or a subtype lead down from it through the classes gone through |
| Answers.OneClauseAnswer | src/graph/QueryEngine.cpp:10-26 | the answer of a one-clause query, from parsed text to stored rows: exactly the walks whose start node the visitor offers and that fit what is enforced, when no browse of the visitor or along the walk is cut short; in the supported fragment nothing aborts |
| AnswerCounts.OneClauseTimes | src/graph/QueryEngine.cpp:10-26 | how often a one-clause query finds an answer: at most the number of chains of hierarchical references from the root to the start node, and one for the root itself, times the number of ways to pick references along the pattern; exactly that when no browse is cut short |
| Answers.OneClauseIntended | src/graph/QueryEngine.cpp:10-26 | for a plain pattern, whose start node is last or asks for no more than the root's class, and whose type constraint tells the root apart: exactly the walks that fit the pattern as written and whose start node is the root or is reached along the visited part of the hierarchy |
| Texts.OneClauseReads | src/graph/QueryEngine.cpp:10-26 | the same from the text alone: the rows are exactly the walks that fit the text and whose start node is the root the text gives, or is found below it |
| Roots.AskedIffRootAgrees | src/graph/QueryEngine.cpp:10-26 | a plain pattern is answered as written by the first run, in every space that holds the root, iff its start node and the root agree: only the root is asked for, or the start node is last, has a label or is the root, and no type, unless its id keeps the root out |
| Answers.SubtypesAnswer | src/graph/MatchClause.cpp:112-121 | the answer of a query for a type and its subtypes is the type, if it exists, and the object types references reach from it through object types; nothing else in any case, and all of it when no browse is cut short |
| Texts.SubtypesRead | src/graph/MatchClause.cpp:112-121 | the same from the text alone: the id the text gives, and the object types to which references of i=33 or a subtype lead down from it |
| Answers.FirstClauseColumns | src/graph/MatchClause.cpp:47-54 | in the first clause a name's column holds its own node's matches iff the node is not left of the start node or the start node is the second one; otherwise it holds those of the node just left of the start |
| Answers.LaterClauseAnswer | src/graph/MatchClause.cpp:146-163 | a later clause's rows are walks that fit and whose start element stands in the column it draws on, in every space, and all of them along which no browse is cut short |
| AnswerCounts.LaterClauseTimes | src/graph/MatchClause.cpp:146-163 | the same for a later clause, whose start elements count as often as they stand in the column it draws on |
| Chains.RowsAreAnswers | src/graph/QueryEngine.cpp:20-26 | in every reachable state of a query of any number of clauses, capped or not, every row of every clause visits an answer of that clause, defined by the address space alone: its start node is supplied by the visitor, or by the column of an answer of the earlier clause, and the walk fits what is enforced |
| Chains.SupportedRunsEnd | src/graph/QueryEngine.cpp:20-26 | a chain of supported patterns never aborts, from any state |
| Chains.QueryAnswer | src/graph/QueryEngine.cpp:20-26 | after a run from any reachable state each clause's rows visit exactly its answers, when no browse on the way to one is cut short |
| TypeQueries.Planned | README.md:46-49 | the two clauses of example (2) are planned as a visitor of the type's hierarchy and a match from the column of types |
| TypeQueries.ObjectsOfTypes | README.md:46-49 | its second clause answers with the pairs of an object and a type such that the type is the asked one or a subtype and a HasTypeDefinition reference leads from the one to the other: no other row in any space, and all of them when no browse is cut short |
| Rewriting.RewritingKeepsObjects | README.md:80-84 | asking along HasTypeDefinition and by type attribute gives the same objects in the same order and number, except that the first also gives the root when a reference gives it the type |
| Climb.ParentMeaning | include/graph/Source.h:19-45 | a node has no parent iff no reference of i=33 or a subtype leads to it; otherwise its parent is what the first such reference comes from |
| Climb.GetInverseHierachicalReference | include/graph/Source.h:19-45 | returns the node, of whatever class, that the first reference of i=33 or a subtype to the given one comes from, and none iff there is no such reference |
| Climb.GetPathToParentNode | include/graph/Source.h:49-64 | goes on from each node to the one its first hierarchical reference comes from, and ends after 100 steps, or at a node no such reference leads to |
| Climb.ClimbReachesTop | include/graph/Source.h:49-64 | where the chain of first parents above the node is at most 100 long the climb ends at a node no hierarchical reference leads to, and is the only complete one |
| Climb.ClimbIsVisited | include/graph/Source.h:49-64 | the chain backwards is a walk down that makes a visitor rooted at its end emit the node, if the mask allows the nodes on the way and no browse of the visitor is cut short |

## Left out

- Parsing of query text and of node ids: the model starts from a parsed path whose properties hold node ids.
- The OPC UA server: Browse and the node class read are functions of a space that does not change while a query runs; a call fails exactly for an unknown node, and the order of results is that of the space's references.
- Browse names and display names of results, and the result mask but for the bits that report the reference.
- Memory management of reference descriptions and browse results (copies, moves, clearing), except for Node's copy assignment, which changes what is matched.
- `explain`, tracing, JSON output and benchmarks: they only report.
- Ranges of relationships and WHERE patterns other than the root: the engine reads past them.
- Empty patterns: the engine's filter on an empty path indexes a store without columns; patterns have at least one node.
- Polymorphic sources and sinks are a choice between the two kinds the engine has.
- Visitors.Visit: has a depth bound as a ghost argument, because without one the recursion need not end; its value does not depend on the bound.
- Assertions.AssertionSafeIffSupported: the direction that finds a space where the assertion fires asks that nodes with one id ask for one class, and for at most 500 nodes; the space joins all its nodes, and a longer pattern would have browses cut short in it.
- Assertions.NeverAbortsIff: asks that no two nodes name one id, none the null id, and for at most 500 nodes, for the same reason.
- Assertions.TypesCheckedIffAtEnd: asks that nodes with one id ask for one class, that no constraint is to the null type, which no type definition has, and that no id is named twice or there are at most 500 nodes.
- Intentions.PivotCheckedIff: asks for the same, and that no node asks for the null id.
- Intentions.IntendedIffPlain: asks that no two nodes name one id, and none the null id or the null type; where two nodes name one id, a type one of them has may be looked at through the other.
- Intentions.WalkLost: asks for the same ids.
- Intentions.WalkTooMany: asks for the same ids.
- Backwards.BackwardsFindsTheSame: is about a query's first clause and asks that both patterns are supported and lose no id; where one loses an id it finds nothing. Later clauses are covered by BackwardsPlan and BackwardsFeed.
- Backwards.AlwaysSameBagIff: asks the same of both patterns, and of the pattern what Intentions.PivotCheckedIff asks.
- Backwards.AlwaysSameRunsIff: asks besides that the root is not the null id and no node but the named one asks for it.
- Mirrors.MirrorFindsTheSame: asks the same of both patterns.
- Answers.OneClauseIntended: has one direction, because it is about one space; the exact condition over all spaces is Roots.AskedIffRootAgrees.
- Roots.AskedIffRootAgrees: is about plain patterns in which no two nodes name one id, none the null id or the null type, and no node but the start node the root.
- AnswerCounts.LaterClauseTimes: counts source elements as they stand in the earlier clause's column; a count for a whole chain in references alone is not given.
- Rewriting.RewritingKeepsObjects: asks that the type attribute of every object agrees with its HasTypeDefinition references, and that no browse for these is cut short.
- Climb.ClimbIsVisited: asks that the visitor's mask allows every node below the root on the way.
