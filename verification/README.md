# Models and proofs for the MP3 player and the libraries it carries

The repository is an MP3 player with a TCP command interface. It vendors pugixml 1.9, which reads and
writes its XML configuration and answers XPath queries on it, and Google Test/Google Mock 1.8.1, which
tests it. This project models the parts with the most involved algorithms and proves what each of them
is for. Everything is in Dafny 4.11; `dafny verify dfyconfig.toml` checks the project.

## What is modelled

**Trees.** `Tree` has the library's node class with its links (parent, first child, next sibling and the
circular previous-sibling pointer) and a `Shape`: the same tree as positions in document order, with the
end of every subtree. `Represents(nodes, s)` ties the two together; every pointer walk is proved against
the positions. Section numbers of XPath below are those of the recommendation XPath 1.0.

**XPath.** `Axes` has the pointer walks of every axis, with the early exit after the first node, and shows
that five of the axes share out the document. `Order` and `Sort` have the document order comparator, which
climbs parents, and the library's sort: insertion sort below seventeen elements, three-way quicksort
otherwise, recursing into the smaller part. `XPathSpec` says declaratively what an expression means: node
sets as sets, proximity positions as counts. `XPathEval` has the evaluator with its all, any and first
modes, its claimed set orders, in-order filtering and shortcuts, and proves it against that meaning.
`XPathOptimize` has the query rewriter and proves that it preserves the meaning; `XPathQuery` puts both
together as a caller sees them. `XPathReading` settles the one place where the library reads XPath 1.0 in
its own way, and `XPathWalk` evaluates location paths on the linked tree itself. `XPathNodeTests` and
`XPathLaws` say in plain terms what each node test delivers and what each operator does to values.

**Printing and parsing.** `Strconv` and `Gap` have escaping, unescaping and the in-place compaction while a
value is converted. `Printer` walks the heap and prints; `XmlParser` is the parser as functions on a text;
`ParserInPlace` is the parser as it is, overwriting the buffer it reads and keeping offsets into it;
`RoundTrip` and `Reload` show that what is printed, through the buffered writer too, is parsed back as the
same document, and `Relink` that the nodes pushed while parsing are linked as that document was. `Layout`
shows that white space between tags and inside them changes nothing of what is parsed, and `References` what
every character and entity reference is read as.

**Output, memory, numbers.** `Utf8` and `Writer` have the buffered transcoding writer, and `Encodings` readers
for what it puts out in UTF-16, UTF-32 and Latin-1. `Allocator` has the
page allocator, `HashTable` the open-addressing table of the compact mode, `Integers` the conversions
between text and fixed-width integers. `CopyTree`, `Grafting` and `AppendCopy` have the deep copy of a tree
to any place in its document, its own inside included, or in another.

**Google Mock.** `Matching` is the Ford-Fulkerson search behind unordered container matchers, `Prereqs` the
worklist searches over the prerequisites of an expectation.

**The player's own protocols.** `Player` is the player as a state machine whose steps are what one thread
does between two points where it may have to wait. `MsgParser` is the command parser with its
length-prefixed payload, `Zip` the block-wise byte swap.

## Results that differ from what one might expect

- Between a node-set and a boolean the library does not compare as section 3.4 of XPath 1.0 says. That
  section compares the boolean of the node-set; src/ext/pugixml-1.9/pugixml/pugixml.cpp:9549-9565 compares
  the number of each node. `XPathReading.EmptyBelowTrue` and `ZeroBelowTrue` are inputs on which the two
  differ. `RelationalExactly` says for each operator, value and side when they agree: for instance `s < true()`
  exactly if `s` has nodes and none of them is worth less than 1. Queries in which no relational operator stands
  between a node-set and a boolean, which `XPathReading.Standard` decides from the query alone, mean what
  XPath 1.0 says (`XPathQuery`).
- Attribute values survive escaping and reading exactly when they hold no tab, and texts exactly when they
  hold no carriage return (`Strconv.AttributeBack` with `Strconv.Blanks`, `Strconv.TextBack` with
  `Strconv.LineEndsKeep`): the printer writes a tab in an attribute as it is and the parser makes it a
  blank, and line ends of texts are normalised.
- The player can come to a stand-still (`Player.StuckIsReachable`): a caller that replaces or stops a play
  thread holds the state lock while it joins a thread that wants the signal mutex, which the auto-stop
  thread holds while it waits for the state lock. `Player.StuckExactly` says that this is the only way.
- `PlayerPauseState::Play` always ends in Stop: the block after the call that opens the file has no
  condition (src/mp3/mp3/player_pause_state.cpp:27-31). The model follows the code.
- `TCP_SET_CFG` payloads are followed directly by the line `END`; a newline between them has to be counted
  in the stated length (src/communication/communication/msg_parser.cpp:50-67).
- The document order comparator answers true for an attribute compared with itself
  (`Order.DocumentOrder`). Sorting is proved for comparators that may answer anything on equal elements if
  the elements are all different, as the nodes of a set are, and for comparators false on equal elements
  otherwise. It needs that: on more than sixteen copies of one attribute the sort with this comparator would
  not end (`Sort.CopiesStall`).
- `FindUnsatisfiedPrerequisites` stops at a satisfied expectation that has been called. It misses nothing
  only because of what calls keep (`Prereqs.NothingMissing`).

## Model

| member | source | states |
|---|---|---|
| `Matching.MaxBipartiteMatchState.TryAugment` | src/ext/googletest-1.8.1/googlemock/src/gmock-matchers.cc:292-316 | A search from a left node either adds one to the flow, keeping both vectors mutually consistent and every matched left node matched, or changes no flow and leaves a set of right nodes all of whose partners lead nowhere else; it never enters a dead set left by earlier failed searches; terminates on the number of unseen right nodes |
| `Matching.Link` | src/ext/googletest-1.8.1/googlemock/src/gmock-matchers.cc:305-311 | The step that follows a right node to the sink: given what the nested search did, relinking one edge is a successful search from this node |
| `Matching.DeadEnd` | src/ext/googletest-1.8.1/googlemock/src/gmock-matchers.cc:305-314 | The step that meets a dead end: the set of exhausted right nodes grows by the node just left |
| `Matching.MaxBipartiteMatchState.AugmentAll` | src/ext/googletest-1.8.1/googlemock/src/gmock-matchers.cc:240-263 | After one attempt from every left node, each unmatched left node reaches dead right nodes only |
| `Matching.NoLargerMatching` | src/ext/googletest-1.8.1/googlemock/src/gmock-matchers.cc:240-271 | Koenig: with such a dead set, dead right nodes and alive-matched left nodes form a vertex cover carried by distinct matched pairs, so no set of edges that is a matching is larger than the one found |
| `Matching.MaxBipartiteMatchState.Compute` | src/ext/googletest-1.8.1/googlemock/src/gmock-matchers.cc:240-271 | For every graph, a matching of maximum size, listed by left node |
| `Matching.FindMaxBipartiteMatching` | src/ext/googletest-1.8.1/googlemock/src/gmock-matchers.cc:338-340 | The same on a fresh state, for every connectivity matrix, empty ones included |
| `Matching.SaturatesBySize` | src/ext/googletest-1.8.1/googlemock/src/gmock-matchers.cc:530-569 | A matching covers all of one side exactly when it is as large as that side; this justifies deciding by sizes alone |
| `Matching.FindPairing` | src/ext/googletest-1.8.1/googlemock/src/gmock-matchers.cc:530-569 | True exactly when some pairing exists that uses every matcher (superset flag) and every element (subset flag) |
| `Axes.AxisPositions` | src/ext/pugixml-1.9/pugixml/pugixml.cpp:9792-9982 | The axis relations of section 2.2 of XPath 1.0, defined by chains of parents, coincide with interval conditions on preorder positions |
| `Axes.FillSubtree` | src/ext/pugixml-1.9/pugixml/pugixml.cpp:9816-9846 | The descendant walk delivers exactly the proper descendants, ascending, from the links alone |
| `Axes.FillFollowing` | src/ext/pugixml-1.9/pugixml/pugixml.cpp:9866-9901 | The following walk: everything behind the subtree of the context node, ascending |
| `Axes.FillPreceding` | src/ext/pugixml-1.9/pugixml/pugixml.cpp:9903-9943 | The preceding walk, with its ancestor tests: everything before the context node but its ancestors, descending |
| `Axes.FillAncestor` | src/ext/pugixml-1.9/pugixml/pugixml.cpp:9945-9963 | The ancestor walks, nearest first |
| `Axes.FillPrecedingSibling` | src/ext/pugixml-1.9/pugixml/pugixml.cpp:9857-9864 | The walk along the circular back pointer stops at the first child |
| `Axes.FillFollowingSibling` | src/ext/pugixml-1.9/pugixml/pugixml.cpp:9848-9855 | Siblings behind the node, ascending |
| `Axes.NodeIsAncestor` | src/ext/pugixml-1.9/pugixml/pugixml.cpp:7964-7969 | True exactly for the node itself and its ancestors |
| `Axes.StepFill` | src/ext/pugixml-1.9/pugixml/pugixml.cpp:9807-9983 | For every tree, node, axis other than the attribute axis and node test: what the walk appends is exactly the selected positions in axis order; with `once`, only the first of them |
| `Axes.StepSeqMeaning` | src/ext/pugixml-1.9/pugixml/pugixml.cpp:9717-9790 | What a step delivers is what section 2.2 of XPath 1.0 puts on the axis and the node test lets pass, in document or (reverse axes) reverse document order |
| `Axes.VisitsOnce` | src/ext/pugixml-1.9/pugixml/pugixml.cpp:9792-9983 | No axis walk delivers a node twice |
| `Axes.FiveAxesPartition` | src/ext/pugixml-1.9/pugixml/pugixml.cpp:9816-9970 | Ancestor, preceding, self, descendant and following share out the document: for any two nodes exactly one of the five walks from the first delivers the second, once |
| `XPathNodeTests.NamedDelivered` | src/ext/pugixml-1.9/pugixml/pugixml.cpp:9717-9790 | On every axis a name test delivers, of the nodes on it, exactly the elements of that name |
| `XPathNodeTests.KindsDelivered` | src/ext/pugixml-1.9/pugixml/pugixml.cpp:9717-9790 | `*` delivers exactly the elements, node() every node, text(), comment() and processing-instruction() exactly the nodes of their kind, CDATA sections being text |
| `XPathNodeTests.TargetDelivered` | src/ext/pugixml-1.9/pugixml/pugixml.cpp:9717-9790 | A processing-instruction() test with a target delivers exactly those with that target |
| `XPathNodeTests.NamespaceDelivered` | src/ext/pugixml-1.9/pugixml/pugixml.cpp:9717-9790 | A prefix test delivers exactly the elements whose name goes on from the prefix |
| `XPathNodeTests.NothingElse` | src/ext/pugixml-1.9/pugixml/pugixml.cpp:9792-9983 | Nothing off the axis is delivered |
| `XPathNodeTests.NamedOnTree` | src/ext/pugixml-1.9/pugixml/pugixml.cpp:9717-9790 | The same for a name test, read off the linked nodes that a walk appends |
| `XPathNodeTests.AttributeNamed` | src/ext/pugixml-1.9/pugixml/pugixml.cpp:9677-9715 | A name test on the attribute axis delivers the first attribute of the name, unless that is a namespace declaration |
| `XPathNodeTests.AttributesDelivered` | src/ext/pugixml-1.9/pugixml/pugixml.cpp:9677-9715 | The wildcards and node() on the attribute axis deliver exactly the attributes that are no namespace declarations |
| `XPathNodeTests.NoOtherAttributes` | src/ext/pugixml-1.9/pugixml/pugixml.cpp:9677-9715 | Tests for texts, comments and processing instructions deliver no attribute |
| `XPathNodeTests.DeclaresExactly` | src/ext/pugixml-1.9/pugixml/pugixml.cpp:8520-8523 | Namespace declarations are the attributes called xmlns and those whose name begins with xmlns and a colon |
| `XPathNodeTests.ChildNamed` | src/ext/pugixml-1.9/pugixml/pugixml.cpp:10077-10121 | What child::q and @q select in a query, told from kinds, names and parents |
| `XPathWalk.StepFillFrom` | src/ext/pugixml-1.9/pugixml/pugixml.cpp:9792-10075 | The walk from a node or an attribute, on every axis, the attribute axis included, appends references to exactly the sequence the evaluator goes by; with `once`, to its first |
| `XPathWalk.FillAttributes` | src/ext/pugixml-1.9/pugixml/pugixml.cpp:9798-9805 | The walk over the attributes of a node |
| `XPathWalk.FillFromAttribute` | src/ext/pugixml-1.9/pugixml/pugixml.cpp:9985-10064 | The walks that start from an attribute, by way of its owner |
| `XPathWalk.StepOnTree` | src/ext/pugixml-1.9/pugixml/pugixml.cpp:10077-10121 | One step without predicates from a list of context references, along the links: the references of the axis nodes of each context node, one context after the other |
| `XPathWalk.AllNodesAre` | src/ext/pugixml-1.9/pugixml/pugixml.cpp:10098-10107 | Those nodes are exactly what section 2.1 of XPath 1.0 selects from the context nodes together |
| `XPathWalk.OneContext` | src/ext/pugixml-1.9/pugixml/pugixml.cpp:10088-10114 | From a single context node they come in axis order |
| `XPathWalk.FirstOnTree` | src/ext/pugixml-1.9/pugixml/pugixml.cpp:10083-10107 | With the early exit, on a forward axis: a reference to the first node of the step in document order, or none |
| `XPathWalk.StepMeans` | src/ext/pugixml-1.9/pugixml/pugixml.cpp:10083-10107 | The value of a step is the union over its context nodes, whatever their order and however often one of them is listed |
| `XPathWalk.PathOnTree` | src/ext/pugixml-1.9/pugixml/pugixml.cpp:10728-10829 | Every location path without predicates, and every union of such paths, evaluated along the links from any node or attribute: references to exactly the nodes of its value |
| `XPathWalk.MinElement` | src/ext/pugixml-1.9/pugixml/pugixml.cpp:7341-7350 | On an array in no particular order: a reference to the first of its nodes in document order, found with the comparator that climbs the tree |
| `XPathWalk.SelectOnTree` | src/ext/pugixml-1.9/pugixml/pugixml.cpp:12649-12669 | The first node of the value of such a path, or none, all of it on the tree |
| `Order.NodeIsBeforeSibling` | src/ext/pugixml-1.9/pugixml/pugixml.cpp:7897-7919 | The two-ended sibling scan decides which of two children of one parent comes first |
| `Order.NodeIsBefore` | src/ext/pugixml-1.9/pugixml/pugixml.cpp:7921-7962 | For any two nodes of one document the climb over parents answers the comparison of their preorder positions |
| `Order.DocumentOrder` | src/ext/pugixml-1.9/pugixml/pugixml.cpp:8002-8054 | Decides document order of nodes and attributes; on equal operands it answers true for attributes and false for nodes, as the code does |
| `Sort.Median3` | src/ext/pugixml-1.9/pugixml/pugixml.cpp:7402-7409 | Of three different elements, the one with a smaller and a larger among the others |
| `Sort.InsertionSort` | src/ext/pugixml-1.9/pugixml/pugixml.cpp:7380-7400 | A sorted rearrangement of the range, nothing outside it touched |
| `Sort.Partition3` | src/ext/pugixml-1.9/pugixml/pugixml.cpp:7411-7436 | Smaller, equal and larger elements in three stretches, a rearrangement of the range |
| `Sort.SortRound` | src/ext/pugixml-1.9/pugixml/pugixml.cpp:7440-7462 | One round, if the elements are different or the comparator is false on equal ones: the part left to sort gets smaller, everything else is in order, and the recursive call takes at most half |
| `Sort.Sort` | src/ext/pugixml-1.9/pugixml/pugixml.cpp:7438-7466 | A sorted rearrangement for every comparator that decides a strict total order on different elements, if the elements are different or the comparator is false on equal ones; the nesting of recursive calls is at most log2 of the length |
| `Sort.CopiesStall` | src/ext/pugixml-1.9/pugixml/pugixml.cpp:7440-7462 | Why that condition is there: more than sixteen copies of one element and a comparator that is true on it leave the whole range to the next round, so the loop does not end |
| `XPathNodeSet.DocLessDecides` | src/ext/pugixml-1.9/pugixml/pugixml.cpp:8002-8054 | The document order comparator decides a strict total order, which is what sorting needs of it |
| `XPathNodeSet.GetOrder` | src/ext/pugixml-1.9/pugixml/pugixml.cpp:8708-8722 | The order it claims for an array is one the array is in |
| `XPathNodeSet.XPathSort` | src/ext/pugixml-1.9/pugixml/pugixml.cpp:8724-8745 | Whatever order the array claims to be in: the same nodes, in document order or its reverse |
| `XPathNodeSet.Unique` | src/ext/pugixml-1.9/pugixml/pugixml.cpp:7357-7378 | Runs of equal neighbours shrink to one, in place |
| `XPathNodeSet.CollapseSorted` | src/ext/pugixml-1.9/pugixml/pugixml.cpp:7357-7378 | On an array sorted by any strict total order, shrinking runs leaves every element exactly once |
| `XPathNodeSet.RemoveDuplicates` | src/ext/pugixml-1.9/pugixml/pugixml.cpp:8852-8858 | Every element once, whatever addresses the nodes have |
| `XPathNodeSet.First` | src/ext/pugixml-1.9/pugixml/pugixml.cpp:8747-8766 | The document-order minimum, read off the claimed order or searched for |
| `XPathModes.PosInvIndependent` | src/ext/pugixml-1.9/pugixml/pugixml.cpp:10929-10958 | The syntactic check is sound: the value of such an expression does not depend on context position and size |
| `XPathModes.AxisMeaning` | src/ext/pugixml-1.9/pugixml/pugixml.cpp:9792-10064 | From an element or an attribute, the walk in axis order has exactly the nodes of the axis |
| `XPathModes.AttrContextMeaning` | src/ext/pugixml-1.9/pugixml/pugixml.cpp:9985-10064 | The same for an attribute as context node, where the walks start from its owner |
| `XPathModes.LimitCovers` | src/ext/pugixml-1.9/pugixml/pugixml.cpp:9497-9500 | Stopping at the first node found is right whenever eval_once says so |
| `XPathModes.PassingIsKept` | src/ext/pugixml-1.9/pugixml/pugixml.cpp:9573-9623 | Filtering a sequence in axis order by place in the array is the predicate of section 2.4 of XPath 1.0 with proximity positions |
| `XPathModes.PassingIsKeptAnyOrder` | src/ext/pugixml-1.9/pugixml/pugixml.cpp:9573-9597 | For a position-independent predicate the order of the array does not matter |
| `XPathModes.ConstantHolds` | src/ext/pugixml-1.9/pugixml/pugixml.cpp:9625-9651 | A predicate classified as constant holds at one position at most, the same for every node |
| `XPathEval.ApplyPredicateBoolean` | src/ext/pugixml-1.9/pugixml/pugixml.cpp:9573-9597 | Compacts the stretch to the nodes that pass; with `once`, to the first of them |
| `XPathEval.ApplyPredicateNumber` | src/ext/pugixml-1.9/pugixml/pugixml.cpp:9599-9623 | The same for a numeric predicate, which names a position |
| `XPathEval.ApplyPredicateConst` | src/ext/pugixml-1.9/pugixml/pugixml.cpp:9625-9651 | The short cut for constant positions keeps what filtering node by node keeps, at most one node |
| `XPathEval.ApplyPredicates` | src/ext/pugixml-1.9/pugixml/pugixml.cpp:9667-9675 | A chain of predicates is the nested filtering of section 2.4; only the last one may stop early |
| `XPathEval.FilterCovers` | src/ext/pugixml-1.9/pugixml/pugixml.cpp:10750-10762 | A filter works on what a weaker mode delivered for its operand and still delivers what its own mode promises |
| `XPathEval.FillSuffices` | src/ext/pugixml-1.9/pugixml/pugixml.cpp:10083-10107 | Letting step_fill stop at its first node does not change what the predicates keep |
| `XPathEval.StepOne` | src/ext/pugixml-1.9/pugixml/pugixml.cpp:10098-10107 | One context node: axis, test and predicates, appended in axis order |
| `XPathEval.StepDo` | src/ext/pugixml-1.9/pugixml/pugixml.cpp:10077-10121 | A location step in all, any and first mode: the set type claimed is true, and the nodes delivered cover the meaning as the mode promises |
| `XPathEval.EvalUnion` | src/ext/pugixml-1.9/pugixml/pugixml.cpp:10732-10748 | A union in any mode, duplicates removed |
| `XPathEval.EvalFilter` | src/ext/pugixml-1.9/pugixml/pugixml.cpp:10750-10762 | A filter expression in any mode |
| `XPathEval.EvalNodeSet` | src/ext/pugixml-1.9/pugixml/pugixml.cpp:10728-10853 | Every path, filter and union, with the library's reading of relational operators inside it: in all mode exactly the nodes it means, each once, in the claimed order; in first mode the document-order minimum is among them and is what xpath_first returns; in any mode empty exactly when there is nothing |
| `XPathEval.FirstCovered` | src/ext/pugixml-1.9/pugixml/pugixml.cpp:8747-8766 | First mode followed by xpath_first yields the document-order minimum of the whole set |
| `XPathEval.AnyCovered` | src/ext/pugixml-1.9/pugixml/pugixml.cpp:10295-10300 | Any mode is empty exactly when all mode is |
| `XPathEval.EvalBoolean` | src/ext/pugixml-1.9/pugixml/pugixml.cpp:10173-10308 | The boolean value of the expression, with the library's reading of relational operators, for every expression and context, the optimized operators included |
| `XPathEval.EvalNumber` | src/ext/pugixml-1.9/pugixml/pugixml.cpp:10310-10444 | The numeric value, a string or node set converted through first mode |
| `XPathEval.EvalString` | src/ext/pugixml-1.9/pugixml/pugixml.cpp:10488-10726 | The string value, a node set through first mode |
| `XPathEval.EvalCompareEq` | src/ext/pugixml-1.9/pugixml/pugixml.cpp:9409-9495 | Equality for all type combinations of section 3.4, existential over node sets |
| `XPathEval.EvalCompareRel` | src/ext/pugixml-1.9/pugixml/pugixml.cpp:9502-9571 | The relational operators as the library reads them, existential over the numbers of node sets also against a boolean; > and >= as < and <= with operands exchanged |
| `XPathEval.CompareAttribute` | src/ext/pugixml-1.9/pugixml/pugixml.cpp:10263-10270 | The optimized attribute comparison looks at one attribute and means the comparison it replaces |
| `XPathOptimize.MergeSound` | src/ext/pugixml-1.9/pugixml/pugixml.cpp:10892-10906 | Merging `descendant-or-self::node()` with the child, self, descendant or descendant-or-self step after it selects the same nodes in every tree and from every context, given that the predicates are position-independent |
| `XPathOptimize.DropPositionHolds` | src/ext/pugixml-1.9/pugixml/pugixml.cpp:10871-10877 | `[position() = n]` and `[n]` hold for the same nodes |
| `XPathOptimize.OptimizeTyped` | src/ext/pugixml-1.9/pugixml/pugixml.cpp:10855-10890 | An optimized query is typed as before, and every mark the optimizer leaves on a predicate is true of it |
| `XPathOptimize.OptimizeSound` | src/ext/pugixml-1.9/pugixml/pugixml.cpp:10855-10927 | The optimizer preserves the value of every query in every document and context |
| `XPathLaws.OfOperands` | src/ext/pugixml-1.9/pugixml/pugixml.cpp:10310-10400 | A binary expression has the value its operator gives its operands, the left one first |
| `XPathLaws.Arithmetic` | src/ext/pugixml-1.9/pugixml/pugixml.cpp:10310-10345 | Addition, subtraction, multiplication and negation of numbers |
| `XPathLaws.AsNumbers` | src/ext/pugixml-1.9/pugixml/pugixml.cpp:10310-10345 | Other operands of arithmetic are converted by number() first |
| `XPathLaws.NumbersCompared` | src/ext/pugixml-1.9/pugixml/pugixml.cpp:9409-9571 | All six comparisons of numbers |
| `XPathLaws.Strings` | src/ext/pugixml-1.9/pugixml/pugixml.cpp:9409-9500 | Equality, concatenation and starts-with() of strings |
| `XPathLaws.SetsCompared` | src/ext/pugixml-1.9/pugixml/pugixml.cpp:9409-9500 | Two node sets are equal, or unequal, if some two of their nodes are |
| `XPathLaws.SetEqualsNumber` | src/ext/pugixml-1.9/pugixml/pugixml.cpp:9409-9500 | Equality of a node set and a number |
| `XPathLaws.SetBelowNumber` | src/ext/pugixml-1.9/pugixml/pugixml.cpp:9502-9571 | A node set is below or above a number if some node is |
| `XPathLaws.SetEqualsString` | src/ext/pugixml-1.9/pugixml/pugixml.cpp:9409-9500 | Equality of a node set and a string |
| `XPathLaws.EqualsBoolean` | src/ext/pugixml-1.9/pugixml/pugixml.cpp:9409-9500 | Equality with a boolean compares truth values |
| `XPathLaws.Truth` | src/ext/pugixml-1.9/pugixml/pugixml.cpp:10173-10308 | boolean() of every type |
| `XPathLaws.Logic` | src/ext/pugixml-1.9/pugixml/pugixml.cpp:10173-10308 | or, and and not() by truth values |
| `XPathLaws.Sets` | src/ext/pugixml-1.9/pugixml/pugixml.cpp:10732-10748 | Union and count() |
| `XPathLaws.FirstAsString` | src/ext/pugixml-1.9/pugixml/pugixml.cpp:10488-10600 | string() and number() of a node set are those of the node that comes first in document order |
| `XPathLaws.Conversions` | src/ext/pugixml-1.9/pugixml/pugixml.cpp:10310-10600 | string() and number() of the other types |
| `XPathReading.EvaluateBy` | src/ext/pugixml-1.9/pugixml/pugixml.cpp:9502-9571 | A query in which no <, <=, > or >= stands between a node-set and a boolean means the same under section 3.4 of XPath 1.0 and as the library reads it, in every document and context |
| `XPathReading.WithoutRelational` | src/ext/pugixml-1.9/pugixml/pugixml.cpp:9502-9571 | Every query without <, <=, > and >= is such a query |
| `XPathReading.StandardOnTop` | src/ext/pugixml-1.9/pugixml/pugixml.cpp:9502-9571 | With one of them on top a query is one if its operands are, and are not a node-set and a boolean |
| `XPathReading.RelationalExactly` | src/ext/pugixml-1.9/pugixml/pugixml.cpp:9502-9571 | For such an operator between a node set and a boolean the library's value is that of section 3.4 if and only if a stated condition on the node set and the boolean holds, one for each operator, value and side |
| `XPathReading.ComparisonsAgree` | src/ext/pugixml-1.9/pugixml/pugixml.cpp:9502-9571 | The eight conditions, on the numbers of the nodes and on whether there are any |
| `XPathReading.EmptyBelowTrue` | src/ext/pugixml-1.9/pugixml/pugixml.cpp:9549-9565 | An input on which they differ: `x < true()` where there is no `x` is true by section 3.4, false here |
| `XPathReading.ZeroBelowTrue` | src/ext/pugixml-1.9/pugixml/pugixml.cpp:9549-9565 | Another: `/ < true()` on a document worth 0 is false by section 3.4, true here |
| `XPathOptimize.DoubleSlashMerged` | src/ext/pugixml-1.9/pugixml/pugixml.cpp:10892-10906 | The two steps of the double slash are made one whenever the predicates ask for no position |
| `XPathOptimize.ComparisonShortened` | src/ext/pugixml-1.9/pugixml/pugixml.cpp:10920-10926 | A comparison of a named attribute with a text is made the one that looks at a single attribute |
| `XPathOptimize.NumbersMarked` | src/ext/pugixml-1.9/pugixml/pugixml.cpp:10871-10890 | Numeric predicates are marked as constant, the number one apart, and position() = n is made n |
| `XPathQuery.OneMeaning` | src/ext/pugixml-1.9/pugixml/pugixml.cpp:9502-9571 | A query without such an operator has one meaning |
| `XPathQuery.SelectNodes` | src/ext/pugixml-1.9/pugixml/pugixml.cpp:12627-12647 | Optimized and evaluated for all nodes: the node set the query means, each node once, in the order claimed; without a relational operator between a node-set and a boolean, that is the node set of XPath 1.0 |
| `XPathQuery.SelectNode` | src/ext/pugixml-1.9/pugixml/pugixml.cpp:12649-12669 | Optimized and evaluated for the first node: the document-order minimum of what the query means, or none; by XPath 1.0 under the same condition |
| `XPathQuery.QueryBoolean` | src/ext/pugixml-1.9/pugixml/pugixml.cpp:12532-12551 | Optimized and evaluated to a boolean: the query's own truth value; by XPath 1.0 under the same condition |
| `XPathQuery.QueryNumber` | src/ext/pugixml-1.9/pugixml/pugixml.cpp:12553-12572 | The same as a number |
| `XPathQuery.QueryString` | src/ext/pugixml-1.9/pugixml/pugixml.cpp:12575-12594 | The same as a string |
| `Tree.Shape.AncestorInterval` | src/ext/pugixml-1.9/pugixml/pugixml.cpp:7964-7969 | Ancestry along parent pointers is containment of preorder intervals |
| `Tree.Shape.SiblingLinks` | src/ext/pugixml-1.9/pugixml/pugixml.cpp:1231-1250 | Next and previous siblings are inverse, and the last child is the one without a next sibling |
| `CopyTree.AppendNode` | src/ext/pugixml-1.9/pugixml/pugixml.cpp:1231-1250 | The four or five links it sets; every other link and all contents stay |
| `CopyTree.NodeCopyContents` | src/ext/pugixml-1.9/pugixml/pugixml.cpp:4397-4412 | Name, value and attributes are the source's |
| `CopyTree.AppendNext` | src/ext/pugixml-1.9/pugixml/pugixml.cpp:1398-1408 | A new last child keeps the copies linked as the first nodes of the source tree, in document order |
| `CopyTree.Climbing` | src/ext/pugixml-1.9/pugixml/pugixml.cpp:4444-4456 | One turn of the climb, whether it stands on a source node or on the copy itself |
| `CopyTree.NextPlace` | src/ext/pugixml-1.9/pugixml/pugixml.cpp:4444-4456 | The climb ends on the next source node in document order, on the copy, or back at the source root with everything copied |
| `CopyTree.NodeCopyTree` | src/ext/pugixml-1.9/pugixml/pugixml.cpp:4414-4458 | Terminates, and builds copies linked as the source was before the destination came into it, with equal contents, although the walk may meet the destination; the source and the destination's own place are unchanged |
| `Grafting.SubValid` | src/ext/pugixml-1.9/pugixml/pugixml.cpp:4414-4458 | A subtree read by positions is a tree again |
| `Grafting.GraftValid` | src/ext/pugixml-1.9/pugixml/pugixml.cpp:5892-5907 | A tree put in as the last child of a node of another tree gives a tree |
| `AppendCopy.LinkLeaf` | src/ext/pugixml-1.9/pugixml/pugixml.cpp:1231-1250 | append_node seen from the whole document: exactly the links to the new last child differ |
| `AppendCopy.SplicedNow` | src/ext/pugixml-1.9/pugixml/pugixml.cpp:5903-5904 | After the new node is linked, the tree to be copied is the old one with at most the new node spliced in, wherever it hangs |
| `AppendCopy.AppendCopy` | src/ext/pugixml-1.9/pugixml/pugixml.cpp:5892-5907 | After append_copy the nodes are again a document: the old one with a copy of the tree at the prototype, as it was, put in as the last child, even when the destination lies inside that tree; refused by kind, nothing changes |
| `AppendCopy.PlacesAllowed` | src/ext/pugixml-1.9/pugixml/pugixml.cpp:4344-4351 | Which kinds of node may be put below which |
| `AppendCopy.AppendCopyFrom` | src/ext/pugixml-1.9/pugixml/pugixml.cpp:5892-5907 | The same with a prototype in another document, in which nothing changes |
| `Strconv.ReferenceStops` | src/ext/pugixml-1.9/pugixml/pugixml.cpp:2446-2584 | No character or entity reference reads past the terminating NUL |
| `Strconv.TextOutputEscaped` | src/ext/pugixml-1.9/pugixml/pugixml.cpp:3906-3945 | The run-by-run output equals escaping character by character, for any text without NUL |
| `Strconv.ReferenceBack` | src/ext/pugixml-1.9/pugixml/pugixml.cpp:2446-2584 | The reference printed for a special character is read back as that character, in the middle of any text |
| `Strconv.AttributeBack` | src/ext/pugixml-1.9/pugixml/pugixml.cpp:2782-2816 | An attribute value without NUL, escaped and followed by its quote, is read back with every tab turned into a blank: exactly itself if and only if it holds no tab |
| `Strconv.Blanks` | src/ext/pugixml-1.9/pugixml/pugixml.cpp:2782-2816 | Turning tabs to blanks is the identity exactly on values without tab |
| `Strconv.TextBack` | src/ext/pugixml-1.9/pugixml/pugixml.cpp:2657-2706 | A text without NUL, escaped and followed by a tag, is read back with CR LF and CR turned into LF: exactly itself if and only if it holds no CR |
| `Strconv.LineEndsKeep` | src/ext/pugixml-1.9/pugixml/pugixml.cpp:2657-2706 | Converting line ends is the identity exactly on texts without CR |
| `Strconv.EscapedClean` | src/ext/pugixml-1.9/pugixml/pugixml.cpp:3906-3945 | Printed text holds no angle brackets, printed values no quotes either, and neither holds control characters but tabs and, in text, line ends |
| `Strconv.EscapedPlainly` | src/ext/pugixml-1.9/pugixml/pugixml.cpp:3906-3945 | Text without special characters is printed as it is |
| `Strconv.AttributeAgrees` | src/ext/pugixml-1.9/pugixml/pugixml.cpp:2782-2816 | The value read depends only on the characters from its start on |
| `References.BytesMean` | src/ext/pugixml-1.9/pugixml/pugixml.cpp:1469-1518 | What is written for a Unicode scalar value is one well-formed character that the decoder takes for that value |
| `References.NumericIs` | src/ext/pugixml-1.9/pugixml/pugixml.cpp:2446-2513 | A numeric reference, decimal or hexadecimal in either case, is read as the UTF-8 bytes of its number |
| `References.NumericMeans` | src/ext/pugixml-1.9/pugixml/pugixml.cpp:2446-2513 | For every Unicode scalar value, both references to it are read as bytes that decode to it |
| `References.NamedRead` | src/ext/pugixml-1.9/pugixml/pugixml.cpp:2446-2584 | The five predefined entities are read as their characters |
| `References.ReplacedByNumber` | src/ext/pugixml-1.9/pugixml/pugixml.cpp:2657-2816 | Such a reference is replaced by these bytes in texts and in attribute values |
| `References.ReplacedByName` | src/ext/pugixml-1.9/pugixml/pugixml.cpp:2657-2816 | A named one by its character |
| `Gap.TextGap.Push` | src/ext/pugixml-1.9/pugixml/pugixml.cpp:2415-2429 | Collapsing the previous gap and skipping characters keeps the invariant: what was put out so far lies in front of the gap, what is unread is as it was |
| `Gap.TextGap.Flush` | src/ext/pugixml-1.9/pugixml/pugixml.cpp:2432-2443 | After the last collapse the converted text lies in one piece; nothing before it or behind it has changed |
| `Gap.StrconvEscape` | src/ext/pugixml-1.9/pugixml/pugixml.cpp:2446-2584 | In place, a reference is replaced by what it stands for, or left alone if it is none |
| `Gap.ParseWconv` | src/ext/pugixml-1.9/pugixml/pugixml.cpp:2782-2816 | In-place conversion of any attribute value equals the out-of-place one, for either quote, and fails exactly when the value is not closed |
| `Gap.ParsePcdata` | src/ext/pugixml-1.9/pugixml/pugixml.cpp:2657-2706 | In-place conversion of any text equals the out-of-place one |
| `Printer.NodeOutputAttributes` | src/ext/pugixml-1.9/pugixml/pugixml.cpp:4063-4088 | All attributes in order, escaped and quoted |
| `Printer.NodeOutputStart` | src/ext/pugixml-1.9/pugixml/pugixml.cpp:4090-4150 | A start tag, an empty-element tag or a whole element with a value; whether children follow |
| `Printer.NodeOutputClimb` | src/ext/pugixml-1.9/pugixml/pugixml.cpp:4283-4309 | The climb writes the end tags between a finished node and the next one in document order |
| `Printer.NodeOutput` | src/ext/pugixml-1.9/pugixml/pugixml.cpp:4224-4315 | The pointer walk prints the nodes in document order with every end tag in its place |
| `Printer.ValueAsChild` | src/ext/pugixml-1.9/pugixml/pugixml.cpp:4090-4150 | An element's own value is printed as a first text child would be |
| `Printer.Nameless` | src/ext/pugixml-1.9/pugixml/pugixml.cpp:4092-4093 | An element without a name is printed under the default name |
| `RoundTrip.ElementBack` | src/ext/pugixml-1.9/pugixml/pugixml.cpp:3255-3367 | A printed start tag, attributes and all, is parsed into its element, with the cursor on it if children follow |
| `RoundTrip.TextNodeBack` | src/ext/pugixml-1.9/pugixml/pugixml.cpp:3419-3471 | A printed text followed by a tag is parsed into its text node |
| `RoundTrip.ClimbBack` | src/ext/pugixml-1.9/pugixml/pugixml.cpp:3368-3401 | The end tags after a node bring the parser back to the parent of the next one |
| `RoundTrip.PrintedParses` | src/ext/pugixml-1.9/pugixml/pugixml.cpp:3242-3478 | Printing in raw format and parsing with default options gives back the same tree, for every document of elements with legal names, attribute values without tab or NUL, and texts that are non-blank, non-adjacent and without CR or NUL |
| `RoundTrip.NameCharacters` | src/ext/pugixml-1.9/pugixml/pugixml.cpp:1829-1880 | The characters of names: letters, underscore, colon and bytes beyond ASCII to begin with, digits, minus and full stop after that |
| `RoundTrip.OpenAtEnd` | src/ext/pugixml-1.9/pugixml/pugixml.cpp:3475-3478 | A text that ends while an element is open is refused |
| `RoundTrip.OtherName` | src/ext/pugixml-1.9/pugixml/pugixml.cpp:3368-3387 | An end tag with another name than that of the open element is refused |
| `Layout.AttributeTaken` | src/ext/pugixml-1.9/pugixml/pugixml.cpp:3278-3318 | White space before an attribute and around its equals sign changes nothing |
| `Layout.StartTaken` | src/ext/pugixml-1.9/pugixml/pugixml.cpp:3255-3367 | Neither does white space anywhere in a start tag |
| `Layout.EndTaken` | src/ext/pugixml-1.9/pugixml/pugixml.cpp:3368-3401 | Nor in an end tag |
| `Layout.GapSkipped` | src/ext/pugixml-1.9/pugixml/pugixml.cpp:3419-3432 | Nor between tags |
| `Layout.LaidOutParses` | src/ext/pugixml-1.9/pugixml/pugixml.cpp:3242-3478 | Every layout of a legal document, with blanks, tabs, line feeds and carriage returns between its tags, inside them, before it and after it, is parsed into the document |
| `Layout.LayoutIrrelevant` | src/ext/pugixml-1.9/pugixml/pugixml.cpp:3242-3478 | So it is parsed as the document printed without any white space is |
| `Layout.ValueNormalized` | src/ext/pugixml-1.9/pugixml/pugixml.cpp:2782-2816 | White space in an attribute value is read as blanks, a line end of two characters as one |
| `ParserInPlace.TreeParser.TakeElement` | src/ext/pugixml-1.9/pugixml/pugixml.cpp:3258-3265 | A name becomes an element below the cursor, in place |
| `ParserInPlace.TreeParser.TakeAttribute` | src/ext/pugixml-1.9/pugixml/pugixml.cpp:3278-3318 | A name and a converted value become the last attribute of the open element |
| `ParserInPlace.TreeParser.MatchName` | src/ext/pugixml-1.9/pugixml/pugixml.cpp:3374-3386 | An end tag matches exactly when its name is the open element's |
| `ParserInPlace.TreeParser.TakeText` | src/ext/pugixml-1.9/pugixml/pugixml.cpp:3442-3460 | A text is converted in place and becomes a node of the open element |
| `ParserInPlace.TreeParser.ParseTree` | src/ext/pugixml-1.9/pugixml/pugixml.cpp:3242-3478 | Every turn of the loop keeps what the rest of the buffer stands for, and the loop ends |
| `ParserInPlace.Parse` | src/ext/pugixml-1.9/pugixml/pugixml.cpp:3505-3550 | The parser, working in the buffer it is given, answers as the specification on the original text does; on success its nodes' strings, read from the buffer as it has become, are those of the specification |
| `Reload.SaveAndLoad` | src/ext/pugixml-1.9/pugixml/pugixml.cpp:4224-4315 | What a legal document in the heap prints is parsed into nodes holding the same things in the same order under the same parents |
| `Reload.PrintedInBytes` | src/ext/pugixml-1.9/pugixml/pugixml.cpp:4224-4315 | Items whose strings are made of bytes print as bytes |
| `Reload.SaveToSink` | src/ext/pugixml-1.9/pugixml/pugixml.cpp:6269-6276 | Printed through the buffered writer in UTF-8, however the text is cut into writes: the sink grows by exactly the printed text |
| `Reload.SaveAndLoadBytes` | src/ext/pugixml-1.9/pugixml/pugixml.cpp:6269-6276 | The bytes that arrive in an empty sink are parsed into nodes holding what the document's nodes hold |
| `Relink.PushNode` | src/ext/pugixml-1.9/pugixml/pugixml.cpp:1398-1408 | A node appended below the one that is open keeps the nodes pushed so far linked as the first nodes of the document, in document order |
| `Relink.AllPushed` | src/ext/pugixml-1.9/pugixml/pugixml.cpp:1231-1250 | Once every node is pushed, the links, back pointers included, are those of the whole document |
| `Relink.LinkTree` | src/ext/pugixml-1.9/pugixml/pugixml.cpp:3242-3478 | The parser's answer, pushed node by node, is a document of new nodes that shows the tree it was printed from, strings read from the buffer |
| `Relink.SaveAndReload` | src/ext/pugixml-1.9/pugixml/pugixml.cpp:6269-6276 | From the heap through the sink and the parser back to the heap: the new document has the same shape and contents as the old one |
| `Utf8.FrontOfChar` | src/ext/pugixml-1.9/pugixml/pugixml.cpp:1619-1684 | On a well-formed character (section 4 of RFC 3629) the decoder takes exactly its bytes, whatever follows |
| `Utf8.DecodesExactly` | src/ext/pugixml-1.9/pugixml/pugixml.cpp:1619-1684 | The decoded code point is a Unicode scalar value, and encoding it gives the bytes back |
| `Utf8.ConvertJoins` | src/ext/pugixml-1.9/pugixml/pugixml.cpp:3668-3689 | Converting two pieces one after the other is converting their concatenation, when the first is well-formed (always in UTF-8) |
| `Utf8.CutsAt` | src/ext/pugixml-1.9/pugixml/pugixml.cpp:3652-3666 | Well-formed text cut before a byte that starts a character leaves two well-formed pieces |
| `Utf8.AtMostThree` | src/ext/pugixml-1.9/pugixml/pugixml.cpp:3652-3666 | Among any four bytes of well-formed text one starts a character, so the scan of the last four succeeds |
| `Utf8.EncodedBack` | src/ext/pugixml-1.9/pugixml/pugixml.cpp:1469-1518 | Every scalar value is encoded as one well-formed character that is decoded to it |
| `Encodings.EmitRead` | src/ext/pugixml-1.9/pugixml/pugixml.cpp:1529-1592 | What is put out for a character in UTF-16 or UTF-32 is read back, low byte first or high byte first as the encoding says, as its code point, surrogate pairs included |
| `Encodings.ConvertRead` | src/ext/pugixml-1.9/pugixml/pugixml.cpp:3668-3689 | Every well-formed text converted to UTF-16 or UTF-32 in either byte order is read back as its code points |
| `Encodings.LatinRead` | src/ext/pugixml-1.9/pugixml/pugixml.cpp:1598-1617 | In Latin-1 every code point below 256 is its own byte and every other one a question mark |
| `Encodings.CodesExactly` | src/ext/pugixml-1.9/pugixml/pugixml.cpp:1619-1684 | The code points of a well-formed text are scalar values whose UTF-8 is the text |
| `Writer.CutsWell` | src/ext/pugixml-1.9/pugixml/pugixml.cpp:3652-3666 | The cut get_valid_length chooses never splits a code point of the whole text |
| `Writer.GetValidLength` | src/ext/pugixml-1.9/pugixml/pugixml.cpp:3652-3666 | The loop finds that cut |
| `Writer.SplitsExactly` | src/ext/pugixml-1.9/pugixml/pugixml.cpp:3782-3805 | Cutting there neither makes ill-formed text well-formed nor spoils it |
| `Writer.BufferedWriter.ConvertBufferOutput` | src/ext/pugixml-1.9/pugixml/pugixml.cpp:3668-3689 | A chunk converted into the scratch buffer, which it never overruns |
| `Writer.BufferedWriter.FlushData` | src/ext/pugixml-1.9/pugixml/pugixml.cpp:3710-3726 | The sink grows by the conversion of the chunk |
| `Writer.BufferedWriter.WriteDirect` | src/ext/pugixml-1.9/pugixml/pugixml.cpp:3728-3765 | Flush, then chunks cut between characters: sink and buffer still make up everything written |
| `Writer.BufferedWriter.WriteBuffer` | src/ext/pugixml-1.9/pugixml/pugixml.cpp:3767-3780 | The same for a piece collected in the buffer or sent past it |
| `Writer.BufferedWriter.WriteString` | src/ext/pugixml-1.9/pugixml/pugixml.cpp:3782-3805 | The same for a string that fills the buffer up to its last whole character |
| `Writer.BufferedWriter.Write` | src/ext/pugixml-1.9/pugixml/pugixml.cpp:3807-3874 | The same for one to six characters written at once |
| `Writer.BufferedWriter.Flush` | src/ext/pugixml-1.9/pugixml/pugixml.cpp:3703-3708 | After a flush the sink holds the one-shot conversion of everything written since the start, for any sequence of writes that are each well-formed; in UTF-8 for any writes; if the sink was empty it is read back as the code points written |
| `Allocator.Disjoint` | src/ext/pugixml-1.9/pugixml/pugixml.cpp:541-553 | Blocks cut from a page never overlap |
| `Allocator.AllDead` | src/ext/pugixml-1.9/pugixml/pugixml.cpp:600-603 | Freed and busy bytes of a page are equal exactly when all its blocks are freed |
| `Allocator.XmlAllocator.AllocateMemory` | src/ext/pugixml-1.9/pugixml/pugixml.cpp:541-553 | A new block behind all blocks of its page; every other block of every page keeps its place; never on the page that holds the document |
| `Allocator.XmlAllocator.AppendPage` | src/ext/pugixml-1.9/pugixml/pugixml.cpp:707-726 | A small block that does not fit starts a new last page |
| `Allocator.XmlAllocator.InsertPage` | src/ext/pugixml-1.9/pugixml/pugixml.cpp:727-740 | A large block gets a page of its own before the last one |
| `Allocator.XmlAllocator.DeallocateMemory` | src/ext/pugixml-1.9/pugixml/pugixml.cpp:593-635 | While blocks of the page are in use it stays as it is; when the last of them is freed, a last page is reset and any other page is unlinked, no page earlier |
| `Allocator.XmlAllocator.AllocateString` | src/ext/pugixml-1.9/pugixml/pugixml.cpp:637-669 | The header written describes the block, in the 16-bit fields it has |
| `Allocator.RoomForString` | src/ext/pugixml-1.9/pugixml/pugixml.cpp:637-669 | A string block has room for its header and characters and wastes less than one unit of alignment |
| `Allocator.XmlAllocator.DeallocateString` | src/ext/pugixml-1.9/pugixml/pugixml.cpp:671-688 | Freeing a string by its header frees exactly the block it was given |
| `Allocator.XmlAllocator.InPage` | src/ext/pugixml-1.9/pugixml/pugixml.cpp:517-553 | Every block lies aligned within its page, and one too large for a page has a page to itself |
| `Allocator.XmlAllocator.BlocksApart` | src/ext/pugixml-1.9/pugixml/pugixml.cpp:541-635 | Over every sequence of allocations and frees, blocks in use never overlap and no page has more bytes freed than handed out |
| `Allocator.XmlAllocator.LastHasPrev` | src/ext/pugixml-1.9/pugixml/pugixml.cpp:727-740 | Once there is a second page there always is one, so a large block finds a page to go before |
| `HashTable.ProbesDiffer` | src/ext/pugixml-1.9/pugixml/pugixml.cpp:361-376 | In a table of a power of two of buckets no two of the first n triangular probes meet |
| `HashTable.ProbesReachAll` | src/ext/pugixml-1.9/pugixml/pugixml.cpp:361-376 | Every bucket is reached by exactly one of the first n probes |
| `HashTable.OneEnd` | src/ext/pugixml-1.9/pugixml/pugixml.cpp:356-377 | Probing for a key can end in one bucket only |
| `HashTable.PlacedUpdate` | src/ext/pugixml-1.9/pugixml/pugixml.cpp:318-332 | Filling the bucket where probing for a key ends keeps every other key findable |
| `HashTable.CompactHashTable.GetItem` | src/ext/pugixml-1.9/pugixml/pugixml.cpp:356-377 | Finds the key or the free bucket where it goes; the line behind the loop is never reached |
| `HashTable.CompactHashTable.Find` | src/ext/pugixml-1.9/pugixml/pugixml.cpp:307-316 | The value bound to the key, or null |
| `HashTable.CompactHashTable.Insert` | src/ext/pugixml-1.9/pugixml/pugixml.cpp:318-332 | The table as a map gains exactly this binding |
| `HashTable.CompactHashTable.Reserve` | src/ext/pugixml-1.9/pugixml/pugixml.cpp:334-340 | The same map, with room for the number of keys asked for |
| `HashTable.CompactHashTable.Rehash` | src/ext/pugixml-1.9/pugixml/pugixml.cpp:394-422 | A larger table holds the same map |
| `HashTable.CompactHashTable.Clear` | src/ext/pugixml-1.9/pugixml/pugixml.cpp:296-305 | The empty map |
| `HashTable.CompactHashTable.ReserveAndInsert` | src/ext/pugixml-1.9/pugixml/pugixml.cpp:334-342 | One reserve() allows any sixteen insertions, and the table then is the map they make |
| `Integers.ModulusIs` | src/ext/pugixml-1.9/pugixml/pugixml.cpp:4477-4557 | A type has as many values as its bytes allow |
| `Integers.WrappedStep` | src/ext/pugixml-1.9/pugixml/pugixml.cpp:4499-4533 | A digit step computed modulo the range of the type is the exact step, modulo that range |
| `Integers.OverflowExact` | src/ext/pugixml-1.9/pugixml/pugixml.cpp:4513-4543 | Counting digits, the leading digit and the high bit of the wrapped result decide exactly whether the number exceeds the type, for 16, 32 and 64 bits, decimal and hexadecimal |
| `Integers.Saturate` | src/ext/pugixml-1.9/pugixml/pugixml.cpp:4546-4556 | Two's complement comparison clamps the signed number to the bounds |
| `Integers.StringToInteger` | src/ext/pugixml-1.9/pugixml/pugixml.cpp:4477-4557 | For text of any length: the exact number its digits denote, clamped to [min, max], in the type's representation |
| `Integers.BlankInFront` | src/ext/pugixml-1.9/pugixml/pugixml.cpp:4482-4483 | White space in front of a number changes nothing |
| `Integers.HexDenotes` | src/ext/pugixml-1.9/pugixml/pugixml.cpp:4491-4515 | Hexadecimal digits in either case after 0x or 0X denote their number, up to the first character that is no such digit |
| `Integers.DecimalDenotes` | src/ext/pugixml-1.9/pugixml/pugixml.cpp:4516-4544 | So do decimal digits |
| `Integers.IntegerToString` | src/ext/pugixml-1.9/pugixml/pugixml.cpp:4608-4626 | The decimal digits of the magnitude, with a minus sign if asked for |
| `Integers.DenotesPrinted` | src/ext/pugixml-1.9/pugixml/pugixml.cpp:4477-4557 | Reading decimal digits back gives the number that was printed, with either sign |
| `Integers.ReadsBack` | src/ext/pugixml-1.9/pugixml/pugixml.cpp:4608-4627 | Every value of a signed or unsigned type printed is read back as itself |
| `Prereqs.Expectation.RetireAllPreRequisites` | src/ext/googletest-1.8.1/googlemock/src/gmock-spec-builders.cc:103-126 | Retires exactly the transitive prerequisites, provided the retired set was closed under prerequisites; terminates on acyclic graphs without a visited set |
| `Prereqs.Expectation.AllPrerequisitesAreSatisfied` | src/ext/googletest-1.8.1/googlemock/src/gmock-spec-builders.cc:130-147 | True exactly when every transitive prerequisite is satisfied |
| `Prereqs.Expectation.FindUnsatisfiedPrerequisites` | src/ext/googletest-1.8.1/googlemock/src/gmock-spec-builders.cc:150-177 | Adds exactly the unsatisfied prerequisites found on paths that do not pass an unsatisfied one, or a satisfied one that has been called |
| `Prereqs.NothingMissing` | src/ext/googletest-1.8.1/googlemock/src/gmock-spec-builders.cc:150-177 | What is reported is an unsatisfied prerequisite, and between calls nothing is reported exactly when all transitive prerequisites are satisfied, although the search is pruned |
| `Prereqs.ClosedBelow` | src/ext/googletest-1.8.1/googlemock/src/gmock-spec-builders.cc:103-126 | If the retired set is closed, stopping at a retired expectation misses nothing |
| `Prereqs.StillClosed` | src/ext/googletest-1.8.1/googlemock/src/gmock-spec-builders.cc:103-126 | Retiring keeps the retired set closed |
| `Prereqs.TotalSplits` | src/ext/googletest-1.8.1/googlemock/src/gmock-spec-builders.cc:111-125 | The cost of a worklist is the sum of its members' costs: the measure on which the searches end |
| `Prereqs.Expectation.CallsAllowed` | src/ext/googletest-1.8.1/googlemock/include/gmock/gmock-spec-builders.h:797-815 | Too few calls, too many, and as many as allowed |
| `Prereqs.Expectation.ShouldHandleArguments` | src/ext/googletest-1.8.1/googlemock/include/gmock/gmock-spec-builders.h:1105-1113 | Active, in turn, and matching |
| `Prereqs.Expectation.GetActionForArguments` | src/ext/googletest-1.8.1/googlemock/include/gmock/gmock-spec-builders.h:1199-1229 | A call keeps the invariant, counts itself, and retires the prerequisites (and a saturated expectation that asks for it) exactly when it is not excessive |
| `Prereqs.SoundStep` | src/ext/googletest-1.8.1/googlemock/include/gmock/gmock-spec-builders.h:1199-1229 | Calls to active expectations in turn keep: whatever precedes an expectation already served is satisfied and retired |
| `Player.StepKeeps` | src/mp3/mp3/mp3_player.cpp:97-103 | Every step of an API caller, the play thread or the auto-stop thread keeps states, threads and notices accounted for |
| `Player.RunKeeps` | src/mp3/mp3/mp3_player.cpp:55-103 | So does every interleaving of steps |
| `Player.FreeLockMeans` | src/mp3/mp3/mp3_player.cpp:177-205 | Whenever the state lock is free, Stop and Pause have no unjoined play thread, and Play has exactly one on record as running; every other thread has ended |
| `Player.NoticeStopsOnlyItsThread` | src/mp3/mp3/mp3_player.cpp:264-286 | An end-of-file notice changes the player exactly when the recorded thread itself came to its end; a replaced thread's notice never stops its successor |
| `Player.NoticeIsDelivered` | src/mp3/mp3/mp3_player.cpp:255-286 | The notice of a thread that ended by itself is not lost: the auto-stop thread alone takes the player to Stop |
| `Player.StuckExactly` | src/mp3/mp3/mp3_player.cpp:255-272 | Nobody can move exactly when a caller waits for a play thread that waits for the signal mutex while the auto-stop thread holds it and waits for the state lock |
| `Player.StuckIsReachable` | src/mp3/mp3/mp3_player.cpp:255-272 | Such a state is reached by a run of the player |
| `Player.CallStarts` | src/mp3/mp3/player_play_state.cpp:39-90 | Each call in each state ends at once in the state expected of it with the status expected of it, or waits for the play thread with that state and that status as its goal |
| `Player.CallEnds` | src/mp3/mp3/player_play_state.cpp:31-90 | Whatever the threads do while a call waits, it ends in the expected state and returns the expected status, and if it starts playing, a thread with a fresh id plays the file from its start |
| `Player.PlaysExactly` | src/mp3/mp3/mp3_player.cpp:207-262 | Left alone, a play thread announces its end after exactly one pass of its file in the mode that plays once and exactly a hundred in the mode that loops, whatever else happens meanwhile |
| `Player.CallPlays` | src/mp3/mp3/mp3_player.cpp:207-262 | The same from the call that starts the thread |
| `Player.LastPassReached` | src/mp3/mp3/mp3_player.cpp:207-262 | And it does come to that pass |
| `Player.StopEnds` | src/mp3/mp3/mp3_player.cpp:228-242 | Asked to stop, it ends with the next chunk; not asked, it plays on |
| `Player.WaitingAsks` | src/mp3/mp3/mp3_player.cpp:191-205 | Whoever waits for a play thread has asked it to stop |
| `Player.ShutdownEnds` | src/mp3/mp3/mp3_player.cpp:42-53 | After a shutdown the auto-stop thread comes to its end by its own steps, and changes nothing |
| `Player.AutoStopNeverWaits` | src/mp3/mp3/mp3_player.cpp:264-286 | The auto-stop thread never waits for a play thread still at work |
| `MsgParser.AtoiDecimal` | src/communication/communication/msg_parser.cpp:123-147 | A decimal length is read back as the number it stands for |
| `MsgParser.AtoiReads` | src/communication/communication/msg_parser.cpp:123-130 | A length with white space and a sign in front, and other characters behind, is read as its number |
| `MsgParser.Parser.ParseMsg` | src/communication/communication/msg_parser.cpp:39-75 | The loop over the message yields the nodes of its specification, at most five, and the command and status they amount to |
| `MsgParser.Parser.GetConfigStream` | src/communication/communication/msg_parser.cpp:123-147 | The payload of the stated length, CR turned into LF, becomes the next node; the stated length is handed back; refused exactly when the payload does not end inside the message |
| `MsgParser.Parser.VerifyAndGetMsgCommand` | src/communication/communication/msg_parser.cpp:104-120 | The command whose name and number of nodes fit, if END closes the message |
| `MsgParser.SetCfgDelivers` | src/communication/communication/msg_parser.cpp:39-75 | For every configuration text, newlines and END lines included, the message of command, decimal length, text and END has four nodes, the third being the text with CR turned into LF |
| `MsgParser.SetCfgCommand` | src/communication/communication/msg_parser.cpp:104-121 | Such nodes are TCP_SET_CFG, with status OK |
| `MsgParser.ConstantLine` | src/communication/communication/msg_parser.cpp:21-35 | The name TCP_SET_CFG and the word END are lines such a message may begin and end with |
| `MsgParser.ConfigDelivered` | src/communication/communication/msg_parser.cpp:39-147 | Status OK, command TCP_SET_CFG and those four nodes, for every text whose length fits an int |
| `MsgParser.CommandExactly` | src/communication/communication/msg_parser.cpp:15-121 | A command is recognised if and only if its name is the first node, END the last and the number of nodes the one listed for it |
| `MsgParser.CommandsAre` | src/communication/communication/msg_parser.cpp:17-35 | The eight commands by name, number of nodes and END |
| `MsgParser.LinesComeBack` | src/communication/communication/msg_parser.cpp:39-75 | Any other list of up to five lines is read back as it was written; a longer one is refused with its first five |
| `Zip.CountBytes` | src/utilities/utilities/zip.cpp:82-86 | The counting loop gives the length of the file and rewinds it |
| `Zip.SwapBlock` | src/utilities/utilities/zip.cpp:44-53 | The pairs of one block are swapped |
| `Zip.SwappedBlock` | src/utilities/utilities/zip.cpp:37-60 | An even block at an even offset is swapped as a piece of the whole |
| `Zip.SwapBlocks` | src/utilities/utilities/zip.cpp:37-60 | The block loop writes exactly the whole-file pairwise swap, an odd last byte kept in place, for every length |
| `Zip.Disk.ZipUncompress` | src/utilities/utilities/zip.cpp:10-65 | Status and files afterwards, the error cases included |
| `Zip.Disk.ZipCompress` | src/utilities/utilities/zip.cpp:67-119 | Status and files afterwards, the error cases included |
| `Zip.FirstPair` | src/utilities/utilities/zip.cpp:37-60 | The first two bytes change places and the rest is swapped on its own |
| `Zip.OddByte` | src/utilities/utilities/zip.cpp:37-60 | A single byte stays where it is |
| `Zip.SwappedTwice` | src/utilities/utilities/zip.cpp:37-60 | Swapping pairs is its own inverse |
| `Zip.RoundTrip` | src/utilities/utilities/zip.cpp:10-119 | Uncompressing what was compressed gives the file back, and leaves every other file alone |

## Left out

- XPathEval.EvalNodeSet: works on positions of the represented document; the pointer walks are proved to deliver its sequences from nodes and attributes (`XPathWalk.StepFillFrom`), and whole paths are evaluated on the tree where they have no predicates (`XPathWalk.PathOnTree`), before duplicates are removed; the namespace axis, which the library leaves empty, is not modelled
- XPathEval.EvalBoolean: contains() and lang()
- XPathSpec.Env: the string-value of a node other than an attribute is a parameter
- XPathEval.EvalString: the name functions, substring(), substring-before(), substring-after(), normalize-space() and translate()
- XPathEval.ApplyPredicates: compaction of the node array is on a sequence that is rebuilt, not on the array of the node set, so its memory reuse is not captured
- XPathOptimize.OptimizeSound: the rewriter is on expression values, so sharing and reuse of syntax tree nodes are not captured; the table for `translate` with constant arguments is not modelled
- XPathEval.EvalNumber: numbers are reals, so NaN, infinities, rounding and the text form of numbers are not modelled, nor are sum(), div, mod, floor(), ceiling(), round(), lang(), contains(), translate() and the other string functions beside starts-with(), two-argument concat() and string()
- Axes.StepFill: namespace prefixes are parts of names; an element is taken to hold one attribute of a name in the sense that the first one counts
- Order.DocumentOrder: the shortcut that compares addresses inside the parse buffer, and comparison of nodes of different documents
- Order.NodeIsBefore: nodes of different documents, which the code compares by address, and a node against itself, which its caller rules out
- Order.NodeIsBeforeSibling: two parentless nodes, which the code compares by address
- Sort.Sort: repeated elements under a comparator that is true on them, where the loop of the code need not end
- Sort.SortRound: the same
- XPathNodeSet.GetOrder: an array that holds a node twice
- XPathNodeSet.XPathSort: an unsorted array that holds a node twice
- XPathNodeSet.First: an unsorted array that holds a node twice, which `XPathWalk.MinElement` allows
- XPathNodeSet.RemoveDuplicates: `addr` is an arbitrary injective numbering of nodes
- CopyTree.NodeCopyTree: allocation always succeeds; strings are values, so sharing of string memory between a node and its copy is not modelled
- AppendCopy.AppendCopy: prepend_copy, insert_copy_before and insert_copy_after, which differ from it in where the new node is linked
- Printer.NodeOutput: raw format only, and documents, elements and texts only; no indentation, comments, CDATA, processing instructions or declarations
- Printer.NodeOutputClimb: the same kinds of nodes
- RoundTrip.PrintedParses: the document prints without a declaration, as the printer of a node does
- ParserInPlace.Parse: buffers whose last character is the terminating NUL, and the default options; on `<?` and `<!` the model stops with its own answer; nodes are kept as a list in document order with the position of the parent, and linked afterwards (`Relink.LinkTree`); the fields for error offsets are not kept
- ParserInPlace.TreeParser.ParseTree: the same buffers and options
- ParserInPlace.TreeParser.TakeElement: the new node's links, which `Relink.PushNode` has
- ParserInPlace.TreeParser.TakeText: the new node's links, which `Relink.PushNode` has
- Layout.LaidOutParses: values in double quotes, and an element without children in its short form, as the printer writes them
- Relink.LinkTree: the pushes are made after the parse, not during it, and for documents that are legal in the sense of `RoundTrip`
- Reload.SaveToSink: no byte order mark and no declaration, as when a node is printed
- Strconv.TextOutputEscaped: characters are of one byte; the unrolled scan is a plain loop
- Utf8.ConvertJoins: the four-at-a-time loop for ASCII and the separate pass that swaps byte order are merged into one turn per character
- Writer.BufferedWriter.WriteString: copies up to the last whole character, where the code copies all that fits and then steps back
- Writer.BufferedWriter.Flush: for an ill-formed piece in another encoding than UTF-8 nothing is stated
- Allocator.XmlAllocator.AllocateMemory: pages have a position in a list instead of an address, sizes are whole multiples of the alignment, and allocation of a page always succeeds; the size of a first allocation is at most a quarter of a page, as the code assumes of its callers
- Allocator.XmlAllocator.AllocateString: the header is found from the block, not by subtracting from the address of the string
- HashTable.CompactHashTable.GetItem: the hash is an arbitrary function of the key, masking with capacity - 1 is the remainder by the capacity, and allocation of a table always succeeds
- Integers.StringToInteger: one build, with the ordinary minus; conversions to bool, float and double
- Prereqs.Expectation.GetActionForArguments: cardinalities are intervals of call counts; actions, descriptions and the choice among several expectations are not modelled
- Player.RunKeeps: one step is everything a thread does between two points where it may wait, so data races are not modelled; which file is open on the device and its failures other than a missing file are not modelled; freedom from stand-still is not a theorem of the code
- Player.FreeLockMeans: the volume applied to the device on Play
- MsgParser.Parser.ParseMsg: for a stated length that leads outside the message the answer is `OutsideMessage`, and what the program then reads is not modelled; lengths beyond the range of int are not modelled
- Zip.Disk.ZipCompress: a destination that cannot be opened, and failing writes
- Zip.Disk.ZipUncompress: the same
- Sockets, network configuration, signals, the audio and decoder libraries, clocks and the logger are calls outside the program and are not modelled
- The other parser options, DOCTYPE, CDATA, comments, processing instructions, encoding detection, UTF-16 and UTF-32 input, the wide-character build and the pointer encodings of the compact mode
- The message queue, time format check, file path helpers and test samples would only add easy members
