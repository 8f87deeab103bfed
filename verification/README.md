# The XML engine, Base64 codec and trading core of fxquant, modelled in Dafny

fxquant reads every message and order through a vendored XML library (`fxquant/common/pugixml.cpp`),
packs bytes with a vendored Base64 codec, and runs trading strategies over order lists and price bars.
This project models the parts of that code whose correctness is not visible in any one function.

- **Trees of pointers** (`Shape`, `Dom`, `Document`, `Copy`). A document is its nodes in document order
  and their depths; `Linked` says that every parent, first-child, back and next pointer on the heap is
  the one this order dictates. Each link routine is an edit of the order. The public operations keep the
  document valid, and a deep copy equals its source as it was, also when it is put inside the source.
- **Order and sets of nodes** (`Sort`, `DocOrder`, `Axes`, `StepFill`, `XPathData`, `XPathSets`). The
  in-place sort, the document-order comparator, the stackless axis traversals and the tagged node sets.
- **XPath** (`XPathMeaning`, `XPathEval`, `XPathOptimize`, `XPathRelations`, `XPathLaws`, `NodeTests`,
  `StringValues`). `Meaning` gives every expression its value after XPath 1.0, and the laws say what
  that is; the evaluator with its cut-offs and the optimizer are proved against it.
- **Text** (`Escape`, `UnescapeInPlace`, `Printer`, `Markup`, `Parser`, `ParseBuffer`, `Events`, `RoundTrip`).
  Escaping, decoding in place through a moving gap, the printing and parsing loops, what the parser
  accepts and builds, and the round trip.
- **Output and memory** (`Writer`, `BufferedWriter`, `Allocator`, `HashTable`, `Integers`, `Numerals`). UTF
  conversion, the chunked writer, page accounting, triangular probing and saturating integers.
- **Base64** (`Base64`). Encoder, decoder and length-only decoder against section 4 of RFC 4648.
- **Trading** (`Orders`, `FirstStrategy`, `Runs`, `Candles`, `DataFeeder`). The life cycle of orders over
  whole runs, and bars of several timeframes.

`Basics` and `Guard` hold what the others share. Code that changes state in place is modelled as classes,
arrays and loops, each proved against a function of the old state; the properties are proved about those
functions. Prices are reals with an undefined value that compares as positive infinity, times are
integers, and bytes, code units and words are bit vectors or numbers with the width written out. Where
the code differs from its documentation or from the standard the model follows the code, and says so
under "Findings".

## Model

| member | source | states |
|---|---|---|
| `Shape.GraftWellFormed` | fxquant/common/pugixml.cpp:1209-1280 | A tree put into any slot of a tree (behind, in front of or between children) gives a tree: one root, every node one level below its parent. |
| `Shape.CutShape` | fxquant/common/pugixml.cpp:1282-1299 | Cutting a subtree out leaves a tree, the subtree is one as well, and putting it back where it was restores the original. |
| `Dom.AppendNode` | fxquant/common/pugixml.cpp:1209-1228 | After the pointer updates the two linked structures are one: the child's subtree stands, in document order, behind everything below the parent, one level deeper, and every pointer of every node is the one of that tree. |
| `Dom.PrependNode` | fxquant/common/pugixml.cpp:1230-1246 | The same with the child's subtree right behind the parent. |
| `Dom.InsertNodeAfter` | fxquant/common/pugixml.cpp:1248-1263 | The same with the child's subtree right behind the subtree of its new sibling, at the sibling's level. |
| `Dom.InsertNodeBefore` | fxquant/common/pugixml.cpp:1265-1280 | The same with the child's subtree right in front of its new sibling. |
| `Dom.RemoveNode` | fxquant/common/pugixml.cpp:1282-1299 | The subtree leaves: both the rest and the subtree are complete trees with all their pointers right, and the subtree's root has no parent and no siblings. |
| `Document.HalfCyclicLists` | fxquant/common/pugixml.cpp:1209-1299 | In every document a head's back pointer is the tail, the tail has no next sibling, neighbours point at each other, parents agree, and the parent of every node but the root stands before it, so there is no cycle. |
| `Document.XmlDocument.constructor` | fxquant/common/pugixml.cpp:6825-6865 | A new document is a valid one that holds only its root, whose back pointer is itself. |
| `Document.InsertTable` | fxquant/common/pugixml.cpp:4322-4329 | The table of which types of node may be children of which. |
| `Document.StandsAt` | fxquant/common/pugixml.cpp:1209-1299 | In pointers: what has been linked in is the last child of its parent, its first child, or the next or previous sibling of the node named. |
| `Document.XmlDocument.AppendChild` | fxquant/common/pugixml.cpp:5756-5771 | A new node comes last among the children exactly when the type may be inserted; otherwise nothing changes. |
| `Document.XmlDocument.PrependChild` | fxquant/common/pugixml.cpp:5773-5788 | A new node comes first among the children exactly when the type may be inserted; otherwise nothing changes. |
| `Document.XmlDocument.InsertChildAfter` | fxquant/common/pugixml.cpp:5808-5824 | A new node comes right behind the given child exactly when the type may be inserted and that child is one of this parent. |
| `Document.XmlDocument.InsertChildBefore` | fxquant/common/pugixml.cpp:5790-5806 | A new node comes right in front of the given child under the same conditions. |
| `Document.XmlDocument.RemoveChild` | fxquant/common/pugixml.cpp:6024-6035 | Exactly the subtree of a child of this parent leaves the document; anything else is refused and nothing changes. |
| `Document.XmlDocument.AllowMove` | fxquant/common/pugixml.cpp:4331-4353 | True exactly when the types fit, the node belongs to this document and the new parent is not in the subtree to be moved. |
| `Document.XmlDocument.AppendMove` | fxquant/common/pugixml.cpp:5932-5946 | Succeeds exactly when the move is allowed; the document order is then the old one with the moved subtree behind everything below the new parent; otherwise nothing changes. |
| `Document.XmlDocument.PrependMove` | fxquant/common/pugixml.cpp:5948-5962 | The same with the moved subtree first below the new parent. |
| `Document.XmlDocument.InsertMoveAfter` | fxquant/common/pugixml.cpp:5964-5980 | The same with the moved subtree right behind a sibling other than itself. |
| `Document.XmlDocument.InsertMoveBefore` | fxquant/common/pugixml.cpp:5982-5998 | The same with the moved subtree right in front of a sibling other than itself. |
| `Copy.NodeCopyTree` | fxquant/common/pugixml.cpp:4392-4435 | Terminates and gives the new node the shape and the contents that the source subtree had before the new node was linked in, wherever that was, inside the source subtree included; the source may also belong to another document, which stays as it was; the copies are new nodes of the document copied into. |
| `Document.XmlDocument.AppendCopy` | fxquant/common/pugixml.cpp:5862-5877 | A deep copy comes last among the children exactly when the type may be inserted; it equals the source subtree as it was before the call, even when the new parent is inside of it or the source belongs to another document; both documents stay valid. |
| `Document.XmlDocument.PrependCopy` | fxquant/common/pugixml.cpp:5879-5894 | The same with the copy first among the children. |
| `Document.XmlDocument.InsertCopyAfter` | fxquant/common/pugixml.cpp:5896-5912 | The same with the copy right behind a child of this parent. |
| `Document.XmlDocument.InsertCopyBefore` | fxquant/common/pugixml.cpp:5914-5930 | The same with the copy right in front of a child of this parent. |
| `Sort.Sort` | fxquant/common/pugixml.cpp:7333-7361 | For any array range and any comparator that agrees with a strict total order wherever two different places are compared: terminates, stays inside the range, and leaves a sorted permutation with nothing else touched. |
| `Sort.Partition` | fxquant/common/pugixml.cpp:7254-7305 | Leaves a permutation in which the elements less than the pivot, equal to it and greater than it stand in three zones that fill the range, the middle one not empty. |
| `Sort.InsertionSort` | fxquant/common/pugixml.cpp:7222-7251 | Sorts the range; the inner loop, which has no bounds check, never leaves it. |
| `Sort.Median` | fxquant/common/pugixml.cpp:7307-7331 | Only rearranges the range, and leaves in the middle an element that is not extreme: at least one other element of the range is not larger and one not smaller, and at least three of each when the median of nine is taken. |
| `Sort.UniqueInPlace` | fxquant/common/pugixml.cpp:7194-7215 | The front of the array becomes the elements that differ from their predecessor, in order. |
| `Sort.UniqueOfSorted` | fxquant/common/pugixml.cpp:7194-7215 | Of a sorted range that keeps every element exactly once. |
| `Sort.Reverse` | fxquant/common/pugixml.cpp:7189-7192 | The array is turned around in place. |
| `Sort.MinElement` | fxquant/common/pugixml.cpp:7178-7187 | Returns an element that no other one is less than, under the same assumption on the comparator as the sort. |
| `DocOrder.NodeIsBeforeSibling` | fxquant/common/pugixml.cpp:7810-7832 | Two parallel walks along the siblings decide which of two children of one parent comes first. |
| `DocOrder.NodeIsBefore` | fxquant/common/pugixml.cpp:7834-7875 | For any two different nodes of a document the walk over parents and siblings decides strict document order. |
| `DocOrder.DocumentOrder` | fxquant/common/pugixml.cpp:7915-7967 | For any two nodes or attributes of a document the slow path decides document order (an attribute behind its element and before its children), except that an attribute comes out as before itself. |
| `DocOrder.ComparatorLaws` | fxquant/common/pugixml.cpp:7915-7967 | The comparator is transitive and decides between any two different nodes or attributes; it holds between one and itself exactly for attributes. |
| `Axes.NodeIsAncestor` | fxquant/common/pugixml.cpp:7877-7882 | True exactly when the node is in the subtree of the other, itself included. |
| `Axes.FillChild` | fxquant/common/pugixml.cpp:9724-9731 | Pushes exactly the children that pass the node test, in document order; with `once` only the first. |
| `Axes.FillDescendant` | fxquant/common/pugixml.cpp:9733-9762 | The stackless walk pushes exactly the descendants (and the node itself if asked to), in document order. |
| `Axes.FillFollowingSibling` | fxquant/common/pugixml.cpp:9765-9772 | Pushes exactly the following siblings, in document order. |
| `Axes.FillPrecedingSibling` | fxquant/common/pugixml.cpp:9774-9781 | The walk against the half-cyclic back pointers pushes exactly the preceding siblings, nearest first. |
| `Axes.FillFollowing` | fxquant/common/pugixml.cpp:9783-9818 | The stackless walk pushes exactly the nodes behind the subtree, in document order. |
| `Axes.FillFollowingAttribute` | fxquant/common/pugixml.cpp:9937-9962 | For an attribute it pushes every node behind its element, the element's descendants included. |
| `Axes.FillPreceding` | fxquant/common/pugixml.cpp:9820-9860 | The backward walk pushes exactly the nodes whose subtrees end before the node, last one first, and no ancestor. |
| `Axes.FillAncestor` | fxquant/common/pugixml.cpp:9862-9879 | Pushes exactly the ancestors (and the node itself if asked to), nearest first. |
| `Axes.FillAncestorAttribute` | fxquant/common/pugixml.cpp:9908-9925 | For an attribute: its element and the element's ancestors, nearest first. |
| `Axes.AxisPartition` | fxquant/common/pugixml.cpp:9733-9887 | Every node of a document is on exactly one of the self, ancestor, descendant, preceding and following axes of any node. |
| `XPathData.AxisInOrder` | fxquant/common/pugixml.cpp:9733-9887 | Every axis lists each of its nodes once, in document order, and a reverse axis in reverse document order. |
| `StringValues.StringValueOf` | fxquant/common/pugixml.cpp:7756-7808 | The stackless walk gives the string value of any node. |
| `StringValues.StringValueIs` | fxquant/common/pugixml.cpp:7756-7808 | The string value of an element, and of the document, is that of its children one after the other, text by text; of other nodes it is their own value. |
| `StringValues.AttributeValueIs` | fxquant/common/pugixml.cpp:7756-7808 | The string value of an attribute is its value. |
| `StepFill.StepFillNode` | fxquant/common/pugixml.cpp:9709-9900 | From a node, for each of the thirteen axes: pushes exactly what the axis holds and the node test lets through, in axis order. |
| `StepFill.StepFillAttribute` | fxquant/common/pugixml.cpp:9902-9981 | The same from an attribute, where only node() accepts the attribute itself. |
| `StepFill.StepFill` | fxquant/common/pugixml.cpp:9983-9992 | The dispatcher: a step from any node, attribute or null handle selects the same as the evaluator's step does on the document as a value. |
| `NodeTests.NamedNodes` | fxquant/common/pugixml.cpp:9634-9707 | In terms of the nodes themselves: on every axis of nodes, a name test selects exactly the elements on it of that name, `*` all its elements, `p:*` those whose name begins like that, and processing-instruction('n') those with that target. |
| `NodeTests.TypedNodes` | fxquant/common/pugixml.cpp:9634-9707 | The same for text(), comment(), processing-instruction() and node(). |
| `NodeTests.SelectedAttributes` | fxquant/common/pugixml.cpp:9594-9632 | Of the attributes of an element a name test selects the first of that name, and the other tests all whose names fit; namespace declarations are never selected. |
| `NodeTests.OtherAttributes` | fxquant/common/pugixml.cpp:9902-9981 | On any other axis an attribute is selected by node() only, and only from itself. |
| `NodeTests.PushedNodes` | fxquant/common/pugixml.cpp:9709-9992 | The pointers a step pushes are those of the nodes so selected. |
| `NodeTests.FirstChildNamed` | fxquant/common/pugixml.cpp:12486-12501 | Evaluating child::name gives the first child element of that name, and null exactly if there is none. |
| `XPathLaws.AncestorsFit` | fxquant/common/pugixml.cpp:9862-9879 | Section 2.2 of XPath 1.0: the ancestors are the parent and its ancestors. |
| `XPathLaws.AxesFit` | fxquant/common/pugixml.cpp:9709-9900 | Every other axis of nodes from the parents, the ancestors and the order of the nodes. |
| `XPathLaws.AttributeAxesFit` | fxquant/common/pugixml.cpp:9902-9981 | The same for the axes of an attribute. |
| `XPathLaws.DocumentOrderIs` | fxquant/common/pugixml.cpp:7915-7958 | Document order by position: attributes come after their element and before its children. |
| `XPathSets.RemoveDuplicates` | fxquant/common/pugixml.cpp:8769-8775 | Keeps every node exactly once, whatever the addresses. |
| `XPathSets.GetOrder` | fxquant/common/pugixml.cpp:8625-8639 | The tag it finds is true of the buffer. |
| `XPathSets.SortDo` | fxquant/common/pugixml.cpp:8641-8662 | With document_order_comparator as it is, the result is the same nodes in document order; no attribute is ever compared with itself. |
| `XPathSets.FirstOf` | fxquant/common/pugixml.cpp:8664-8683 | Of any buffer that answers a question for the first node, sorted, reversed or neither, it picks the first node of the whole set in document order. |
| `XPathSets.FilterAnywhere` | fxquant/common/pugixml.cpp:10669-10681 | A predicate that ignores the position may filter an unsorted and even a cut-off buffer: it still answers for the filtered set. |
| `XPathSets.UnionAnswer` | fxquant/common/pugixml.cpp:10651-10667 | Two answers cut short for the first node, joined without duplicates, answer for the union. |
| `XPathSets.StepForward` | fxquant/common/pugixml.cpp:9994-10038 | One more context node in a step: the tags (kept for self, dropped once two nodes have contributed) stay true and the cut-off stays harmless. |
| `XPathSets.StepDone` | fxquant/common/pugixml.cpp:9994-10038 | After the loop, and the removal of duplicates only where the tag calls for it, the buffer answers for the whole step. |
| `XPathEval.ApplyPredicateBoolean` | fxquant/common/pugixml.cpp:9490-9514 | Leaves in place exactly the nodes the predicate holds for at their position, in order; with `once` the first of them. |
| `XPathEval.ApplyPredicateNumber` | fxquant/common/pugixml.cpp:9516-9540 | The same for a predicate that is a number. |
| `XPathEval.ApplyPredicateNumberConst` | fxquant/common/pugixml.cpp:9542-9568 | For a constant number, looking at one position gives what looking at all of them would. |
| `XPathEval.ApplyPredicates` | fxquant/common/pugixml.cpp:9584-9592 | A chain of predicates, only the last of which may stop early, leaves what all of them keep, cut short only where the tag and the mode allow it. |
| `XPathEval.StepDo` | fxquant/common/pugixml.cpp:9994-10038 | A step in any mode answers the question of that mode about the node set the step stands for. |
| `XPathEval.EvalFilter` | fxquant/common/pugixml.cpp:10669-10681 | A filter does, whatever way its operand was evaluated. |
| `XPathEval.EvalUnion` | fxquant/common/pugixml.cpp:10651-10667 | A union does. |
| `XPathEval.EvalSet` | fxquant/common/pugixml.cpp:10647-10773 | For any nesting of steps, filters and unions: the buffer has no duplicates, its tag is true, and it is the whole set, or not empty when the set is not, or contains the first node, as the mode asks. |
| `XPathEval.CompareEq` | fxquant/common/pugixml.cpp:9326-9412 | Equality of two values of any types is the one of section 3.4 of XPath 1.0, operand exchange and early exits included. |
| `XPathEval.CompareRel` | fxquant/common/pugixml.cpp:9419-9488 | Relational comparison of two values of any types; a boolean against a node set is compared node by node, as the code does. |
| `XPathEval.EvalBool` | fxquant/common/pugixml.cpp:10090-10226 | The boolean of any expression. |
| `XPathEval.EvalNum` | fxquant/common/pugixml.cpp:10228-10363 | The number of any expression. |
| `XPathEval.EvalStr` | fxquant/common/pugixml.cpp:10414-10645 | The string of any expression. |
| `XPathEval.EvaluateNode` | fxquant/common/pugixml.cpp:12486-12501 | Early exit is exact: the node returned is the first, in document order, of the node set the expression stands for, and null exactly when that is empty. |
| `XPathLaws.NumberPredicate` | fxquant/common/pugixml.cpp:9516-9568 | Section 2.4 of XPath 1.0: a predicate that is a number keeps the node at this position and no other. |
| `XPathLaws.LastPredicate` | fxquant/common/pugixml.cpp:9516-9540 | last() keeps the last one. |
| `XPathLaws.KeptAt` | fxquant/common/pugixml.cpp:9490-9568 | A predicate keeps exactly the nodes it holds for at their positions. |
| `XPathLaws.StepIs` | fxquant/common/pugixml.cpp:9994-10029 | A step from a set selects what it selects from any node of it, and nothing else. |
| `XPathLaws.UnionIs` | fxquant/common/pugixml.cpp:10651-10671 | A union has the nodes of both operands, in document order. |
| `XPathLaws.ScalarsCompare` | fxquant/common/pugixml.cpp:9326-9417 | Section 3.4 of XPath 1.0: equality is decided on booleans, else on numbers, else on strings, and other relations on numbers. |
| `XPathLaws.SetWithValue` | fxquant/common/pugixml.cpp:9373-9417 | A node set compares with a value as one of its nodes does, and equals a boolean if its being nonempty does. |
| `XPathLaws.SetWithSet` | fxquant/common/pugixml.cpp:9346-9371 | Two node sets compare as some pair of their nodes does. |
| `XPathLaws.GreaterIsLess` | fxquant/common/pugixml.cpp:10106-10119 | The operands of > and >= are those of < and <= exchanged. |
| `XPathLaws.NumbersCompare` | fxquant/common/pugixml.cpp:7139-7169 | Finite numbers compare as real numbers do. |
| `XPathLaws.InfinitiesCompare` | fxquant/common/pugixml.cpp:7139-7169 | Infinities are beyond all finite numbers. |
| `XPathLaws.LessOrEqualIs` | fxquant/common/pugixml.cpp:7139-7169 | How the relations follow from less and equal. |
| `XPathLaws.NaNCompares` | fxquant/common/pugixml.cpp:7139-7169 | Of NaN nothing holds but that it is different. |
| `XPathLaws.BooleanOf` | fxquant/common/pugixml.cpp:10199-10217 | Section 4.3 of XPath 1.0: what numbers, strings and node sets are as booleans. |
| `XPathLaws.StringOf` | fxquant/common/pugixml.cpp:10619-10638 | Section 4.2: what booleans and node sets are as strings. |
| `XPathLaws.NumberOf` | fxquant/common/pugixml.cpp:10335-10358 | Section 4.4: what booleans, strings and node sets are as numbers. |
| `XPathLaws.OrAnd` | fxquant/common/pugixml.cpp:10094-10098 | `or` and `and` are those of logic. |
| `XPathLaws.NotIs` | fxquant/common/pugixml.cpp:10138-10148 | not(), boolean(), true() and false(). |
| `XPathLaws.CountIs` | fxquant/common/pugixml.cpp:10259-10264 | count() is the number of nodes of the set. |
| `XPathLaws.OtherPredicate` | fxquant/common/pugixml.cpp:9490-9514 | A predicate of any other type is converted to a boolean. |
| `XPathLaws.TranslateJoin` | fxquant/common/pugixml.cpp:8351-8371 | translate() works character by character. |
| `XPathLaws.TranslateCharacter` | fxquant/common/pugixml.cpp:8351-8371 | The first occurrence of a character in the second string decides what it becomes. |
| `XPathEval.EvaluateNodeSet` | fxquant/common/pugixml.cpp:12469-12484 | The full evaluation, sorted, is that node set. |
| `XPathMeaning.PosInvMeaning` | fxquant/common/pugixml.cpp:10849-10893 | What is classified as position-invariant means the same at every context position and size, and so does every node set. |
| `XPathOptimize.OptimizedReplaces` | fxquant/common/pugixml.cpp:10775-10847 | Optimizing keeps types and only attaches predicate classes that are true. |
| `XPathOptimize.WithoutPositionHolds` | fxquant/common/pugixml.cpp:10791-10797 | [position() = e] and [e] hold at the same positions. |
| `XPathOptimize.MergeStepMeaning` | fxquant/common/pugixml.cpp:10812-10826 | Rewriting the two steps of // into one step means the same, for every downward axis and position-invariant predicates. |
| `XPathOptimize.AttributeShortcutMeaning` | fxquant/common/pugixml.cpp:10841-10846 | The shortcut for @name = 'value' means the same as the comparison, on every document. |
| `XPathOptimize.TableTranslates` | fxquant/common/pugixml.cpp:8407-8435 | The translation table does to every string what translate() does. |
| `XPathOptimize.TranslateTableGenerate` | fxquant/common/pugixml.cpp:8373-8405 | A table is produced exactly when all characters that matter are ASCII, and it is the right one. |
| `XPathOptimize.OptimizedMeaning` | fxquant/common/pugixml.cpp:10775-10893 | Optimizer soundness: for every document, every context and every expression, the optimized expression has the same value as the original. |
| `XPathOptimize.SelectNode` | fxquant/common/pugixml.cpp:12522-12531 | Optimizing and then evaluating with early exit returns the first node of what the original expression stands for. |
| `XPathEval.StepsAreStandard` | fxquant/common/pugixml.cpp:9994-10000 | Taking only the first attribute of a name, every step selects what sections 2.1 to 2.3 of XPath 1.0 say, on a document, exactly if none of its elements has two attributes of one name. |
| `XPathEval.TwinsAreLost` | fxquant/common/pugixml.cpp:9994-10000 | If one has, @name finds one of them and the standard all. |
| `XPathRelations.BooleanAgainstNodes` | fxquant/common/pugixml.cpp:9419-9488 | Exactly when a relational comparison of a boolean with a node set comes out as section 3.4 of XPath 1.0 defines it. |
| `XPathRelations.TrueIsLessThanTwo` | fxquant/common/pugixml.cpp:9419-9488 | A case in which it does not: true() against a node that holds 2. |
| `Escape.TextOutputEscaped` | fxquant/common/pugixml.cpp:3884-3923 | The loop over runs of plain characters writes the character by character escaping of the text. |
| `Escape.EscapedIsSafe` | fxquant/common/pugixml.cpp:3884-3923 | Escaped text contains no `<`, in an attribute no quote either, and is empty only if the text is. |
| `Escape.UnescapeEscaped` | fxquant/common/pugixml.cpp:2424-2562 | Decoding escaped text gives the text back, whatever follows it. |
| `Escape.TextOutputCdata` | fxquant/common/pugixml.cpp:3933-3953 | Writes the text as CDATA sections, split inside every `]]>`. |
| `Escape.SectionsJoin` | fxquant/common/pugixml.cpp:3933-3953 | The sections hold exactly the text. |
| `Escape.SectionReads` | fxquant/common/pugixml.cpp:3933-3953 | In each section the first `]]>` behind its start is the one that ends it, so each piece is read back whole. |
| `Markup.WrittenAs` | fxquant/common/pugixml.cpp:3884-3923 | The entity or reference that is written for each character, in text and in attributes. |
| `Markup.EscapedJoin` | fxquant/common/pugixml.cpp:3884-3923 | Text is escaped character by character. |
| `Markup.CommentFits` | fxquant/common/pugixml.cpp:3995-4018 | A printed comment has no two hyphens in a row and none at its end; only spaces are added for that, and none if the text needs none. |
| `Markup.PiFits` | fxquant/common/pugixml.cpp:4020-4039 | A printed processing instruction does not hold its own end; only spaces are added for that, and none if the text needs none. |
| `Markup.AttributeIs` | fxquant/common/pugixml.cpp:4041-4066 | A space, the name, and the escaped value in double quotes. |
| `Markup.TagsAre` | fxquant/common/pugixml.cpp:4068-4128 | Start tags, empty-element tags and closing tags. |
| `Markup.OtherNodesAre` | fxquant/common/pugixml.cpp:4140-4200 | The delimiters of comments, processing instructions, declarations, DOCTYPE and CDATA sections. |
| `UnescapeInPlace.Gap.Push` | fxquant/common/pugixml.cpp:2393-2407 | The decoded text so far is kept, in two parts around the gap, and nothing behind the read cursor is touched. |
| `UnescapeInPlace.Gap.Flush` | fxquant/common/pugixml.cpp:2410-2421 | The decoded text ends up in one piece, in front of the read cursor. |
| `UnescapeInPlace.StrconvEscape` | fxquant/common/pugixml.cpp:2424-2562 | Decoding one reference in place is what the pure decoder makes of it, numbers that wrap around at 32 bits included; what it writes never reaches past what it has read. |
| `UnescapeInPlace.StrconvPcdata` | fxquant/common/pugixml.cpp:2637-2683 | The text up to the terminator becomes its decoding, ended by a zero, and nothing outside of it changes (escapes only). |
| `UnescapeInPlace.ParseSimple` | fxquant/common/pugixml.cpp:2828-2852 | The same for an attribute value up to its quote; fails exactly when the quote is missing. |
| `Numerals.HexReference` | fxquant/common/pugixml.cpp:2424-2490 | `&#x` and any hexadecimal spelling of a number, in either case and with leading zeros, stand for that number modulo 2^32 in UTF-8. |
| `Numerals.DecimalReference` | fxquant/common/pugixml.cpp:2424-2490 | The same for decimal references. |
| `Numerals.NamedReferences` | fxquant/common/pugixml.cpp:2491-2553 | Four of the five named references stand for their characters. |
| `Numerals.Apostrophe` | fxquant/common/pugixml.cpp:2491-2553 | So does the fifth, which shares its first letter with another. |
| `Numerals.OnlyReferences` | fxquant/common/pugixml.cpp:2424-2562 | Text from an ampersand on is replaced exactly if it begins with one of these references, by what that stands for. |
| `Numerals.NothingSkipped` | fxquant/common/pugixml.cpp:2424-2562 | Otherwise what is passed over holds no further ampersand, so no reference is missed. |
| `Numerals.Utf8Is` | fxquant/common/pugixml.cpp:1486-1489 | The bytes written for a number hold its bits as section 3 of RFC 3629 lays them out, in the shortest form. |
| `Printer.NodeOutput` | fxquant/common/pugixml.cpp:4202-4293 | The loop over child, sibling and parent pointers writes the recursive rendering of the subtree (raw format). |
| `Parser.ParseTree` | fxquant/common/pugixml.cpp:3220-3456 | The loop does what the recursive description of the grammar does, on every text; whatever the text, what is built is a tree. |
| `Events.ContentBuilt` | fxquant/common/pugixml.cpp:3220-3456 | The parser accepts a text exactly if it can be cut into tags and text, by a lexer that knows nothing of nesting, with every closing tag naming the innermost open element and none open in the end; the document has exactly the nodes these events stand for, at their depths. |
| `Events.TreeBuilt` | fxquant/common/pugixml.cpp:3220-3456 | The same for the parse of a whole text. |
| `Events.OtherNameRefused` | fxquant/common/pugixml.cpp:3346-3375 | A closing tag with any other name than that of the innermost open element is refused. |
| `Events.AttributeFits` | fxquant/common/pugixml.cpp:3253-3295 | A name, an equals sign with white space around it and a quoted value are read as that attribute, its references decoded. |
| `Events.AttributeParts` | fxquant/common/pugixml.cpp:3253-3295 | Nothing else is read as an attribute. |
| `Events.CharacterClasses` | fxquant/common/pugixml.cpp:1822-1870 | The characters of names and of white space. |
| `ParseBuffer.ContentEnd` | fxquant/common/pugixml.cpp:3483-3515 | Parsing a text without its last character, with that character passed along, comes to the same document as parsing the whole text, for every text and every last character but `<`, where the whole text fails. |
| `ParseBuffer.Parse` | fxquant/common/pugixml.cpp:3483-3528 | A buffer gives exactly the document its text behind a byte order mark stands for, and an error exactly when that is one, the stray `<` and a missing element included; of a buffer with a zero in it, the text is what stands before the zero, and the last character. |
| `Events.ParseEvents` | fxquant/common/pugixml.cpp:3483-3528 | A buffer is accepted exactly if the events of its text are balanced, loaded exactly if an element is among them, and the document is the one they stand for. |
| `RoundTrip.NodeParses` | fxquant/common/pugixml.cpp:4202-4293 | The rendering of a subtree, followed by anything, parses to that subtree and goes on behind it. |
| `RoundTrip.PrintThenParse` | fxquant/common/pugixml.cpp:3220-3456 | Every document of elements with valid names, attributes and non-empty, non-adjacent texts, none of them with a zero in it, printed raw and parsed, is itself. |
| `RoundTrip.PrintAndParse` | fxquant/common/pugixml.cpp:3483-3528 | End to end on pointers: what node_output writes for such a document, xml_parser::parse loads as the same document. |
| `Integers.OverflowIsExact` | fxquant/common/pugixml.cpp:4500-4527 | The test on digit count, leading digit and high bit of the wrapped accumulator holds exactly for the decimal numbers that do not fit the word. |
| `Integers.HexFits` | fxquant/common/pugixml.cpp:4474-4498 | Without leading zeros a hexadecimal number fits exactly when it has at most two digits per byte. |
| `Integers.StringToInteger` | fxquant/common/pugixml.cpp:4454-4527 | For every text and every word size: the number it stands for, clamped to the range of the target. |
| `Integers.IntegerToString` | fxquant/common/pugixml.cpp:4578-4596 | The buffer holds the decimal digits, behind a minus sign if negative, for every value including the least one. |
| `Integers.TextReads` | fxquant/common/pugixml.cpp:4454-4527 | The text of a number stands for that number. |
| `Integers.ConvertBack` | fxquant/common/pugixml.cpp:4454-4596 | What integer_to_string leaves in its buffer, string_to_integer turns back into the same word, for every number in range. |
| `Numerals.NumberReads` | fxquant/common/pugixml.cpp:4450-4527 | White space, a sign, 0x or 0X, and any spelling of a number in that base, whatever follows: read as that number. |
| `Numerals.ReadNumber` | fxquant/common/pugixml.cpp:4450-4527 | And string_to_integer gives it, clamped to the range of the type. |
| `HashTable.ProbesDiffer` | fxquant/common/pugixml.cpp:282-337 | For a power of two capacity no two probes look at the same bucket. |
| `HashTable.ProbingIsComplete` | fxquant/common/pugixml.cpp:282-337 | As many probes as there are buckets visit every bucket. |
| `HashTable.CompactHashTable.Find` | fxquant/common/pugixml.cpp:282-307 | Finds what the abstract map holds, and nothing else. |
| `HashTable.CompactHashTable.Put` | fxquant/common/pugixml.cpp:309-337 | Under the load bound insertion never finds the table full; the map gains or changes exactly this key. |
| `HashTable.CompactHashTable.Rehash` | fxquant/common/pugixml.cpp:376-400 | Doubling the table keeps the map. |
| `HashTable.CompactHashTable.Reserve` | fxquant/common/pugixml.cpp:339-345 | Afterwards sixteen insertions are possible, and the map is the same. |
| `Writer.Process` | fxquant/common/pugixml.cpp:1597-1662 | The decoder with its four-byte fast path and its skipping of malformed bytes converts like the sequence by sequence definition and never writes more units than it reads bytes. |
| `Writer.ConvertJoin` | fxquant/common/pugixml.cpp:1597-1662 | Conversion of whole text is conversion of its parts, provided the first part ends on a sequence boundary. |
| `Writer.CutBeforeLead` | fxquant/common/pugixml.cpp:3630-3644 | Well-formed text may be cut in front of any byte that does not continue a sequence. |
| `Writer.NoLongTail` | fxquant/common/pugixml.cpp:3630-3644 | No four consecutive bytes of well-formed text all continue a sequence. |
| `Writer.CutIsExact` | fxquant/common/pugixml.cpp:1597-1662 | For any text and any place to cut it: the two parts convert to the conversion of the whole exactly if the decoder does not read across that place; otherwise something is missing. |
| `Writer.BoundaryIsWhole` | fxquant/common/pugixml.cpp:1597-1662 | In well-formed text it does not exactly if the first part is well formed. |
| `Writer.ConvertBuffer` | fxquant/common/pugixml.cpp:3568-3581 | The conversion of the data, each unit with its bytes swapped if the byte order asks for it. |
| `Writer.BytesSwapped` | fxquant/common/pugixml.cpp:1416-1424 | The bytes of a unit come in the opposite order. |
| `Writer.OneByte` | fxquant/common/pugixml.cpp:1609-1612 | Section 3 of RFC 3629: the bits of a code point in its bytes, read and written; one byte. |
| `Writer.TwoBytes` | fxquant/common/pugixml.cpp:1631-1636 | Two bytes. |
| `Writer.ThreeBytes` | fxquant/common/pugixml.cpp:1638-1643 | Three bytes. |
| `Writer.FourBytes` | fxquant/common/pugixml.cpp:1645-1650 | Four bytes. |
| `Writer.SurrogatePair` | fxquant/common/pugixml.cpp:1507-1533 | Section 2.1 of RFC 2781: the two units of a code point above the basic plane, its upper ten bits first. |
| `Writer.ByteOrder` | fxquant/common/pugixml.cpp:3568-3581 | Every unit of UTF-16 and UTF-32 is so swapped, and no byte of UTF-8 or Latin-1 is. |
| `Writer.Latin1Is` | fxquant/common/pugixml.cpp:1576-1595 | Of well-formed text, the code points below 256 are written as themselves in Latin-1 and the others as question marks. |
| `Writer.Transcoding` | fxquant/common/pugixml.cpp:1664-1744 | Through UTF-16 (section 2 of RFC 2781) or UTF-32 in either byte order and on is the same as converting directly. |
| `Writer.BackToUtf8` | fxquant/common/pugixml.cpp:1447-1490 | Decoding well-formed UTF-8 (section 3 of RFC 3629) and writing it as UTF-8 gives it back. |
| `BufferedWriter.ValidLength` | fxquant/common/pugixml.cpp:3630-3644 | Goes back at most four bytes to one that starts a sequence, and makes progress. |
| `BufferedWriter.WholeChunk` | fxquant/common/pugixml.cpp:3630-3644 | What it picks of well-formed text is well formed, and so is the rest. |
| `BufferedWriter.BufferedWriter.ConvertPiece` | fxquant/common/pugixml.cpp:3646-3667 | The converted text of any chunk fits the scratch buffer. |
| `BufferedWriter.BufferedWriter.Flush` | fxquant/common/pugixml.cpp:3678-3704 | The buffer is empty and everything written has been delivered; nothing is lost or added. |
| `BufferedWriter.BufferedWriter.WriteDirect` | fxquant/common/pugixml.cpp:3706-3743 | Long text is delivered in chunks that are whole; what was written grows by exactly this text. |
| `BufferedWriter.BufferedWriter.WriteBuffer` | fxquant/common/pugixml.cpp:3745-3758 | What was written grows by exactly this text. |
| `BufferedWriter.BufferedWriter.WriteString` | fxquant/common/pugixml.cpp:3760-3783 | The same for a string copied character by character, which backs up to a sequence boundary when the buffer fills. |
| `BufferedWriter.BufferedWriter.WriteChars` | fxquant/common/pugixml.cpp:3785-3852 | The same for the overloads for one to six characters. |
| `BufferedWriter.WholeOutput` | fxquant/common/pugixml.cpp:3672-3860 | After any run of writes of well-formed text the output is the conversion of everything written, and no delivery splits a code point. |
| `BufferedWriter.OutputIsExact` | fxquant/common/pugixml.cpp:3672-3860 | After a flush the output is the conversion of everything written exactly if no sequence was cut in two between deliveries; for well-formed text, exactly if every delivered piece is well formed. |
| `BufferedWriter.Run` | fxquant/common/pugixml.cpp:3672-3860 | Any run of writes of UTF-8 text (section 3 of RFC 3629) through any of the overloads, and a flush: decoding what the output received as UTF-16 or UTF-32 gives the whole text back. |
| `BufferedWriter.SplitSequence` | fxquant/common/pugixml.cpp:3745-3758 | A run in which it is not: the first byte of a sequence fills the buffer and the second comes with the next write; both are lost. |
| `Allocator.Allocator.constructor` | fxquant/common/pugixml.cpp:6825-6865 | A new document's allocator has only the sentinel page and no live block. |
| `Allocator.Allocator.Allocate` | fxquant/common/pugixml.cpp:519-532 | Hands out a block inside its page that was not live and makes exactly it live, whichever of the root page, a new root page or a page of its own it comes from; the root has a page in front of it. |
| `Allocator.LiveBlocksAreDisjoint` | fxquant/common/pugixml.cpp:519-532 | Two live blocks that share a byte are the same block. |
| `Allocator.Allocator.Deallocate` | fxquant/common/pugixml.cpp:571-613 | Makes exactly this block dead; its page is given back exactly when it is not the root and this was its last live block. |
| `Allocator.AllDead` | fxquant/common/pugixml.cpp:571-613 | Every byte handed out from a page is live or freed, and the counters meet exactly when no block is live. |
| `Allocator.Allocator.Destroy` | fxquant/common/pugixml.cpp:6867-6904 | The walk behind the sentinel gives back every page exactly once. |
| `Allocator.Allocator.AllocateString` | fxquant/common/pugixml.cpp:615-647 | A block large enough for the header and the string, rounded up. |
| `Allocator.Allocator.HeaderRecovers` | fxquant/common/pugixml.cpp:649-666 | The two 16-bit fields determine the start of the page and the size of the block, for blocks too large to encode as well. |
| `Allocator.Allocator.DeallocateString` | fxquant/common/pugixml.cpp:649-666 | From its header alone exactly the string's block is given back. |
| `Base64.InitializeReverseMap` | bat-libs/msvc15/include/bson/b64_pton.h:133-160 | The map holds the value of every letter and marks the terminator, the pad, white space and everything else. |
| `Base64.Encoder` | bat-libs/msvc15/include/bson/b64_ntop.h:117-183 | Writes the encoding and a terminator, each character as the alphabet has it for its six bits; fails exactly when 4*ceil(n/3)+1 bytes do not fit. |
| `Base64.EncodedLength` | bat-libs/msvc15/include/bson/b64_ntop.h:117-183 | The text has 4*ceil(n/3) characters. |
| `Base64.EncodedCharacter` | bat-libs/msvc15/include/bson/b64_ntop.h:50-54 | Character k of the encoding is the alphabet, written out, at the k-th six bits of the input, and a pad where there are none left. |
| `Base64.DecodesIffSpelled` | bat-libs/msvc15/include/bson/b64_pton.h:162-275 | A text is accepted as given bytes exactly if it is spelled like that. |
| `Base64.MapInverts` | bat-libs/msvc15/include/bson/b64_pton.h:133-160 | The reverse map inverts the alphabet. |
| `Base64.SpaceCodes` | bat-libs/msvc15/include/bson/b64_pton.h:133-160 | The characters it takes for white space. |
| `Base64.RoundTrip` | bat-libs/msvc15/include/bson/b64_pton.h:162-275 | Decoding the encoding of any bytes gives the bytes. |
| `Base64.OnlyCanonical` | bat-libs/msvc15/include/bson/b64_pton.h:162-275 | Encoding what any accepted text decodes to gives that text. |
| `Base64.DecodeIsInjective` | bat-libs/msvc15/include/bson/b64_pton.h:162-275 | So each byte sequence has exactly one text that is accepted. |
| `Base64.Decoder` | bat-libs/msvc15/include/bson/b64_pton.h:162-275 | The four-state decoder that ORs partial bytes into its target: for any text and target size it gives the decoded bytes, or fails, exactly as the group by group definition says. |
| `Base64.TrailingPad` | bat-libs/msvc15/include/bson/b64_pton.h:225-264 | Behind the first pad only a second one in state 2, and white space, is accepted. |
| `Base64.LengthOnly` | bat-libs/msvc15/include/bson/b64_pton.h:278-369 | The length-only twin gives the number of bytes, without looking at the spare bits. |
| `Base64.LengthAgrees` | bat-libs/msvc15/include/bson/b64_pton.h:278-369 | It accepts more texts than the decoder, exactly those whose spare bits are set, and agrees on all others. |
| `Base64.SpareBitRefused` | bat-libs/msvc15/include/bson/b64_pton.h:278-369 | A text with a spare bit set: a length is announced, and decoding fails. |
| `Base64.AnnouncedRoom` | bat-libs/msvc15/include/bson/b64_pton.h:278-369 | A buffer of the announced length and one byte holds what the decoder writes. |
| `Base64.EncodeAndDecode` | bat-libs/msvc15/include/bson/b64_pton.h:162-369 | Encoding into a buffer, asking for the length and decoding into a buffer of that length and one byte gives the bytes back. |
| `Base64.EncodedText` | bat-libs/msvc15/include/bson/b64_pton.h:162-275 | With room for one byte more than the decoded ones, decoding an encoding succeeds, white space or not. |
| `Orders.EnterOnce` | fxquant/fxquant/strategies/default_strategy.cpp:27-37 | An order enters the opened list at most once during a tick exactly when no order that is pending twice has an undefined opening price. |
| `Orders.InfiniteAskEntersTwice` | fxquant/fxquant/strategies/default_strategy.cpp:27-37 | With an infinite ask one buy order that is pending twice enters twice. |
| `Orders.Engine.OnTick` | fxquant/fxquant/strategies/default_strategy.cpp:10-56 | A pending order enters exactly if it is not open and the tick has reached its price, and opens at the price of its side; an open order is closed exactly if a sell order's ask, or a buy order's bid, has reached its stop loss or its take profit, at that price; entered orders keep their sequence, and none is lost. The lists stay valid exactly when every order that opens has a price; otherwise an order enters without being open. |
| `Orders.BetweenTheLimits` | fxquant/common/order.h:270-360 | While the closing price is strictly between its limits, an order stays open. |
| `Orders.Engine.EngineTick` | fxquant/fxquant/fx_engine.cpp:135-141 | A tick adds the submitted orders once more and hands the tick on; histories only grow, and the lists stay valid exactly under the same condition. |
| `Orders.Engine.CloseTrade` | fxquant/fxquant/strategy.cpp:171-196 | Exactly the given order, if it is open, moves to the closed list. |
| `Orders.Engine.CloseAllTrades` | fxquant/fxquant/strategy.cpp:198-212 | All open orders move to the closed list, in order. |
| `Orders.Engine.CheckOrdersClosing` | fxquant/fxquant/strategies/first_strategy.cpp:67-92 | An order leaves the opened list exactly if its closing price has reached its stop loss or its take profit, but only the first is closed; exactly the others are in neither list any more, and the lists stay valid exactly if there was at most one. |
| `Orders.SecondIsStranded` | fxquant/fxquant/strategies/first_strategy.cpp:67-92 | A run in which there are two: the second is lost. |
| `Orders.ListsOfOrders` | fxquant/fxquant/strategies/default_strategy.cpp:10-56 | In a valid state the two lists are disjoint and free of repetitions and hold exactly the orders that ever entered. |
| `Runs.Run` | fxquant/fxquant/strategies/default_strategy.cpp:10-56 | Over every run of ticks, submissions and closings with the default strategy: no order enters or is closed twice, and every order that was ever pending is pending, opened or closed. The run is followed up to the first tick that opens an order at an undefined price, where this fails. |
| `Runs.RunFirst` | fxquant/fxquant/strategies/first_strategy.cpp:15-126 | The same for every run of first_strategy with any ticks and bars: never more than one open order, so the early return strands nothing, and no more entries per bar than the parameters allow. |
| `FirstStrategy.FirstStrategy.OnTick` | fxquant/fxquant/strategies/first_strategy.cpp:15-61 | Sends an order exactly when `Sends` holds, at the price of its side and with its limits half the distance of the lines away on either side; an open order is closed exactly when its closing price has reached a limit. |
| `FirstStrategy.FirstStrategy.SendsIn` | fxquant/fxquant/strategies/first_strategy.cpp:15-61 | In numbers: the lines are set and at least two pips apart, nothing is open, the quota is not used up, and the bid has reached the buy line, or else the sell line, with a positive price to open at. |
| `FirstStrategy.SentCloses` | fxquant/fxquant/strategies/first_strategy.cpp:43-56 | An order it sent is closed by its limits exactly when the closing price is half the distance of the lines away from the opening price. |
| `FirstStrategy.FirstStrategy.OnBar` | fxquant/fxquant/strategies/first_strategy.cpp:93-126 | A bar larger than the minimum switches the lines off; any other sets them around the opening price of the bar before and resets the counter. |
| `FirstStrategy.FirstStrategy.LegalMeans` | fxquant/fxquant/strategies/first_strategy.cpp:93-126 | The bar is larger than the minimum number of pips. |
| `DataFeeder.CandleFactory.PutTick` | fxquant/common/candle_factory.cpp:13-47 | The callback gets the bar of exactly the run of ticks that this tick ends. |
| `Candles.EmittedBars` | fxquant/common/candle_factory.cpp:13-47 | For ticks in the order of time the bars emitted are exactly the closed buckets with a positive start, in increasing time, each with the first, highest, lowest and last price of all ticks of the bucket. |
| `Candles.BarIs` | fxquant/common/candle_factory.cpp:13-47 | A bar opens and closes with the first and last price of its ticks, all of which lie between its lowest and highest, which are prices of ticks. |
| `Candles.MergeLaw` | fxquant/common/candle_factory.cpp:13-47 | When one timeframe divides another, the bars of the shorter one in a bucket of the longer one merge to what all its ticks give. |
| `DataFeeder.DataFeeder.OnTick` | fxquant/fxquant/data_feeder.cpp:53-58 | Whenever a bar is emitted, for every shorter timeframe that divides its own it is the merge of that timeframe's bars in its interval, all of them emitted before it. |
| `DataFeeder.FeederBars` | fxquant/fxquant/data_feeder.cpp:53-58 | For ticks in the order of time every timeframe has emitted exactly its closed buckets. |
| `Candles.ComposesIffDivides` | fxquant/common/candle_factory.cpp:13-47 | On every ordered stream of ticks the bars of one timeframe make up those of another exactly if the one divides the other. |
| `DataFeeder.WeeksDoNotMakeMonths` | fxquant/fxquant/data_feeder.cpp:10-19 | Of the timeframes of the feeder only 168 and 720 hours do not agree. |
| `DataFeeder.MonthWithoutWeeks` | fxquant/fxquant/data_feeder.cpp:53-58 | A run in which they do not: after a tick at the start of a bar of 720 hours and one at the start of the next, that bar has been emitted, and no bar of 168 hours starts in it. |

## Findings

Properties one would expect that the code does not have. Each is stated by the member named, together
with the exact condition under which the code does meet it.

| property | input for which it fails | when it holds | member |
|---|---|---|---|
| The document-order comparator is a strict order. | One attribute compared with itself: the comparator answers true. | For any two operands that are not the same attribute. The sort never compares a place of the array with itself, so sets without repetitions are sorted correctly. | `DocOrder.ComparatorLaws`, `XPathSets.SortDo` |
| A relational comparison of a boolean with a node set converts the set to a boolean first (section 3.4 of XPath 1.0). | true() < S, where S is one node that holds 2: true in the code, false by the standard. | The table of cases in `Agrees`, by operator, boolean, side and the numbers in the set. | `XPathRelations.BooleanAgainstNodes`, `XPathRelations.TrueIsLessThanTwo` |
| A pending order enters the opened list at most once, and is then open. | A buy order that is pending twice, and a tick without an ask: it enters twice and stays unopened. | For every tick that has a price for each order it opens (`AllDefined`, which every tick with both prices satisfies). | `Orders.EnterOnce`, `Orders.InfiniteAskEntersTwice`, `Orders.Engine.OnTick`, `Runs.Run` |
| check_orders_closing loses no order. | Two open orders that reach a limit at the same tick: the second is in neither list afterwards. | When at most one open order reaches a limit. No run of first_strategy, its only caller, gets there: it never has two open orders. | `Orders.Engine.CheckOrdersClosing`, `Orders.SecondIsStranded`, `Runs.RunFirst` |
| Bars of every timeframe merge to the bars of the longer ones. | 168 hours and 720 hours, a tick at the start of a bar of 720 hours and one at the start of the next. | For all streams of ticks exactly when the shorter timeframe divides the longer one. | `Candles.ComposesIffDivides`, `DataFeeder.WeeksDoNotMakeMonths`, `DataFeeder.MonthWithoutWeeks` |
| The length-only Base64 decoder accepts only what the decoder accepts. | `QR==`, whose last letter has a spare bit set: a length is announced, decoding fails. | When the spare bits are zero. | `Base64.LengthAgrees`, `Base64.SpareBitRefused` |
| Pieces of output convert independently. | 2047 letters and the first byte of a sequence in one write, its second byte in the next: both are dropped. | When no sequence is cut in two between deliveries; for well-formed text, when every piece is well formed, as it is when every write is. | `Writer.CutIsExact`, `BufferedWriter.OutputIsExact`, `BufferedWriter.SplitSequence`, `BufferedWriter.WholeOutput` |
| A step selects all nodes on its axis that pass the node test (section 2.1 of XPath 1.0). | @name at an element with two attributes of that name, which the parser accepts: only the first is selected. | On documents without such elements, which are those that are well-formed XML. | `XPathEval.StepsAreStandard`, `XPathEval.TwinsAreLost` |

Two more places where the code and its words differ: in `first_strategy.cpp` the test called
is_bar_legal, and the comment above it, suggest that small bars switch the lines off, while the code does
so for large ones; and submitted orders are never taken off the list of new orders, so every tick makes
them pending once more.

## Left out

- Copy.NodeCopyTree: names and values are copied as values; that a copy within one document shares its strings with the source is not modelled.
- XPathOptimize.Optimize: rewrites expressions as values, while the code changes its nodes in place; sharing of nodes is not captured.
- XPathEval.EvalSet: a predicate filters a buffer that is a sequence held in a local variable, not an array shared with the caller; recursion depth is not limited.
- DocOrder.DocumentOrder: the shortcut through the parse buffer is not modelled.
- Allocator.Allocator.Allocate: a block larger than a quarter of a page must not be the first allocation, as the code asserts; failing allocations are not modelled, and neither is the PUGIXML_COMPACT layout of pages.
- Allocator.Allocator.DeallocateString: assumes that nobody has overwritten the header in front of the string.
- HashTable.CompactHashTable.Put: any hash function will do; the mixing of pointer bits is not modelled, and insertion is combined with the assignment through the pointer it returns.
- UnescapeInPlace.StrconvPcdata: trimming, end-of-line and white-space normalisation, and the other variants for attributes and comments, are not modelled.
- Parser.ParseTree: covers elements, attributes and text with the flags parse_escapes and parse_ws_pcdata; a tag that begins with `?` or `!` (declarations, processing instructions, comments, CDATA, DOCTYPE) ends the parse with a status of its own, and error offsets are not modelled. A string with a zero in it is no input of parse_tree, which stops at the first; `ParseBuffer.Parse` cuts the buffer there. The parser decodes values with the pure decoder, which the in-place one is proved to refine.
- Printer.NodeOutput: raw format only, no indentation; it collects the text instead of calling the buffered writer.
- XPath functions: sum, lang, substring, id lookups and the formatting and parsing of numbers; those that map strings and numbers to each other are parameters of the evaluation, and zero has no sign.
- XPath namespace functions and variables that are node sets with repetitions.
- The XPath lexer and grammar: expressions start as syntax trees.
- Runs.Run: order notifications, the event queue, threads and locks are left out; a run is a sequence of operations.
- FirstStrategy.FirstStrategy.OnBar: the bar collector is a parameter.
- Candles.EmittedBars: the bucket that starts at time zero is never emitted, and before the first positive bucket the bar under way means nothing; both are as in the code.
- Prices that are NaN or minus infinity.
- Attribute lists are sequences; their links have the same shape as those of nodes.
- The wide-character mode, file and stream loading, encoding detection, networking, logging, configuration, CSV and the graphical interface: plumbing, or members that would be easy.
