# Verified models of the ArkUI-X adapters

Four parts of the repository hold real algorithms; this project models them in Dafny and proves what
they are for.

* **GN values** (`build_plugins/gn_helpers.py`). `GnText`, `GnParser`, `GnGrammar`, `GnSentences`,
  `GnErrors`, `GnArgs`, `GnPrinter`, `GnValueParser`. A grammar of concrete syntax trees, which keep every
  character of
  the text they stand for, is defined independently of the parser; the parser accepts exactly its
  sentences. Round trips, locality, compositionality of argument texts and the exact place of Python's
  `IndexError` follow from it. The class `GNValueParser` moves a cursor in loops as the source does and
  is proved against the parsing functions.
* **Accessibility trees** (`js_accessibility_manager.cpp` and `.h`, `accessibility_manager_impl.cpp`).
  `UiTree`, `NodeLookup`, `Flattening`, `ParentLinks`, `Components`, `IosSearch`, `BreadthSort`,
  `AccessibilityTree`, `AndroidSearch`, `TreeIds`, `TreeRename`, `AccessibilityFocus`. UI nodes are
  finite trees; lists that several procedures change are objects. The two lookups, the flattening, the
  searches of both platforms, the sort, the packed ids and the focus flags each get a reference that
  does not mention the algorithm (level order, preorder, reachability, links, "flag set exactly at the
  current id"), and the results are connected across the functions.
* **Log hand-off** (`log_wrapper.cpp`). `LogQueue` is a state machine over the atomic steps of any
  number of producers, one consumer thread and one start/stop controller; its results hold in every
  reachable state of every interleaving.
* **HTTP field lines** (`response_data.cpp`). `HttpHeaders`: field lines are those of section 5 of
  RFC 9112.

`ElementInfos` and `Wrappers` hold shared datatypes. `dafny verify dfyconfig.toml` checks the project.

Where the code and what is said about it differ, the model follows the code:

* The docstring of `ToGNString` says that a scope cannot be nested in a list. The call for list items
  does not pass the flag on, so such a scope is printed (`GnPrinter.ScopeInListIsPrinted`);
  `GnPrinter.PrintsExactly` says which values print.
* `_ParseIdent` and `ParseArgs` read one character past what they have checked. The model has an
  `IndexError` outcome, and `GnArgs.IndexErrorExactly` says on which texts it occurs.
* Stopping the log thread can wait for ever (`LogQueue.StuckIsReachable`), since the flag is stored and
  the condition variable notified without the mutex: every stop that finds `g_logThreadRunning` set is
  exposed to it, in whatever reachable state it is called (`LogQueue.StopGetsStuckExactly`).
* Deregistering can leave a focus flag behind (`AccessibilityFocus.TwoFocusedNodes`);
  `DeregisterClearsExactly`, `FocusIsUnique` and `LastReachingActionDecides` give the condition.
* Parsing two argument texts one behind the other is not always parsing each on its own
  (`GnArgs.ComposeNeedsNoDigit`); `GnArgs.ArgsCompose` says exactly when it is.
* Where adding a child leaves present ids alone, renaming can lose a child
  (`TreeRename.ClashingChildIsLost`); `TreeRename.ChildrenPackedInPlace` says exactly when it does not.
* `GetFrameNodeChildren` exists twice: for page id -1 the version for nodes takes every page, the one for
  ids only pages with that id. The sort then drops the surplus (`AndroidSearch.SearchIsLevelOrder`).
* A field line with nothing behind its colon, which RFC 9112 allows, makes `SetHeaders` throw
  (`HttpHeaders.EmptyValueThrows`), and without white space behind the colon the value loses its first
  character (`HttpHeaders.FirstCharacterIsLost`); `ThrowsExactly` and `StoredIsFieldValueExactly` give
  the conditions.

## Model

| member | source | states |
|---|---|---|
| GnText.UnescapeGNString | build_plugins/gn_helpers.py:132-154 | the index loop computes the recursive unescaping |
| GnText.EscapeIsPerCharacter | build_plugins/gn_helpers.py:39-41 | the three replacements made one after the other equal one escape per character |
| GnText.UnescapeRecoversEscape | build_plugins/gn_helpers.py:39-41 | unescaping an escaped string gives back the string, for every string |
| GnText.NatValueOfText | build_plugins/gn_helpers.py:64-65 | reading the decimal text of a number gives the number |
| GnText.CharacterClasses | build_plugins/gn_helpers.py:132-281 | which characters are white space, digits, parts of identifiers, and escapable |
| GnText.DecimalText | build_plugins/gn_helpers.py:64-65 | the digits stand for themselves, the last one counting units and those in front of it tens |
| GnSentences.FromGNStringIsTheGrammar | build_plugins/gn_helpers.py:181-204 | a text is accepted with value v if and only if it is a syntax tree of value v between white space |
| GnGrammar.ReadsBack | build_plugins/gn_helpers.py:227-245 | every syntax tree, followed by any text that does not continue it, is read to its end with its value |
| GnGrammar.ValueRead | build_plugins/gn_helpers.py:227-245 | whatever the parser reads is the text of a syntax tree with that value |
| GnGrammar.CharsReadBack | build_plugins/gn_helpers.py:293-308 | a string body is read exactly up to its closing quote |
| GnGrammar.CharsUnescape | build_plugins/gn_helpers.py:132-154 | unescaping a string body drops the backslash of the three escapes and of nothing else |
| GnGrammar.LoneBackslashDropped | build_plugins/gn_helpers.py:132-154 | a backslash with nothing behind it is dropped, whatever stands in front of it |
| GnGrammar.LiteralDropsNothing | build_plugins/gn_helpers.py:141-150 | the branch that drops a lone trailing backslash is never reached from an accepted literal |
| GnSentences.ValueIsLocal | build_plugins/gn_helpers.py:227-245 | an accepted value depends only on the text it consumes; anything may follow it, save a digit right behind a numeral at the end of the text |
| GnSentences.ParsedIsDictFree | build_plugins/gn_helpers.py:181-204 | parsing never yields a dictionary, at any depth |
| GnErrors.EmptyOrTrailing | build_plugins/gn_helpers.py:181-245 | one error means that there is nothing but white space, another that something stands behind a value it does not continue; neither comes from inside a list |
| GnArgs.FromGNArgsIsTheGrammar | build_plugins/gn_helpers.py:206-225 | an argument text is accepted with dictionary m if and only if it is a list of assignments that bind m, later ones winning |
| GnArgs.ArgsSplit | build_plugins/gn_helpers.py:206-225 | every text is a list of assignments and then nothing, or text whose first assignment fails with the error that is returned |
| GnArgs.ArgsCompose | build_plugins/gn_helpers.py:206-225 | after an accepted text, a text is parsed as on its own (its bindings override, its error is the error of the whole) if and only if it does not begin with a digit, or the accepted text does not end in one, or it fails for want of an identifier even without its leading digits |
| GnArgs.AcceptedTextsCompose | build_plugins/gn_helpers.py:206-225 | two accepted texts with nothing between them are accepted with the bindings of both, the later ones winning |
| GnArgs.ArgsComposeLines | build_plugins/gn_helpers.py:111-129 | after an accepted text and a line feed any text is parsed as on its own |
| GnArgs.ComposeNeedsNoDigit | build_plugins/gn_helpers.py:265-281 | an input on which composition fails: two texts run together into one numeral |
| GnArgs.IndexErrorExactly | build_plugins/gn_helpers.py:214-217 | reading past the end happens exactly on an accepted text followed by an identifier and nothing but white space |
| GnPrinter.Sorted | build_plugins/gn_helpers.py:58 | the keys once each, ascending: a prefix first, otherwise by the first character in which two keys differ |
| GnPrinter.LexLeExactly | build_plugins/gn_helpers.py:58 | the recursive comparison of strings is this order |
| GnPrinter.ScalarsPrinted | build_plugins/gn_helpers.py:36-65 | strings are printed between quotes with a backslash in front of each escapable character, numbers in decimal, booleans as words |
| GnPrinter.ListIsCommas | build_plugins/gn_helpers.py:51-52 | a list is printed as its items between brackets, separated by a comma and a space |
| GnPrinter.ScopeIsLines | build_plugins/gn_helpers.py:54-62 | a scope is printed as one line `key = value` for each key, the keys in ascending order |
| GnPrinter.RoundTrip | build_plugins/gn_helpers.py:30-67 | printing succeeds and parses back to the value if and only if the value is made of integers, booleans, line-feed-free strings and lists of them |
| GnPrinter.PrintInjective | build_plugins/gn_helpers.py:30-67 | two such values with the same text are equal |
| GnPrinter.AnyKeyOrderParsesBack | build_plugins/gn_helpers.py:54-62 | the entries of a scope printed in any key order parse back to the scope, with no read past the end |
| GnPrinter.ScopeRoundTrip | build_plugins/gn_helpers.py:54-62 | a scope prints and parses back to itself if and only if its keys are identifiers and its values plain |
| GnPrinter.PrintsExactly | build_plugins/gn_helpers.py:30-67 | printing succeeds if and only if, at every depth, no string holds a line feed, no type is unsupported and no entry of a scope is a scope, and the value is no scope where scopes are not allowed |
| GnPrinter.ScopeInListIsPrinted | build_plugins/gn_helpers.py:52 | a scope in a list is printed even where scopes are not allowed, and does not parse back |
| GnValueParser.ToGNString | build_plugins/gn_helpers.py:30-67 | the loops over list items and over sorted keys build the printed text and stop at the first error |
| GnValueParser.GNValueParser.ConsumeWhitespace | build_plugins/gn_helpers.py:177-179 | the cursor moves over exactly the leading white space |
| GnValueParser.GNValueParser.ConstantFollows | build_plugins/gn_helpers.py:348-359 | the constant is consumed if and only if the unread text starts with it |
| GnValueParser.GNValueParser.ParseNumber | build_plugins/gn_helpers.py:265-281 | value or error, and the cursor behind the numeral, as the parsing function says |
| GnValueParser.GNValueParser.ParseString | build_plugins/gn_helpers.py:283-308 | the same for strings |
| GnValueParser.GNValueParser.ParseList | build_plugins/gn_helpers.py:310-346 | the same for lists, with the trailing-comma flag of the loop |
| GnValueParser.GNValueParser.ParseAllowTrailing | build_plugins/gn_helpers.py:227-245 | the same for any value; the mutual recursion terminates on every text and stays in bounds |
| GnValueParser.GNValueParser.ParseIdent | build_plugins/gn_helpers.py:247-263 | the longest identifier, or an index error if the text ends with it |
| GnValueParser.GNValueParser.ParseArgs | build_plugins/gn_helpers.py:206-225 | the loop over assignments updates the dictionary in order |
| GnValueParser.FromGNString | build_plugins/gn_helpers.py:70-108 | every text ends in a value or a GNException |
| GnValueParser.FromGNArgs | build_plugins/gn_helpers.py:111-129 | every text ends in a dictionary, a GNException or an index error |
| BreadthSort.SortAccessibilityInfosByBreadth | arkui_for_android/osal/js_accessibility_manager.cpp:480-499 | the loop that calls itself equals a plain queue loop, empties the queue, and terminates for every input |
| BreadthSort.SortExtensionAccessibilityInfo | arkui_for_android/osal/js_accessibility_manager.cpp:501-508 | the list is replaced by what the sort from the root id puts out |
| BreadthSort.SortConserves | arkui_for_android/osal/js_accessibility_manager.cpp:480-499 | output and left-over infos together are the input, as multisets, whatever the ids |
| BreadthSort.SortIsBreadthFirst | arkui_for_android/osal/js_accessibility_manager.cpp:480-508 | with distinct ids: exactly the infos reachable from the root id, once each, by non-decreasing shortest distance, root first, a parent before every other |
| BreadthSort.ClosedReaches | arkui_for_android/osal/js_accessibility_manager.cpp:480-499 | when the queue is empty every info on a path was put out, no deeper than the path is long |
| NodeLookup.GetInspectorById | arkui_for_android/osal/js_accessibility_manager.cpp:2972-2993 | the first frame node with the id in level order |
| NodeLookup.FindFrameNodeByAccessibilityId | arkui_for_android/osal/js_accessibility_manager.cpp:728-743 | the first child that matches, or all children queued |
| NodeLookup.GetFramenodeByAccessibilityId | arkui_for_android/osal/js_accessibility_manager.cpp:745-773 | the root if it has the id, else the first frame node below in level order that has it and is not level-no |
| NodeLookup.LookupsFind | arkui_for_android/osal/js_accessibility_manager.cpp:745-773 | the first frame node in level order that has the id; or the root if it has the id, else the first one below it that is not level-no |
| NodeLookup.LevelsSplit | arkui_for_android/osal/js_accessibility_manager.cpp:2976-2991 | queueing children behind the nodes of the same generation visits generation after generation |
| NodeLookup.LevelsArePreorder | arkui_for_android/osal/js_accessibility_manager.cpp:2976-2991 | level order visits the same nodes as preorder, as often |
| NodeLookup.LookupsAgree | arkui_for_android/osal/js_accessibility_manager.cpp:745-773 | without level-no nodes checking on entry and on exit find the same node |
| NodeLookup.EnqueueFindsExactly | arkui_for_android/osal/js_accessibility_manager.cpp:728-773 | in general the lookup on entry finds a node if and only if the root, or a frame node below that is not level-no, has the id |
| NodeLookup.EnqueueFindsTheNode | arkui_for_ios/osal/accessibility_manager_impl.cpp:1762-1792 | with unique ids the id of a frame node leads to that node, unless it is a level-no node below the root |
| Flattening.ListedExactly | arkui_for_android/osal/js_accessibility_manager.cpp:775-843 | a node is listed if and only if child links lead to it, it is an ordinary frame node, and every frame on the way is a stage, internal, or a page asked for, all active where that matters |
| Flattening.VisitedExactly | arkui_for_android/osal/js_accessibility_manager.cpp:775-809 | a walk visits a node if and only if such links lead to it, which may also go through ordinary nodes that are visited and not closed |
| Flattening.WalkIsPreorder | arkui_for_android/osal/js_accessibility_manager.cpp:775-809 | walking the flattened children visits exactly the eligible nodes in sight, in the preorder of the UI tree |
| Flattening.WalkIsDistinct | arkui_for_android/osal/js_accessibility_manager.cpp:775-809 | with unique ids no walk visits a node twice |
| Flattening.ChildListsPartition | arkui_for_android/osal/js_accessibility_manager.cpp:775-843 | with every node active and every page matching, the child lists together hold each eligible node exactly once |
| ParentLinks.GetParentId | arkui_for_android/osal/js_accessibility_manager.cpp:845-867 | the climb ends at the nearest ancestor that may be a parent, or at the invalid id |
| ParentLinks.ParentIsNearest | arkui_for_android/osal/js_accessibility_manager.cpp:845-867 | the id is that of the nearest ancestor that is a frame node, no page, no stage and not level-no, or -2100000 |
| ParentLinks.ChildReportsItsParent | arkui_for_android/osal/js_accessibility_manager.cpp:775-867 | a flattened child of a node reports that node as its parent if and only if no internal frame node that is not level-no lies between |
| Components.ToInt32Exactly | arkui_for_android/osal/js_accessibility_manager.cpp:3028 | the number in the 32-bit range that differs by a multiple of 2^32 |
| Components.ListingExactly | arkui_for_android/osal/js_accessibility_manager.cpp:2924-3059 | which children the listings have places for and which nodes they go to, in the fields of the nodes on the way: on the page asked for, and through inactive pages, stages and internal frames |
| Components.GetChildFromNodeId | arkui_for_android/osal/js_accessibility_manager.cpp:3016-3037 | appends the ids of the flattened children, cut to 32 bits |
| Components.GetChildFromNode | arkui_for_android/osal/js_accessibility_manager.cpp:2924-2946 | the same, and one blank record for each id |
| Components.GetComponentsId | arkui_for_android/osal/js_accessibility_manager.cpp:3039-3059 | appends the ids of the walk from the node that is looked up; the recursion through lookups terminates |
| Components.GetComponents | arkui_for_android/osal/js_accessibility_manager.cpp:2995-3014 | fills the record with the component tree of the node that is looked up |
| Components.GetAllComponentsId | arkui_for_android/osal/js_accessibility_manager.cpp:3061-3080 | the ids of the whole tree, with page id -1 if there is no page |
| Components.GetAllComponents | arkui_for_android/osal/js_accessibility_manager.cpp:3082-3097 | the records of the whole tree, and false without a page |
| Components.ListingsAgree | arkui_for_android/osal/js_accessibility_manager.cpp:2924-3059 | on the same page the filled-in records in preorder describe, one for one, the nodes whose ids are listed: the root and the eligible nodes in sight, in preorder of the UI tree |
| IosSearch.GetFrameNodeChildren | arkui_for_ios/osal/accessibility_manager_impl.cpp:145-177 | appends the ids of the flattened children, cut to 32 bits |
| IosSearch.UpdateChildrenOfAccessibilityElementInfo | arkui_for_ios/osal/accessibility_manager_impl.cpp:955-976 | the recorded child ids, none for a group other than the root element |
| IosSearch.SearchElementInfoByAccessibilityIdNG | arkui_for_ios/osal/accessibility_manager_impl.cpp:1685-1723 | appends the infos of the walk from the node that is looked up; the recursion through lookups from the root terminates |
| IosSearch.RecordedExactly | arkui_for_ios/osal/accessibility_manager_impl.cpp:145-177 | a child id is recorded if and only if child links lead there through active frames, all stages, internal or the page asked for, and the node is no closed group |
| IosSearch.SearchedExactly | arkui_for_ios/osal/accessibility_manager_impl.cpp:1685-1723 | the search goes to a node if and only if links lead there that also go through ordinary nodes that are neither level-no nor closed groups |
| IosSearch.TargetExactly | arkui_for_ios/osal/accessibility_manager_impl.cpp:1694-1700 | a search starts at the root for its own id and for -1, else at the first node below it with the id that is not level-no, else nowhere |
| IosSearch.CollectedExactly | arkui_for_ios/osal/accessibility_manager_impl.cpp:1685-1723 | an info with id, tag and child ids for exactly those nodes |
| IosSearch.SearchIsPreorder | arkui_for_ios/osal/accessibility_manager_impl.cpp:1685-1723 | that walk is the node and the eligible nodes in sight below it, in preorder, each once, none level-no or inactive |
| AccessibilityTree.SortRecoversLevelOrder | arkui_for_android/osal/js_accessibility_manager.cpp:480-508 | from a list that holds the infos of a forest in any order, among any others, the sort puts out exactly the forest's infos in level order |
| AccessibilityTree.WalkIsTreePreorder | arkui_for_ios/osal/accessibility_manager_impl.cpp:1720-1722 | a walk is the preorder of the accessibility tree |
| AndroidSearch.GetFrameNodeChildren | arkui_for_android/osal/js_accessibility_manager.cpp:811-843 | appends the flattened children as nodes; page id -1 stands for any page |
| AndroidSearch.UpdateCacheInfoNG | arkui_for_android/osal/js_accessibility_manager.cpp:1383-1453 | in recursive mode the queue loop appends the infos of all nodes below, otherwise none |
| AndroidSearch.SearchElementInfoByAccessibilityIdNG | arkui_for_android/osal/js_accessibility_manager.cpp:2188-2217 | looks the node up, collects, and sorts from its id |
| AndroidSearch.GatheredIsWalk | arkui_for_android/osal/js_accessibility_manager.cpp:1393-1409 | the queue loop goes through the nodes of the walks of its nodes, each as often |
| AndroidSearch.SearchIsLevelOrder | arkui_for_android/osal/js_accessibility_manager.cpp:2188-2223 | the recursive search yields the infos of the whole accessibility tree in level order, the node searched for first; the sort drops what page id -1 gathers too much, and nothing for other pages |
| AndroidSearch.RecordedExactly | arkui_for_android/osal/js_accessibility_manager.cpp:775-809 | a child id is recorded if and only if child links lead there through active frames, all stages, internal or the page asked for |
| AndroidSearch.SearchedExactly | arkui_for_android/osal/js_accessibility_manager.cpp:2188-2223 | the accessibility tree has a node if and only if links lead there through active frames, its pages being the one asked for |
| AndroidSearch.GatheredExactly | arkui_for_android/osal/js_accessibility_manager.cpp:811-843 | what is gathered before the sort goes through every page for page id -1 |
| AndroidSearch.FoundExactly | arkui_for_android/osal/js_accessibility_manager.cpp:2188-2217 | a search starts at the root for its own id and for -1, else at the first node below it with the id that is not level-no |
| AndroidSearch.ReportedExactly | arkui_for_android/osal/js_accessibility_manager.cpp:2188-2223 | the recursive search reports an info with id, tag and child ids for exactly the nodes of the accessibility tree |
| AndroidSearch.SearchesAgree | arkui_for_ios/osal/accessibility_manager_impl.cpp:1685-1723 | without level-no nodes and closed groups both platforms report the same infos for every id, each once: one in level order, the other in preorder of the same tree |
| TreeIds.UnpackAfterPack | arkui_for_android/osal/js_accessibility_manager.h:139-165 | unpacking undoes packing if and only if the tree id is in [0, 2^23) and the element id in [0, 2^40), or both are -1 |
| TreeIds.PackAfterUnpack | arkui_for_android/osal/js_accessibility_manager.h:139-165 | packing undoes unpacking if and only if the id is non-negative or -1 |
| TreeIds.PackCases | arkui_for_android/osal/js_accessibility_manager.h:139-153 | -1 for an id of -1, an id from 2^40 on unchanged, else the tree id in front of 40 bits of element id |
| TreeIds.PackInjective | arkui_for_android/osal/js_accessibility_manager.h:139-153 | in range two pairs with the same packed id are equal |
| TreeIds.PackedIsNew | arkui_for_android/osal/js_accessibility_manager.h:148-152 | under a positive tree id a packed id is non-negative and no bare element id |
| TreeIds.PackIsIdempotent | arkui_for_android/osal/js_accessibility_manager.h:145-147 | an id packed under a positive tree id is left alone by any tree id but -1 |
| TreeRename.AccessibilityElementInfo.UpdateTreeId | arkui_for_android/osal/js_accessibility_manager.cpp:2775-2798 | the in-place update equals the renaming function |
| TreeRename.UpdateElementInfosTreeId | arkui_for_android/osal/js_accessibility_manager.cpp:2800-2825 | every info of the list is renamed, each on its own |
| TreeRename.ChildrenPackedInPlace | arkui_for_android/osal/js_accessibility_manager.cpp:2818-2823 | the remove-then-add loop packs each child id in its place if and only if adding always appends, or no packed id equals another packed id or an id that is packed after it |
| TreeRename.BareIdsPackApart | arkui_for_android/osal/js_accessibility_manager.cpp:2818-2823 | element ids in [0, 2^40) are so kept apart by a tree id in (0, 2^23) if and only if none is repeated |
| TreeRename.RenamedIdsUnpack | arkui_for_android/osal/js_accessibility_manager.cpp:2775-2798 | an info without a positive tree id is left alone; otherwise its id, its parent id unless it is -2100000, and each child id unpack to the new tree id and the old id |
| TreeRename.RenamePreservesLinks | arkui_for_android/osal/js_accessibility_manager.cpp:2775-2825 | parent links, child links with their positions, and identity hold between two infos after renaming if and only if they held before |
| TreeRename.RenameTwice | arkui_for_android/osal/js_accessibility_manager.cpp:2775-2825 | renaming again changes nothing |
| TreeRename.ClashingChildIsLost | arkui_for_android/osal/js_accessibility_manager.cpp:2792-2797 | where adding leaves present ids alone, any element id listed next to its own packed form is lost, though no id is repeated |
| AccessibilityFocus.FocusManager.ActAccessibilityFocus | arkui_for_android/osal/js_accessibility_manager.cpp:1535-1578 | flags and current id change as in one step of the state machine; the result says whether they did |
| AccessibilityFocus.FocusManager.ExecuteAction | arkui_for_android/osal/js_accessibility_manager.cpp:2575-2637 | the node is looked up, saved as the last one, and acted on; the result says whether there is such a node and the action changed the focus |
| AccessibilityFocus.FocusManager.DeregisterInteractionOperation | arkui_for_android/osal/js_accessibility_manager.cpp:2699-2715 | clears the flag of the saved node and all three fields |
| AccessibilityFocus.FocusManager.RegisterInteractionOperation | arkui_for_android/osal/js_accessibility_manager.cpp:2667-2686 | the flag becomes the answer of the platform, unless it is set already |
| AccessibilityFocus.FocusIsUnique | arkui_for_android/osal/js_accessibility_manager.cpp:1535-1578 | all through a run a node that is no web core has its flag set if and only if its id is the current one, exactly for the runs whose deregistrations are all safe |
| AccessibilityFocus.UniqueWithoutDeregister | arkui_for_android/osal/js_accessibility_manager.cpp:1535-1578 | so it is in every run without a deregistration |
| AccessibilityFocus.RegisteredExactly | arkui_for_android/osal/js_accessibility_manager.cpp:2667-2706 | after any run the manager is registered if and only if a registration succeeded and no deregistration came after it |
| AccessibilityFocus.CurrentExactly | arkui_for_android/osal/js_accessibility_manager.cpp:1535-1578 | after any run the current focus is a node if and only if it was focused and since then no other node was, it was not cleared, and the registered manager did not deregister |
| AccessibilityFocus.WebFlagExactly | arkui_for_android/osal/js_accessibility_manager.cpp:1520-1578 | after any run the flag of a web core is set if and only if it was focused and not cleared as the current focus since |
| AccessibilityFocus.DeregisterClearsExactly | arkui_for_android/osal/js_accessibility_manager.cpp:2699-2715 | a deregistration leaves no flag set if and only if there is no current focus, or it is the saved node, or a web core |
| AccessibilityFocus.LastReachingActionDecides | arkui_for_android/osal/js_accessibility_manager.cpp:2623-2632 | after a run of safe deregistrations, whenever the manager was registered, a deregistration is safe if and only if the last action that reached a node since the one before was not a failed clear on a node other than a current focus that is no web core |
| AccessibilityFocus.TwoFocusedNodes | arkui_for_android/osal/js_accessibility_manager.cpp:2628-2631 | a run with a failed clear and a deregistration after which two nodes have their flags set |
| LogQueue.Safety | arkui_for_android/osal/log_wrapper.cpp:77-136 | every reachable state: exclusive mutex, a consumer exactly while the handle is joinable, and an account of every enqueued task in order |
| LogQueue.StepLedger | arkui_for_android/osal/log_wrapper.cpp:77-136 | every step keeps the account: epoch by epoch what ran and then what was discarded, then what ran since, the task in hand, the queue |
| LogQueue.EveryTaskInOnePlace | arkui_for_android/osal/log_wrapper.cpp:77-136 | each enqueued task was run, is in hand, is queued or was discarded, as often as it was enqueued |
| LogQueue.PassedIsEnqueued | arkui_for_android/osal/log_wrapper.cpp:129-136 | in every run the tasks handed in, in the order of getting the mutex, are those enqueued and then the one about to be enqueued |
| LogQueue.PassedIsRunOrWaits | arkui_for_android/osal/log_wrapper.cpp:77-136 | in every run without a discard they are, in order, those that have run, the one in hand, those queued and the one about to be enqueued |
| LogQueue.NoTaskWakeupLost | arkui_for_android/osal/log_wrapper.cpp:81-87 | in every reachable state the consumer is about to sleep only over an empty queue, sleeps over tasks only while a producer is about to notify it, and wakes to an empty queue only when stopped |
| LogQueue.EveryTaskCanRun | arkui_for_android/osal/log_wrapper.cpp:77-92 | as long as the flag is set and there is a consumer, all that was handed in can be run without a further call, message or spurious wakeup |
| LogQueue.QueueIsGuarded | arkui_for_android/osal/log_wrapper.cpp:81-87 | only the owner of the mutex changes the queue |
| LogQueue.FifoBetweenDiscards | arkui_for_android/osal/log_wrapper.cpp:77-92 | in any run without a discard, what ran, the task in hand and the queue grow only at the end, by exactly what is enqueued |
| LogQueue.DiscardsOnlyWhenStopped | arkui_for_android/osal/log_wrapper.cpp:113-118 | tasks are discarded only by a stop, with the flag down, no consumer and no task in hand |
| LogQueue.NothingRunsWhileStopped | arkui_for_android/osal/log_wrapper.cpp:94-120 | from the return of a stop to the next start nothing runs and nothing is discarded |
| LogQueue.StopGetsStuckExactly | arkui_for_android/osal/log_wrapper.cpp:108-115 | a stop called in any reachable state can get stuck if and only if the call finds the flag set |
| LogQueue.StuckExactlyAtRisk | arkui_for_android/osal/log_wrapper.cpp:108-115 | how long it can: always before the flag is stored; then up to the notification only if the consumer has found the wait condition false and not yet gone to sleep; after it only if the consumer is there or asleep; and never in any other state |
| LogQueue.WakeupCanBeMissed | arkui_for_android/osal/log_wrapper.cpp:77-115 | wherever it can, it can without a spurious wakeup and without another call |
| LogQueue.StopCanReturnExactly | arkui_for_android/osal/log_wrapper.cpp:108-120 | in every reachable state a stop under way can return without a further call, message or spurious wakeup if and only if it does not wait for a consumer that sleeps, or is about to, with no producer about to notify it |
| LogQueue.StuckIsReachable | arkui_for_android/osal/log_wrapper.cpp:111-114 | a run of the program reaches a stop that waits for a sleeping consumer |
| LogQueue.StuckStaysStuck | arkui_for_android/osal/log_wrapper.cpp:82-114 | only a producer's notification or a spurious wakeup ends it |
| HttpHeaders.ResponseData.SetHeaders | arkui_for_ios/osal/response_data.cpp:51-69 | the shrinking loop updates the map as the recursive reading does, and terminates on every text |
| HttpHeaders.BlockIsPut | arkui_for_ios/osal/response_data.cpp:51-69 | on CR LF field lines, with a blank line and anything or no further line behind them, the fields are put into the map in order, up to the first with nothing behind its colon |
| HttpHeaders.EveryCrlfTextIsABlock | arkui_for_ios/osal/response_data.cpp:54-57 | every text whose line feeds follow carriage returns is such a block |
| HttpHeaders.AnyCharacterIsCut | arkui_for_ios/osal/response_data.cpp:54-55 | whatever character stands in front of a line feed is cut off like a carriage return |
| HttpHeaders.LeadingLineFeed | arkui_for_ios/osal/response_data.cpp:54-66 | a line feed in front of everything makes the whole text one header |
| HttpHeaders.ThrowsExactly | arkui_for_ios/osal/response_data.cpp:60-64 | on such a text the exception is thrown if and only if some line has nothing behind its first colon |
| HttpHeaders.LastFieldWins | arkui_for_ios/osal/response_data.cpp:61-65 | of the fields with one key the last one is stored; other keys keep what they had |
| HttpHeaders.KeysApart | arkui_for_ios/osal/response_data.cpp:61-65 | the key of colon-free lines is no quoted name, and quoting is injective |
| HttpHeaders.HeadersRecovered | arkui_for_ios/osal/response_data.cpp:51-69 | names and values printed as field lines are recovered, the last duplicate winning: the name between quotes as the key, its value between quotes and brackets |
| HttpHeaders.BareLineStored | arkui_for_ios/osal/response_data.cpp:61-62 | of the lines without a colon the last one is stored under `null`, between quotes and brackets |
| HttpHeaders.OtherKeysKept | arkui_for_ios/osal/response_data.cpp:51-69 | the map is otherwise unchanged |
| HttpHeaders.StoredIsFieldValueExactly | arkui_for_ios/osal/response_data.cpp:51-69 | what is left in the map for a name is the field value, as RFC 9112 defines it, of its last line if and only if one white-space character and no more stands behind the colon and none at the end |
| HttpHeaders.EmptyValueThrows | arkui_for_ios/osal/response_data.cpp:64 | a line with an empty value throws |
| HttpHeaders.FirstCharacterIsLost | arkui_for_ios/osal/response_data.cpp:64 | a one-character value right behind the colon is stored as the empty text |

## Left out

- Characters outside ASCII count as neither letters nor digits in GN text; Python's `isalpha` and `isdigit` accept more. Python's limit on the length of decimal numerals is not modelled.
- The texts of `GNException` messages: the parse errors are told apart by kind only. Dictionary keys that are not strings are ruled out by the type.
- Virtual nodes, isolated components, UI extensions and web nodes outside the window: they rest on headers that are not part of this model. The parent field of element infos is covered by `ParentLinks` on chains of ancestors, because the nodes are values without parent pointers.
- `GetChildren(true)` and `GetChildren()` are taken to return the same children. Page and stage tags are taken to be `page` and `stage`.
- `AccessibilityElementInfo` is not part of this model beyond its ids: `RemoveChild` removes the first equal id; `AddChild` appends always or only if absent, and the results say what holds for which.
- `SetAccessibilityGroupSpecific` on iOS: the group flag of a node is taken as it stands after that call.
- UI trees are immutable values with unique accessibility ids, as the framework assigns them; in the component listings and the iOS search the ids fit 32 bits and none is the default element id -1 (for iOS). Without unique ids the recursions through lookups need not terminate.
- LogQueue is a state machine on values rather than on objects shared by threads; the memory model, `std::thread` failures by exception and the text formatting of `PassLogMessage` are not modelled. That a stop returns under every schedule is not claimed: `StopCanReturnExactly` is about some schedule.
- AccessibilityFocus: the tree does not change during a run; a registration whose sub window is gone changes nothing and is no step; the node-table path (`RequestAccessibilityFocus`, `ClearCurrentFocus`) is the same machine without the saved element and would add only easy members.
- HttpHeaders: in a map assignment the right-hand side is taken to be evaluated first, so a throwing line stores nothing. Texts are shorter than the largest `size_t`.
- JSON building, JNI and Objective-C bridges, task executors, event and action conversion tables, windows, pixel maps, resource adapters and the other platform glue.
