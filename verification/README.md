# A Dafny model of sc-machine

sc-machine keeps knowledge in *sc-memory*: nodes, links, and connectors that join any two elements,
connectors included. Lists, templates, actions, identifiers and translations are all written into this
one graph, and erasing an element takes every connector on it along, and every connector on those. This
project models the code that does so and proves what that code keeps.

Memory is a finite map from addresses to elements (`ScGraph`). An element has sixteen type bits, two
endpoints if it is a connector, and content if it is a link. `ScMemory` is the object that everything
else changes in place: it generates nodes, links and connectors under some address not in use, and
erases with the cascade. An iterator is an arbitrary choice among the matching connectors, so what is
proved holds for every order in which memory could yield them; a loop that erases what it finds asks
again after every erasure.

| file | what it models |
|---|---|
| `ScTypes`, `ScGraph`, `ScRollback`, `ScText`, `Orbits`, `Wrappers` | type bits, memory and its cascade, undoing in order of creation, decimal text, iteration over finitely many positions, optional values |
| `OrientedChain`, `OrientedWorld`, `OrientedSteps`, `OrientedSet`, `OrientedRefinement` | `ScOrientedSet`: a list as arcs between arcs |
| `ScsDocument`, `ScsWriter`, `ScsMeaning`, `ScsOrder` | the SCg-to-SCs writer with nested contours: what it writes, what that says, and when the order of its maps matters |
| `TemplateItems`, `TemplateGen`, `TemplateSearch` | templates: their maps, generation with rollback, the preparation of a search |
| `CommandInstance` | instances of user interface commands |
| `SequenceOrder` | the order in which the SCn translator shows arcs |
| `PermissionLog`, `Permissions` | permission tables shared between manager and contexts, and the access decision |
| `SystemIdentifiers`, `ScAction` | identifiers and the action lifecycle over memory |
| `Demangle`, `Modules`, `RepoPaths` | class names, extension modules, repo path files |

## What the proofs found

Each of these is a lemma or a contract below, for all inputs.

- `ScOrientedSet::Append` of an element that does not exist throws *after* it has erased the
  `rrel_last` arc. The chain survives if and only if the set was empty
  (`OrientedRefinement.FailedAppendBreaksTheChain`). The same holds of an arc type without the bits of a
  positive constant arc, which makes no member (`OrientedRefinement.AppendNeedsAPositiveArc`); and `Reset`
  only sees a head whose mark is also permanent (`OrientedSet.ScOrientedSet.Reset`).
- Without contours, the SCs writer succeeds or throws whatever the order of its maps
  (`ScsOrder.OrderDoesNotMatter`). A contour is written as a whole, so a connector inside it cannot wait
  for an element outside (`ScsOrder.ContourOrderMatters`): a list goes through in every order if and only
  if it goes through in one and every contour of it goes through alone (`ScsOrder.WriteInEveryOrder`), and
  in every order at every depth if and only if that holds at every depth (`ScsOrder.WriteInEveryDeepOrder`).
- The SCs writer merges elements: a variable node `x` and a variable node `_x` become one
  (`ScsMeaning.VariablesMerge`). Where ids stay distinct, exactly those elements are merged whose
  identifiers are equal, or differ by the '_' that a variable gets (`ScsDocument.OneNameByIdentifiers`); a
  variable and a constant of one unmarked identifier stay apart. All others can be told apart by what is
  written (`ScsMeaning.StatementsDetermine`).
- Two typed items under one name are two elements in a generated template
  (`TemplateGen.TypedTwiceIsTwoElements`). Items of one name have one address if and only if every two
  definitions of the name are fixed to one (`TemplateGen.EqualNamesEqualAddresses`).
- `FindCycleWithFAATriple` prunes by triples that other branches have checked, in the order of a set. It
  misses nothing by that, as long as items of one address have one name: it finds a cycle if and only if a
  way back passes no triple twice (`TemplateSearch.ScTemplateSearch.IsCycled`). Two names for one address
  are another matter, since the code also compares addresses: a template that `Triple` accepts has a cycle
  that is found in one order of the set and missed in another (`TemplateSearch.OrderDecides`).
- `Demangle` does not end on every string. A length that wraps the position around sends it back to
  where it was, as with `18446744073709551596` (`Demangle.WrapsForEver`). It ends if and only if it never
  comes back to a position (`Demangle.EndsUnlessItReturns`); for that it has to come to a number whose end
  wraps around (`Demangle.EndsOrWraps`), so it ends on every string whose numbers fit
  (`Demangle.NumbersThatFitEnd`), and on every mangled name.
- Local permissions never go stale, but what is granted or revoked globally while the user has a context
  is forgotten when that context is freed (`Permissions.GlobalChangesAreForgotten`).
- `SetArgument` takes from other relations exactly the arcs that they share with the one it sets
  (`ScAction.OtherArgumentsStay`).
- The expression that checks system identifiers is not anchored (`SystemIdentifiers.NotAnchored`) and
  takes its quotation marks literally, so one letter or digit anywhere makes a string valid and underscores
  alone make none (`SystemIdentifiers.UnderscoresAndDotsAreRefused`).
- The SCn translator leaves arcs out unless they fill a segment of their sequence
  (`SequenceOrder.ShownIffSegment`). On a cyclic sequence it does not end if all of its arcs are in the
  list (`SequenceOrder.CyclicInput`), and ends if one is not (`SequenceOrder.CycleEndsIffItLeaves`).

## Model

| member | source | states |
|---|---|---|
| ScGraph.ScMemory.EraseElement | sc-memory/sc-core/src/sc-store/sc_storage.c:699-780 | the breadth-first erasure removes exactly the cascade of the element, keeps every remaining connector's ends alive, and does nothing for an address that is not in use |
| ScGraph.CascadeLeast | sc-memory/sc-core/include/sc-core/sc_memory.h:225-230 | the cascade is the least set over its roots that is closed under "a connector with an end in it is in it" |
| ScGraph.DelDel | sc-memory/sc-core/include/sc-core/sc_memory.h:225-230 | erasing one thing after another is erasing them together, so the order of erasures does not matter |
| OrientedSet.ScOrientedSet.Reset | sc-memory/sc-memory/src/sc_oriented_set.cpp:167-180 | the cursor is on the head of the chain, or nowhere when there is none that a permanent mark shows |
| OrientedSet.ScOrientedSet.Next | sc-memory/sc-memory/src/sc_oriented_set.cpp:137-165 | the i-th call yields the i-th element with its roles, rrel_1 on the first only and rrel_last on the last only, then Empty for ever |
| OrientedSet.ScOrientedSet.ForEach | sc-memory/sc-memory/src/sc_oriented_set.cpp:137-180 | Reset and repeated Next yield exactly the sequence |
| OrientedSet.ScOrientedSet.GetLast | sc-memory/sc-memory/src/sc_oriented_set.cpp:182-190 | the last element of the sequence, Empty for an empty set |
| OrientedSet.ScOrientedSet.AppendElement | sc-memory/sc-memory/src/sc_oriented_set.cpp:27-52 | succeeds exactly when the element exists; then the chain has grown by one arc at its end, with marks and links where they belong and all other sets untouched, and, whatever the type, memory is the one before without the tail's mark and what hung on it, plus the new arc with its marks and link; when the element does not exist only that mark and what hung on it are gone |
| OrientedSet.ScOrientedSet.Append | sc-memory/sc-memory/src/sc_oriented_set.cpp:14-18 | the world of oriented sets stays well formed when the element exists and the type is one of a member, with memory known exactly, and loses the tail mark and what hung on it when the element does not exist |
| OrientedSet.ScOrientedSet.AppendWithRole | sc-memory/sc-memory/src/sc_oriented_set.cpp:20-25 | the same with one more role arc on the new member; when the role does not exist the member stays without it |
| OrientedSet.ScOrientedSet.Remove | sc-memory/sc-memory/src/sc_oriented_set.cpp:54-135 | false exactly when no member arc of the type leads to the element, and then nothing changes; otherwise one occurrence goes with all that hangs on it, the gap is closed, and memory has no other change |
| OrientedRefinement.ChainIsUnique | sc-memory/sc-memory/src/sc_oriented_set.cpp:27-52 | memory holds at most one chain for a set, so the sequence is determined by the arcs |
| OrientedWorld.WorldBegins | sc-memory/sc-memory/src/sc_oriented_set.cpp:6-10 | a memory with the three keynodes is a world without sets |
| OrientedWorld.WorldNewSet | sc-memory/sc-memory/src/sc_oriented_set.cpp:6-10 | a set without members joins a well-formed world |
| OrientedRefinement.AppendRefines | sc-memory/sc-memory/src/sc_oriented_set.cpp:27-52 | Append is snoc on the sequence of its set and the identity on all others |
| OrientedRefinement.RemoveRefines | sc-memory/sc-memory/src/sc_oriented_set.cpp:54-135 | Remove deletes one occurrence from the sequence of its set, keeps the order of the rest, and is the identity on all others |
| OrientedRefinement.AppendKeepsRoles | sc-memory/sc-memory/src/sc_oriented_set.cpp:27-52 | after an Append of an element that is no member arc, the members of every set have exactly the roles they had, those apart that are keynodes or connectors |
| OrientedRefinement.RemoveKeepsRoles | sc-memory/sc-memory/src/sc_oriented_set.cpp:54-135 | the same after Remove, for every member that is still there |
| OrientedRefinement.FailedAppendBreaksTheChain | sc-memory/sc-memory/src/sc_oriented_set.cpp:27-38 | after an Append that failed the set has a chain if and only if it was empty |
| OrientedRefinement.AppendNeedsAPositiveArc | sc-memory/sc-memory/src/sc_oriented_set.cpp:27-52 | an arc whose type lacks the bits of a positive constant arc makes no member, and leaves a chain if and only if the set was empty |
| ScsDocument.AliasesAreConnectors | sc-tools/sc-builder/src/sc_scs_writer.cpp:18-21 | exactly the connectors are named by aliases, and no two by one, when ids stay distinct after '-' becomes '_' |
| ScsDocument.OneName | sc-tools/sc-builder/src/sc_scs_writer.cpp:49-93 | two elements have one name exactly when neither is a connector and either both identifiers can be spelled and are equal, or differ by the '_' that a variable gets (a variable and a constant with one unmarked identifier stay apart), or both names are generated, with one variability and with ids that differ in dashes only |
| ScsDocument.OneNameByIdentifiers | sc-tools/sc-builder/src/sc_scs_writer.cpp:49-93 | with ids distinct after '-' becomes '_': exactly when both are no connectors, both have an identifier that sc.s can spell, and these are equal or differ by the '_' of a variable |
| ScsDocument.NameIs | sc-tools/sc-builder/src/sc_scs_writer.cpp:40-93 | a spellable identifier is the name as it is, with '_' in front for a variable whose identifier does not begin so; other names are "..el_" or, for variables, ".._el_" and the id, and "@connector_" and the id for connectors |
| ScsDocument.SpellingIsSafe | sc-tools/sc-builder/src/sc_scs_writer.cpp:34-38 | an identifier can be spelled exactly when it is not empty and holds letters, digits and underscores alone |
| ScsDocument.VariableTypes | sc-tools/sc-builder/src/sc_scs_writer.cpp:23-26 | a type is variable exactly when it holds "/var/" |
| ScsDocument.DashesReplaced | sc-tools/sc-builder/src/sc_scs_writer.cpp:18-21 | dashes become underscores, and no other character changes |
| ScsWriter.WriteConnector | sc-tools/sc-builder/src/sc_scs_element.cpp:168-217 | throws exactly when sc.s has no type; otherwise the statements bind one alias, unbound before, to the connector with both its ends |
| ScsWriter.WriteElement | sc-tools/sc-builder/src/sc_scs_element.cpp:220-244 | a contour is written as one block that holds exactly what is inside it; any other element is declared once, under its name, with the type or content the document gives it |
| ScsWriter.WriteDeferred | sc-tools/sc-builder/src/sc_scs_writer.cpp:137-169 | the passes over the waiting connectors end, write exactly the least fixpoint of "both endpoints written", and throw exactly when some connector is outside it or has no type |
| ScsWriter.Write | sc-tools/sc-builder/src/sc_scs_writer.cpp:95-170 | on success, nested contours included, executing the statements in order never meets an unbound alias and takes the meaning of what was written before to that of what is written now, each new element emitted once and as the document has it; every contour, at every depth, has a block that holds exactly what is inside it |
| ScsWriter.WriteCovers | sc-tools/sc-builder/src/sc_scs_writer.cpp:95-170 | a call that does not throw has written every element but buses, at every depth |
| ScsWriter.GrowLeast | sc-tools/sc-builder/src/sc_scs_writer.cpp:137-164 | the fixpoint is contained in every set over the start that has each connector with both ends in it |
| ScsMeaning.WriteEnds | sc-tools/sc-builder/src/sc_scs_writer.cpp:111-158 | whatever a call writes, both ends of each connector among it are written, at every depth |
| ScsMeaning.MeaningPreserved | sc-tools/sc-builder/src/sc_scs_writer.cpp:95-170 | the statements of a successful translation, run from scratch, rebuild exactly the connectors of the trees, each under an alias no other element has, with its type and with names that stand for its source and its target and for no other element but those merged with them; each element is emitted once, and what is inside a contour, at every depth, in the block of that contour |
| ScsMeaning.Translate | sc-tools/sc-builder/src/sc_scs_writer.cpp:95-170 | the same as the contract of a call that starts with nothing written; and each element written has a statement that carries its own name, spelled as it is where sc.s can spell it, with its type, its content by kind, or the names of its ends and its token |
| ScsMeaning.StatementOf | sc-tools/sc-builder/src/sc_scs_element.cpp:44-217 | whatever is emitted, at any depth, is emitted by a statement that names it by its identifier and describes it: a type for a node, the content of a link with its kind and the mark of a variable, both ends for a connector |
| ScsMeaning.StatementsDetermine | sc-tools/sc-builder/src/sc_scs_writer.cpp:95-170 | where no two elements are merged, two documents with the same names whose translations build the same have the same connectors with the same sources, targets and types |
| ScsMeaning.VariablesMerge | sc-tools/sc-builder/src/sc_scs_writer.cpp:65-69 | variable nodes "x" and "_x" get one name, and arcs from them one source |
| ScsOrder.FlatWrite | sc-tools/sc-builder/src/sc_scs_writer.cpp:104-169 | without contours the writer succeeds if and only if every node without content and every connector has a type in sc.s, every link content of a known kind, and every connector lies in the least fixpoint, and then has written that fixpoint |
| ScsOrder.OrderDoesNotMatter | sc-tools/sc-builder/src/sc_scs_writer.cpp:104-169 | without contours the outcome is the same for every order of the element map |
| ScsOrder.WriteMonotone | sc-tools/sc-builder/src/sc_scs_writer.cpp:95-170 | a call that succeeds succeeds also when more has been written before, at every depth |
| ScsOrder.WriteInOrder | sc-tools/sc-builder/src/sc_scs_writer.cpp:95-170 | a list that goes through and whose contours go through alone goes through in any order, and the same elements are written |
| ScsOrder.WriteInEveryOrder | sc-tools/sc-builder/src/sc_scs_writer.cpp:95-170 | a list goes through in every order if and only if it goes through in the given one and every contour of it goes through alone |
| ScsOrder.WriteInEveryDeepOrder | sc-tools/sc-builder/src/sc_scs_element.cpp:220-244 | with the elements of every contour, at every depth, in any order as well: a list goes through in all orders if and only if it goes through in the given one and what is inside every contour, at every depth, goes through alone |
| ScsOrder.ContourOrderMatters | sc-tools/sc-builder/src/sc_scs_element.cpp:230-244 | with a contour the same document goes through in one order and throws in another |
| TemplateItems.ScTemplate.Triple | sc-memory/sc-memory/src/sc_template.cpp:329-407 | refuses exactly equal connector names, constant types and invalid addresses; otherwise the three items are entered in order, each as it is or, under the name of an address, as the address last given under that name, and the maps index the first definition and the last address of every name |
| TemplateItems.ScTemplate.Quintuple | sc-memory/sc-memory/src/sc_template.cpp:409-431 | two triples, the second of which ends in the connector of the first under its own or a generated name; an unnamed connector is what its generated name stands for, unless an earlier item had that name; throws exactly on equal names around either connector, constant types and invalid addresses |
| TemplateItems.GeneratedNamesDiffer | sc-memory/sc-memory/src/sc_template.cpp:417-429 | connectors without a name get different names at different positions |
| TemplateGen.ScTemplateGenerator.PreCheck | sc-memory/sc-memory/src/sc_template_gen.cpp:241-319 | throws exactly when some parameter names no item, by its name or by that of its variable, does not exist, has a type that the constant form of the item's type cannot be extended to, or is a connector with other ends than the addresses and parameters of its neighbours |
| TemplateGen.ScTemplateGenerator.GenerateTriple | sc-memory/sc-memory/src/sc_template_gen.cpp:42-108 | when a triple throws, and what it leaves otherwise: a connector of the up-const type between what was found or newly generated for its ends, and nothing else |
| TemplateGen.ScTemplateGenerator.CleanupCreatedElements | sc-memory/sc-memory/src/sc_template_gen.cpp:113-118 | erasing in creation order, some elements gone already by the cascade, restores memory exactly, and no step takes an older element |
| TemplateGen.Generate | sc-memory/sc-memory/src/sc_template_gen.cpp:328-351 | failure leaves memory as it was; success only adds elements, every triple of the result is a connector between its ends, a sound template is embedded, all that was made stands for a typed item in its constant form, and the result is one that a run over the triples reaches; it fails whenever a parameter does not fit, and otherwise only where a run comes to a triple that throws |
| TemplateGen.ReachedIsMade | sc-memory/sc-memory/src/sc_template_gen.cpp:97-108 | every element that a run makes has the constant bit, not the variable one, and otherwise the bits of the type of its item, as a node at the ends of a triple and as a connector in the middle |
| ScTypes.ConstantForm | sc-memory/sc-memory/src/sc_type.cpp:86-95 | UpConstType sets the constant bit, clears the variable one and keeps all others |
| ScTypes.MadeConstantAgrees | sc-memory/sc-memory/src/sc_type.cpp:86-95 | on every mask beside the constancy, and beside the kind of a node, such a type reads like the one it was made of |
| TemplateGen.ResultIsGiven | sc-memory/sc-memory/src/sc_template_gen.cpp:142-186 | in the result of a sound template an item is the value of the parameter under its name or under the identifier of the variable it spells, else its own address, else the first definition of its name, else new |
| TemplateGen.NeverFails | sc-memory/sc-memory/src/sc_template_gen.cpp:42-108 | no run comes to a triple that throws when the given elements exist, replacements name items of earlier triples, and types can be generated |
| TemplateGen.ResultIsImage | sc-memory/sc-memory/src/sc_template_gen.cpp:36-111 | the result of a sound template is its image under one map from names to addresses: given items go to the given addresses and every triple to a connector between the images of its ends |
| TemplateGen.DefinedTwice | sc-memory/sc-memory/src/sc_template_gen.cpp:164-185 | two items that are no replacements get one address if and only if both are fixed to it, by a parameter or an address |
| TemplateGen.EqualNamesEqualAddresses | sc-memory/sc-memory/src/sc_template_gen.cpp:164-185 | all items of one name have one address if and only if every two definitions of a name are fixed to one address |
| TemplateGen.ConsistentHasOneDefinition | sc-memory/sc-memory/src/sc_template.cpp:370-391 | that is so, whatever the parameters, when under each name there is one address or one type |
| TemplateGen.TypedTwiceIsTwoElements | sc-memory/sc-memory/src/sc_template_gen.cpp:97-103 | two typed items under a name that nothing is given for get two elements |
| TemplateSearch.KeyInjective | sc-memory/sc-memory/src/sc_template_search.cpp:416-421 | name, '_' and decimal index determine name and index |
| TemplateSearch.ScTemplateSearch.SetUpDependenciesBetweenTriples | sc-memory/sc-memory/src/sc_template_search.cpp:69-126 | for every named item, exactly the other triples with an item of that name are recorded |
| TemplateSearch.ScTemplateSearch.FindConnectivityComponents | sc-memory/sc-memory/src/sc_template_search.cpp:259-270 | the sets are disjoint, cover the triples, and hold two triples together exactly when a chain of shared names leads from one to the other |
| TemplateSearch.ScTemplateSearch.FindConnectivityComponentByItem | sc-memory/sc-memory/src/sc_template_search.cpp:291-321 | what the search adds is connected to its start and has no unchecked neighbour left |
| TemplateSearch.ScTemplateSearch.FindCycleWithFAATriple | sc-memory/sc-memory/src/sc_template_search.cpp:201-257 | ends on every template; what it finds is a way back, and where items of one address have one name it finds one if and only if there is one by another name that passes no checked triple and no triple twice, for every order of the sets and whatever siblings were checked before |
| TemplateSearch.ScTemplateSearch.IsCycled | sc-memory/sc-memory/src/sc_template_search.cpp:165-181 | where items of one address have one name, the outermost call finds a cycle if and only if a way back to the triple passes no triple twice after its first item |
| TemplateSearch.NoSiblingLater | sc-memory/sc-memory/src/sc_template_search.cpp:244-255 | a shortest way back comes to no triple that an earlier sibling may have marked, unless it begins at the triple to find and turns there |
| TemplateSearch.TurnedLeads | sc-memory/sc-memory/src/sc_template_search.cpp:244-255 | then it can be walked the other way round up to that turn, from the sibling that was tried first |
| TemplateSearch.PastIsEnough | sc-memory/sc-memory/src/sc_template_search.cpp:201-257 | a way back that does not meet the triple to find in between is found even when it passes others twice |
| TemplateSearch.OrderDecides | sc-memory/sc-memory/src/sc_template_search.cpp:201-257 | where two names stand for one address, one order of the triples finds a way back and another misses it |
| TemplateSearch.TwoNamesTemplate | sc-memory/sc-memory/src/sc_template.cpp:329-407 | `Triple` accepts the triples of that template |
| CommandInstance.CollectItems | sc-kpm/sc-ui/src/uiCommands.cpp:132-196 | invalid exactly when a keynode stands for an argument that is missing; otherwise constants, arguments and new nodes are mapped and the variable arcs queued |
| CommandInstance.ProcessArcs | sc-kpm/sc-ui/src/uiCommands.cpp:215-249 | the worklist ends; the mapped elements are the least set over the nodes that has every arc between its elements, each arc drawn once between the images of its ends |
| CommandInstance.GenerateInstance | sc-kpm/sc-ui/src/uiCommands.cpp:132-262 | with a missing argument memory is as before; otherwise the i-th keynode stands for the i-th argument, other constants for themselves, variable nodes for new constant nodes and variable arcs for new constant arcs between what their ends stand for, and the contour contains exactly the images |
| CommandInstance.MissingIsLacking | sc-kpm/sc-ui/src/uiCommands.cpp:173-196 | the template is invalid exactly when some constant of it is the i-th keynode and there are no more than i arguments |
| CommandInstance.NothingLeftOver | sc-kpm/sc-ui/src/uiCommands.cpp:251-252 | the worklist ends empty if and only if ranks found every variable arc on constants, arguments and variable nodes: each end is one of these or an arc of lower rank |
| SequenceOrder.OrderArcs | sc-kpm/sc-ui/src/translators/uiSc2SCnJsonTranslator.cpp:358-432 | whenever no walk comes back, both walks end; the result is a walk back as far as the list goes, turned round, and a walk on, or the list itself when its first arc is in no sequence |
| SequenceOrder.OrderRow | sc-kpm/sc-ui/src/translators/uiSc2SCnJsonTranslator.cpp:358-432 | on a sequence that ends, or a cyclic one that leaves the list, the result is the longest run of the sequence through the first arc inside the list |
| SequenceOrder.EndsUnlessItReturns | sc-kpm/sc-ui/src/translators/uiSc2SCnJsonTranslator.cpp:372-396 | the rounds of a walk are bounded, whatever the iterators find first, if and only if no walk within the list comes back to where it has been |
| SequenceOrder.CycleEndsIffItLeaves | sc-kpm/sc-ui/src/translators/uiSc2SCnJsonTranslator.cpp:372-396 | on a cyclic sequence a walk ends if and only if some arc of the sequence is not in the list |
| SequenceOrder.CyclicInput | sc-kpm/sc-ui/src/translators/uiSc2SCnJsonTranslator.cpp:372-396 | a well-formed memory where the output arcs of one element are two that follow each other: neither walk over them ends |
| SequenceOrder.SegmentIsRun | sc-kpm/sc-ui/src/translators/uiSc2SCnJsonTranslator.cpp:362-425 | arcs that fill a segment come out as that segment, whichever the unordered list began with |
| SequenceOrder.ShownIffSegment | sc-kpm/sc-ui/src/translators/uiSc2SCnJsonTranslator.cpp:383-415 | all arcs are shown if and only if they fill a segment |
| PermissionLog.BitIsLastOperation | sc-memory/sc-core/src/sc_memory_context_permissions.c:126-174 | after any run a bit of (user, structure) is set if and only if the last operation on it was a grant |
| Permissions.ContextManager.AddLocalPermissions | sc-memory/sc-core/src/sc_memory_context_permissions.c:126-210 | adds one grant to the run and keeps every registered context on the very table stored for its user |
| Permissions.ContextManager.RemoveLocalPermissions | sc-memory/sc-core/src/sc_memory_context_permissions.c:157-219 | adds one revocation to the run, creates no table, and keeps the sharing |
| Permissions.ContextManager.OnUsersSetChanged | sc-memory/sc-core/src/sc_memory_context_permissions.c:391-480 | the user's masks gain or lose exactly the bits of the set's masks, structure by structure, the global mask of the user's context, or else the stored one, those of the set's global mask, and nothing else changes |
| Permissions.ContextManager.ChangeUsersSetPermissions | sc-memory/sc-core/src/sc_memory_context_permissions.c:482-506 | the members and the set itself are changed at one structure, in any order and however often they occur, and nothing else |
| Permissions.ContextManager.ChangeGlobalPermissions | sc-memory/sc-core/src/sc_memory_context_permissions.c:70-118 | changes the mask of the context when there is one and the stored mask only otherwise |
| Permissions.ContextManager.ResolveContext | sc-memory/sc-core/src/sc_memory_context_manager.c:118-189 | the registered context with one more reference, or a new one on the stored table and mask; permissions do not change |
| Permissions.ContextManager.FreeContext | sc-memory/sc-core/src/sc_memory_context_manager.c:191-215 | unregisters at the last reference, with the 32-bit count wrapping below zero; permissions do not change |
| Permissions.ContextSeesEveryChange | sc-memory/sc-core/src/sc_memory_context_manager.c:131-138 | what a registered context sees is, bit by bit, the outcome of all operations for its user |
| Permissions.GlobalChangesAreForgotten | sc-memory/sc-core/src/sc_memory_context_permissions.c:102-118 | whatever global grants and revocations are made while a context is registered, the context sees them all and none of them is left after it is freed |
| Permissions.CheckLocalPermissions | sc-memory/sc-core/src/sc_memory_context_permissions.c:1309-1344 | permitted outside the user mode and for system contexts; otherwise unknown exactly when no permitted structure holds the element by a constant positive arc, or there is no table, and permitted exactly when one of those structures gives every required bit, for every order of the iterator |
| Permissions.CheckLocalAndGlobalPermissions | sc-memory/sc-core/src/sc_memory_context_permissions.c:1361-1373 | granted if and only if the context is a system one, or a permitted structure around the element gives every required bit, or no permitted structure has a say and the global mask gives every required bit |
| PermissionLog.SubsetIsBitwise | sc-memory/sc-core/src/sc_memory_context_permissions.c:52-53 | a mask has the required permissions exactly when it has every bit of them |
| SystemIdentifiers.SystemIdentifiers.FindElementBySystemIdentifier | sc-memory/sc-core/src/sc_helper.c:202-268 | finds an element that bears the name whenever there is one, over all links with that content |
| SystemIdentifiers.SystemIdentifiers.SetSystemIdentifier | sc-memory/sc-core/src/sc_helper.c:275-334 | names one element more and changes no other name; a used or invalid name changes nothing; no name ever belongs to two elements |
| SystemIdentifiers.SystemIdentifiers.ResolveSystemIdentifier | sc-memory/sc-core/src/sc_helper.c:367-398 | the element of the name, or a new node that bears it; memory is unchanged when the name was known |
| SystemIdentifiers.ResolveTwice | sc-memory/sc-core/src/sc_helper.c:367-398 | resolving a second time yields the same address and leaves memory alone |
| SystemIdentifiers.ErasureKeepsUnique | sc-memory/sc-core/src/sc_helper.c:227-258 | an erasure only takes names away, and only where it erases |
| SystemIdentifiers.NotAnchored | sc-memory/sc-core/src/sc_helper.c:163-176 | a string that is accepted as an identifier is accepted with anything before and after it |
| SystemIdentifiers.WhatIsValid | sc-memory/sc-core/src/sc_helper.c:163-176 | a string is accepted exactly when it holds a letter or digit, or two quotation marks around one character |
| SystemIdentifiers.UnderscoresAndDotsAreRefused | sc-memory/sc-core/include/sc-core/sc_helper.h:10 | a string of underscores and dots alone is refused |
| ScAction.NewAction | sc-memory/sc-memory/src/sc_action.cpp:154-201 | a new node beside the keynodes is where a lifecycle begins |
| ScAction.ScAction.Initiate | sc-memory/sc-memory/src/sc_action.cpp:184-201 | succeeds exactly once, before the end, by one arc |
| ScAction.ScAction.SetResult | sc-memory/sc-memory/src/sc_action.cpp:130-152 | the three outcomes, and that erasing the result set before, with its cascade, spares the lifecycle |
| ScAction.ScAction.Finish | sc-memory/sc-memory/src/sc_action.cpp:203-240 | succeeds exactly after initiation, before the end, and when no other live result was set than memory has; then exactly one end state, the requested one, and exactly one result: that of memory, else the one set last if it is alive, else a new structure |
| ScAction.ScAction.GetResult | sc-memory/sc-memory/src/sc_action.cpp:105-128 | refused exactly before the end, otherwise the end of the one result arc |
| ScAction.ErasureAside | sc-memory/sc-memory/src/sc_action.cpp:154-240 | erasing anything that is no part of the lifecycle leaves its state and result arcs as they are |
| ScAction.ScAction.GetArgument | sc-memory/sc-memory/src/sc_action.cpp:75-84 | the argument under the relation, the default when there is none |
| ScAction.ScAction.SetArgument | sc-memory/sc-memory/src/sc_action.cpp:91-103 | succeeds exactly when the argument exists and does not hang on what was set before; memory is then the one before without the arcs the relation marked and what hangs on them, plus the argument's arc and its mark, and otherwise without them |
| ScAction.OtherNodeArgumentStays | sc-memory/sc-memory/src/sc_action.cpp:91-103 | a node under another relation is never taken along |
| ScAction.OtherArgumentsStay | sc-memory/sc-memory/src/sc_action.cpp:91-103 | setting one relation takes from another that has nodes under it exactly the arcs that both mark; the rest stay with their values |
| ScAction.SetThenGet | sc-memory/sc-memory/src/sc_action.cpp:75-103 | GetArgument after SetArgument yields what was set, and under another relation what it would have yielded before |
| Demangle.Demangle | sc-memory/sc-memory/src/sc_object.cpp:23-58 | computes the parse, with 64-bit lengths, whenever the parse ends |
| Demangle.EndsSoonOrNever | sc-memory/sc-memory/src/sc_object.cpp:31-55 | the parse ends within as many parts as the string has positions, or never |
| Demangle.EndsUnlessItReturns | sc-memory/sc-memory/src/sc_object.cpp:31-55 | it ends if and only if it never comes back to a position it has been at |
| Demangle.EndsOrWraps | sc-memory/sc-memory/src/sc_object.cpp:31-55 | a parse that does not end has come to a number whose end `size_t` cannot hold |
| Demangle.NumbersThatFitEnd | sc-memory/sc-memory/src/sc_object.cpp:37-42 | when every number in the string is smaller than the capacity of `size_t` by the length of the string, it ends |
| Demangle.DemangleFitting | sc-memory/sc-memory/src/sc_object.cpp:23-58 | under that condition the code computes the parse |
| Demangle.WrapsForEver | sc-memory/sc-memory/src/sc_object.cpp:37-48 | a name on which it never ends |
| Demangle.DemangleInvertsNested | sc-memory/sc-memory/src/sc_object.cpp:23-58 | length-prefixed names between N and E (section 5.1 of the Itanium C++ ABI) come back joined by "::" |
| Demangle.DemangleInvertsSimple | sc-memory/sc-memory/src/sc_object.cpp:23-58 | length-prefixed names without N and E come back joined by "::" as well, one name as it is |
| Demangle.WrappedPart | sc-memory/sc-memory/src/sc_object.cpp:44-50 | a name whose end wraps around is the rest of the string |
| Demangle.TooLongComesBack | sc-memory/sc-memory/src/sc_object.cpp:44-50 | a name whose last length reaches past its end comes back unchanged, whatever was parsed before |
| ScText.DigitsInOrder | sc-memory/sc-memory/src/sc_object.cpp:37-42 | the characters from 0 to 9 have their values in order |
| Modules.Extensions.Collect | sc-memory/sc-core/src/sc_memory_ext.c:66-147 | the list holds exactly the usable modules, those of lower priority first and those of equal priority by the dictionary order of their paths |
| Modules.Extensions.InitializeAll | sc-memory/sc-core/src/sc_memory_ext.c:171-191 | every module is initialised in list order, and shut down at once when that fails |
| Modules.InitialisedInOrder | sc-memory/sc-core/src/sc_memory_ext.c:171-191 | the initialisers are called in list order, and a module is shut down only right after its own initialiser |
| Modules.Extensions.ShutdownAll | sc-memory/sc-core/src/sc_memory_ext.c:194-213 | the open modules are shut down in the exact reverse of the list |
| Modules.SortedBackIsReversed | sc-memory/sc-core/src/sc_memory_ext.c:43-59 | with distinct paths the order by `sc_priority_great` is the reverse of that by `sc_priority_less` |
| Modules.CompareIsDictionaryOrder | sc-memory/sc-core/src/sc_memory_ext.c:43-54 | paths compare as in a dictionary: by the first character that differs, or by which one ends there |
| Modules.EveryModuleOnce | sc-memory/sc-core/src/sc_memory_ext.c:171-213 | over a run every module is initialised once and shut down once |
| Modules.ShutdownIsReversed | sc-memory/sc-core/src/sc_memory_ext.c:194-209 | modules that initialised are shut down in the reverse of that order |
| RepoPaths.ParseRepoPath | sc-tools/sc-builder/src/sc_repo_path_collector.cpp:85-125 | on acyclic inclusion: the initial and all listed paths, without all excluded ones, wherever the lines stand |
| RepoPaths.LineOrderDoesNotMatter | sc-tools/sc-builder/src/sc_repo_path_collector.cpp:98-121 | what is listed and excluded is the same for every order of the lines |
| RepoPaths.CollectBuildSourcesBelow | sc-tools/sc-builder/src/sc_repo_path_collector.cpp:127-162 | exactly the source files with a way down on which nothing is excluded |
| RepoPaths.CollectBuildSources | sc-tools/sc-builder/src/sc_repo_path_collector.cpp:164-181 | those below a directory, or below all listed paths; throws exactly when a listed path is none of excluded, source file and directory |

## Left out

- OrientedSet.ScOrientedSet.AppendElement: elements that hang on an arc of a set (its marks, for instance) are left out, since erasing a mark may take the element along.
- OrientedSet.ScOrientedSet.Append: the same.
- OrientedSet.ScOrientedSet.AppendWithRole: the same, and the roles `rrel_1` and `rrel_last` and roles that are sets, which would mark a second head or tail.
- OrientedSet.ScOrientedSet.Remove: arc types without the bits of a positive constant arc, such as the unknown type, are left out; they make `Remove` find arcs that are no members.
- TemplateSearch.ScTemplateSearch.FindCycleWithFAATriple: that it finds every such way back is stated for templates whose items of one address have one name; with two names it is false, and the order of the set decides (`TemplateSearch.OrderDecides`).
- TemplateSearch.ScTemplateSearch.IsCycled: the same.
- TemplateSearch.ScTemplateSearch.FindConnectivityComponents: the components are those of the dependencies as set up, before any cycled ones are removed.
- ScsWriter.WriteElement: links with image content are left out.
- ScsWriter.Write: every element is filed under one parent, as the parser leaves them, and has not been written before the call.
- Permissions.ContextManager.OnUsersSetChanged: a set of users that contains itself is left out, since its table would change under the loop over it.
- TemplateGen.ScTemplateGenerator.GenerateTriple: whether a triple throws is stated in both directions only when no given end dangles; the address of an erased element may be handed out again to the other end of the same triple.
- SystemIdentifiers.SystemIdentifiers.SetSystemIdentifier: the case of an element that does not exist is open in the same way, since its address may be handed out to the new link.
- ScAction.ScAction.Initiate: a result that was set and then erased by others may lend its address to the new arc, and is then taken for the result; the contract covers results that are alive or not set.
- Modules.Extensions.Collect: every path occurs once, as it does when no directory is given twice.
- CommandInstance.GenerateInstance: template elements are listed once each and its result and state arcs on the command (uiCommands.cpp lines 264-273) are not modelled.
- TemplateGen.ScTemplateGenerator.PreCheck: type extension (`sc_storage_is_type_extendable_to`) is an arbitrary relation given to the generator.
- Names that spell the hash of an address are read as plain decimal digits; leading blanks and signs, which a stream would accept, are not modelled.
- The storage behind memory (segments, lists of incident connectors, file memory), full memory, and lack of permissions in the operations on memory.
- Memory is well typed: no element is both an edge and an arc, and nodes are generated with types that are no connector types.
- Events and pending events, threads and monitors, streams, contexts that are identified anew, guest users beyond their mask.
- The backtracking part of the template search, the removal of cycled dependencies, the choice of the first triple of a component, and building templates from structures or text.
- Text layout of SCs, main identifiers, image files, the tables that convert types, and the parsing of the GWF format.
- JSON of the SCn translator beyond the order of arcs.
- Loading of dynamic libraries; whether a module initialises is a function of its path.
- Trimming, comments and the joining of directory and file name in repo path files; symbolic links that make directories contain themselves.
- `ScOrientedSet` objects whose cursor arc is removed while they are iterated: `Reset` comes first.
