# Property resolution in CsprojToVs2017, modelled in Dafny

CsprojToVs2017 converts legacy MSBuild project files to the SDK format. This
project models two parts of it:

- **Property resolution over a project document.** These are the extension
  methods on `Project` in `Definition/ProjectExtensions.cs`. A document is an
  ordered list of `PropertyGroup`s. A group may carry a `Condition`, and it
  holds ordered property elements. The code does the following:
  - splits the groups into unconditional and conditional ones;
  - picks the primary group;
  - collects the elements with a given name, split by `PropertyCondition`;
  - folds the matches of several names into a "last" element per class plus
    the "others" (`FindExistingElements` / `Store`);
  - orders that result (`All`);
  - rewrites the document (`ReplacePropertiesWith`, `SetProperty`).
- **The logical NOT node of the condition expression tree**
  (`Reading/Conditionals/NotExpressionNode.cs`). The model has an
  expression datatype with a `Not` constructor. Every other node kind is an
  abstract leaf, whose evaluation, evaluability and textual forms are
  parameters (`LeafSemantics`).

Files, one module each:

| file | module | contents |
|---|---|---|
| `wrappers.dfy` | `Wrappers` | `Option`, duplicate-freedom, first repeated index |
| `document.dfy` | `ProjectModel` | groups and elements, three things as values: document order (`Pos`, `Later`), element identity (`id`) and the XLinq edits `Remove`, `ReplaceWith` and `Add` (`RemoveIds`, `ReplaceId`, `Append`); also `PlaceAt`, which removes a set of elements and puts one new element at a chosen place |
| `project_extensions.dfy` | `ProjectExtensions` | groups, primary group, `PropertyAll`, `Property`, `Store`, `FindExistingElements`, `PropertyFindResult`, `All` |
| `property_editing.dfy` | `PropertyEditing` | class `Project` with `ReplacePropertiesWith` and `SetProperty` as methods, each proved equal to a function of the old document (`AfterReplace`, `AfterSetProperty`); lemmas on what those functions do |
| `scenarios.dfy` | `Scenarios` | three concrete documents whose outcome is proved |
| `conditionals.dfy` | `Conditionals` | the NOT node |

How the model is built:
- **References.** An element found by `FindExistingElements` is a `Pos`
  (group index, element index) into the document as it was when found.
- **Identity.** Object identity is the element's `id`.
  `Project.Valid()` says that no id occurs twice.
- **Edits.** Removal and replacement work by id, because positions shift
  while the document is edited.
- **Failures.** The two failures the model captures are outcomes (the exception `new XElement` throws on an invalid name is not modelled; see `PropertyEditing.NewProperty` under "## Left out"):
  - `Failed(MissingPrimaryGroup)` is `First()` on no unconditional group;
  - `Failed(DetachedElement)` is `Remove` or `ReplaceWith` on an element that
    was already removed (possible only when a name is repeated).

  Edits made before a failure stay in the document, as they do in the code.

### Behaviour worth knowing

The model follows the code in each case:

- **The final element of `All()` is not always the document-last match.**
  `All()` puts the conditional block first exactly when the last
  conditional element is after the last unconditional one. So when both
  classes match, `All()` ends with the EARLIER of the two class-last
  elements (`AllFinal`).
  - Suppose the last unconditional match comes after the last conditional
    one. Then `All()` ends with the conditional element, and both are
    removed. The new element is appended to the primary group.
  - The new element replaces an element in place only when the last
    unconditional match comes first, or when there is no conditional
    match.
- **Every conditional match is removed.** Conditional elements are removed
  along with the others; none is left in place.
- **Groups G1, G2, G3.** Take G1 (unconditional, `X`), G2 (conditional,
  `X`) and G3 (unconditional, `X`). Setting `X` leaves G1 = [new], G2 = []
  and G3 = [] (`Scenarios.MixedReplace`). It does not replace G3's element
  in place, and it does not keep G2's element.
- **Only conditional groups.** With one conditional group holding `X`,
  setting `X` removes that element and then fails with `MissingPrimaryGroup`
  (`Scenarios.OnlyConditionalReplace`). No new element is added, and the
  removal is not undone.
- **Repeated setting.** Setting the same value twice is idempotent only up
  to element identity. The second call replaces the element created by the
  first with a new element that has the same name and value
  (`PropertyEditing.SetPropertyTwice`).
- **Failure after partial edits.** A failure after some removals keeps them.
  There is no rollback.

## Model

Paths are relative to the repository root.

| member | source | states |
|---|---|---|
| ProjectExtensions.GroupsPartition | Project2015To2017/Definition/ProjectExtensions.cs:12-20 | A group is selected as unconditional iff it has no Condition, and as conditional iff it has one. The two selections together are a permutation of all groups. |
| ProjectExtensions.UnconditionalKeepsOrder | Project2015To2017/Definition/ProjectExtensions.cs:12-15 | Selecting the unconditional groups commutes with concatenation, so document order is kept. |
| ProjectExtensions.UnconditionalGroups | Project2015To2017/Definition/ProjectExtensions.cs:12-15 | The groups without a Condition, in document order. GroupsPartition and UnconditionalKeepsOrder state this. |
| ProjectExtensions.ConditionalGroups | Project2015To2017/Definition/ProjectExtensions.cs:17-20 | The groups with a Condition, in document order. GroupsPartition and ConditionalKeepsOrder state this. |
| ProjectExtensions.ConditionalKeepsOrder | Project2015To2017/Definition/ProjectExtensions.cs:17-20 | Selecting the conditional groups commutes with concatenation, so document order is kept. |
| ProjectExtensions.PrimaryPropertyGroup | Project2015To2017/Definition/ProjectExtensions.cs:22-25 | The index of an unconditional group with only conditional groups before it. None exactly when every group is conditional (where `First()` throws). |
| ProjectExtensions.PrimaryIsFirstUnconditional | Project2015To2017/Definition/ProjectExtensions.cs:22-25 | The primary group is the first element of UnconditionalGroups. It is missing iff that list is empty. |
| ProjectExtensions.PropertyAll | Project2015To2017/Definition/ProjectExtensions.cs:27-44 | The loop's two lists are the unconditional and the conditional matches of the name. |
| ProjectExtensions.PropertyAllPartition | Project2015To2017/Definition/ProjectExtensions.cs:27-44 | Every element named `name` is in exactly one list, chosen by PropertyCondition; nothing else is in either list. Each list is in document order, and together they are a permutation of ElementsAnyNamespace. |
| ProjectExtensions.PropertyIsLast | Project2015To2017/Definition/ProjectExtensions.cs:46-51 | Property returns the document-last unconditional match. Only when there is none and tryConditional holds does it return the last conditional match. It returns null iff neither applies. |
| ProjectExtensions.Property | Project2015To2017/Definition/ProjectExtensions.cs:46-51 | The last unconditional match, else (with tryConditional) the last conditional match, else null. PropertyIsLast states this. |
| ProjectExtensions.Store | Project2015To2017/Definition/ProjectExtensions.cs:77-95 | One step of the fold: the child becomes the last element when there is none or when it is after the current one, which joins the others; otherwise the child joins the others. StoreInvariant states what it keeps. |
| ProjectExtensions.StoreInvariant | Project2015To2017/Definition/ProjectExtensions.cs:77-95 | Store always leaves a last element, loses no element and adds only the child. It keeps the last element at or after all the others. |
| ProjectExtensions.StoreAllDominates | Project2015To2017/Definition/ProjectExtensions.cs:64-72 | Over any sequence of children, the last element stays at or after every other, and there are no others without a last. |
| ProjectExtensions.StoreAllCount | Project2015To2017/Definition/ProjectExtensions.cs:64-72 | Over any sequence of children, others plus last is the old collection plus the children, as a multiset. The last element is absent iff it was absent and there were no children. |
| ProjectExtensions.FindExistingElements | Project2015To2017/Definition/ProjectExtensions.cs:53-75 | The nested loops compute ExistingElements, the name-by-name fold of Store. |
| ProjectExtensions.ExistingElementsInvariant | Project2015To2017/Definition/ProjectExtensions.cs:53-96 | For each class: others plus last is a permutation of all the matches; last is at or after each of the others; last is absent iff nothing matched, and then others is empty. |
| ProjectExtensions.FindLasts | Project2015To2017/Definition/ProjectExtensions.cs:53-96 | For each class, the last element is the document-last element that has one of the names. It is null iff that class has no such element. |
| ProjectExtensions.FindStrict | Project2015To2017/Definition/ProjectExtensions.cs:77-95 | With distinct names, each class's last element is strictly after every one of its others. |
| ProjectExtensions.PropertyFindResult.LastElementIsConditional | Project2015To2017/Definition/ProjectExtensions.cs:124 | A last conditional element exists and IsAfter the last unconditional one, which holds when that one is null. FindFlags states this against the document. |
| ProjectExtensions.PropertyFindResult.LastElementIsUnconditional | Project2015To2017/Definition/ProjectExtensions.cs:126-127 | A last unconditional element exists and IsAfter the last conditional one, which holds when that one is null. FindFlags states this against the document. |
| ProjectExtensions.PropertyFindResult.FoundAny | Project2015To2017/Definition/ProjectExtensions.cs:132 | Either last element is present. FoundAnyIff and FindFlags state that this holds iff some element has one of the names. |
| ProjectExtensions.FindFlags | Project2015To2017/Definition/ProjectExtensions.cs:119-135 | FoundAny holds iff some element has one of the names. Each of LastElementIsConditional and LastElementIsUnconditional holds iff its class's last element is after every match of the other class. They never both hold, and one holds whenever something was found. With only conditional matches, LastElementIsConditional holds; with no match, neither does. |
| ProjectExtensions.FoundAnyIff | Project2015To2017/Definition/ProjectExtensions.cs:132 | FoundAny holds iff some element has one of the names. |
| ProjectExtensions.AllUnconditional | Project2015To2017/Definition/ProjectExtensions.cs:98-103 | The unconditional others followed by the last unconditional element, or nothing when that element is absent. AllCount and AllFinal state what it holds. |
| ProjectExtensions.AllConditional | Project2015To2017/Definition/ProjectExtensions.cs:105-110 | The same for the conditional class. AllCount and AllFinal state what it holds. |
| ProjectExtensions.All | Project2015To2017/Definition/ProjectExtensions.cs:112-117 | The conditional block first exactly when LastElementIsConditional. AllValid, AllCount, AllMembers, AllDistinct and AllFinal state what it holds and how it ends. |
| ProjectExtensions.AllValid | Project2015To2017/Definition/ProjectExtensions.cs:112-117 | All() is empty iff nothing was found, and it refers only to elements of the document. |
| ProjectExtensions.AllCount | Project2015To2017/Definition/ProjectExtensions.cs:98-117 | All() is a permutation of the unconditional matches plus the conditional matches, taken name after name. |
| ProjectExtensions.AllMembers | Project2015To2017/Definition/ProjectExtensions.cs:98-117 | All() holds exactly the elements that have one of the names. |
| ProjectExtensions.AllDistinct | Project2015To2017/Definition/ProjectExtensions.cs:98-117 | With distinct names, All() holds each element once. |
| ProjectExtensions.AllMatchesCount | Project2015To2017/Definition/ProjectExtensions.cs:61-73 | An element of a class is visited once for each occurrence of its name among the names. |
| ProjectExtensions.AllFinal | Project2015To2017/Definition/ProjectExtensions.cs:112-117 | The element All() ends with: when both classes matched, the earlier of the two class-last elements; when one class matched, that class's last element. |
| ProjectExtensions.AllFinalIsLastOfItsClass | Project2015To2017/Definition/ProjectExtensions.cs:112-117 | That element is the document-last match of its own class. If the other class matched, one of its matches comes after it. |
| ProjectModel.ElementsAnyNamespace | Project2015To2017/Definition/ProjectExtensions.cs:32 | The elements named `name`, all of them and only them, strictly in document order (groups first, then children). |
| ProjectModel.RemoveIdsFacts | Project2015To2017/Definition/ProjectExtensions.cs:154 | Removing elements removes exactly their ids and keeps ids unique. |
| ProjectModel.ReplaceIdUnique | Project2015To2017/Definition/ProjectExtensions.cs:168 | ReplaceWith of a present element by a fresh one keeps ids unique. |
| ProjectModel.AppendFacts | Project2015To2017/Definition/ProjectExtensions.cs:145 | Add adds exactly the new id and keeps ids unique. |
| ProjectModel.ReplaceIsPlaceAt | Project2015To2017/Definition/ProjectExtensions.cs:168 | Removing a set of elements and then replacing one more element is the same as placing the new element where that element stood. |
| ProjectModel.AppendIsPlaceAtEnd | Project2015To2017/Definition/ProjectExtensions.cs:175 | Removing a set of elements and then adding to a group is the same as placing the new element at the end of that group. |
| PropertyEditing.AddToPrimary | Project2015To2017/Definition/ProjectExtensions.cs:175 | Succeeds iff some group has no Condition. Then the new element ends the first such group, that group stays unconditional, and every other group is unchanged. Otherwise it fails with MissingPrimaryGroup and leaves the document unchanged. |
| PropertyEditing.Project.Remove | Project2015To2017/Definition/ProjectExtensions.cs:154 | On a present element, removes exactly that element. On a detached one, fails and changes nothing. |
| PropertyEditing.Project.ReplaceWith | Project2015To2017/Definition/ProjectExtensions.cs:168 | On a present element, replaces exactly that element. On a detached one, fails and changes nothing. |
| PropertyEditing.Project.AddToPrimaryGroup | Project2015To2017/Definition/ProjectExtensions.cs:175 | The new document and the outcome are those of AddToPrimary, and ids stay unique. |
| PropertyEditing.Project.ReplacePropertiesWith | Project2015To2017/Definition/ProjectExtensions.cs:137-176 | The new document and the outcome are AfterReplace of the old document, and ids stay unique. |
| PropertyEditing.Project.RemoveAllButLast | Project2015To2017/Definition/ProjectExtensions.cs:151-156 | The walk over All() removes every element but the last one and returns the last. With a repeated element it stops at the first repeat, keeping the earlier removals. |
| PropertyEditing.Project.SetProperty | Project2015To2017/Definition/ProjectExtensions.cs:178-187 | The new document and the outcome are AfterSetProperty of the old document. |
| PropertyEditing.WalkStep | Project2015To2017/Definition/ProjectExtensions.cs:151-156 | One step of the walk. Up to the first repeat, the element is still present after the earlier removals, and removing it extends the removed prefix by one. |
| PropertyEditing.AllIds | Project2015To2017/Definition/ProjectExtensions.cs:151-156 | The elements walked are exactly the elements named by one of the names. |
| PropertyEditing.PrimaryKept | Project2015To2017/Definition/ProjectExtensions.cs:172-175 | Removals do not change which group is primary. |
| PropertyEditing.ReplaceEffect | Project2015To2017/Definition/ProjectExtensions.cs:137-176 | With distinct names and a fresh element: every element with one of the names is removed and all other elements stay in place. A missing new element only deletes. Otherwise the new element goes to the Slot: in place of All()'s final element if that is unconditional, else at the end of the primary group. With no Slot the removals happen and the edit fails with MissingPrimaryGroup. It never fails on a detached element. |
| PropertyEditing.ReplaceNotFound | Project2015To2017/Definition/ProjectExtensions.cs:139-149 | The not-found case of ReplaceEffect: no element carries one of the names. Without a new element the document is unchanged and the edit succeeds. With one, it ends the primary group, or, when there is no unconditional group, the edit fails with MissingPrimaryGroup and the document is unchanged. |
| PropertyEditing.ReplaceFound | Project2015To2017/Definition/ProjectExtensions.cs:151-175 | The found case of ReplaceEffect. |
| PropertyEditing.ReplaceDetachedIff | Project2015To2017/Definition/ProjectExtensions.cs:151-175 | The edit fails on a detached element iff some element's name occurs at least twice among the names. |
| PropertyEditing.NewProperty | Project2015To2017/Definition/ProjectExtensions.cs:183 | A new element gets a fresh identity, the given name and value, and no Condition. |
| PropertyEditing.AfterReplace | Project2015To2017/Definition/ProjectExtensions.cs:137-176 | The document and outcome ReplacePropertiesWith leaves. ReplaceEffect, ReplaceNotFound, ReplaceFound and ReplaceDetachedIff state what they are. |
| PropertyEditing.IsNullOrWhiteSpace | Project2015To2017/Definition/ProjectExtensions.cs:181 | string.IsNullOrWhiteSpace: null, or every character is one of char.IsWhiteSpace's characters. SetPropertyDeletes and SetPropertyStores use it to split the two cases. |
| PropertyEditing.AfterSetProperty | Project2015To2017/Definition/ProjectExtensions.cs:178-187 | The document and outcome SetProperty leaves. SetPropertyDeletes, SetPropertyStores and SetPropertyTwice state what they are. |
| PropertyEditing.SetPropertyDeletes | Project2015To2017/Definition/ProjectExtensions.cs:178-187 | A null or whitespace value deletes every element with the name and keeps every other element in place. Afterwards ElementsAnyNamespace and FindExistingElements find nothing. |
| PropertyEditing.SetPropertyStores | Project2015To2017/Definition/ProjectExtensions.cs:178-187 | Any other value, on success: exactly one element with the name remains. It is the new unconditional element, holds the value, and Property returns it. For a valid element name, the only failure is a document with no unconditional group: then nothing with the name is left. |
| PropertyEditing.SetPropertyTwice | Project2015To2017/Definition/ProjectExtensions.cs:178-187 | After a successful SetProperty, the same call again replaces the element it created, in place, by an equal-content new element. |
| PropertyEditing.SecondReplace | Project2015To2017/Definition/ProjectExtensions.cs:164-169 | When the only element with the name is unconditional, ReplacePropertiesWith replaces it in place. |
| Scenarios.MixedFinal | Project2015To2017/Definition/ProjectExtensions.cs:112-117 | With G1 (unconditional), G2 (conditional) and G3 (unconditional) each holding X, All() ends with G2's element. |
| Scenarios.MixedReplace | Project2015To2017/Definition/ProjectExtensions.cs:137-176 | On that document, ReplacePropertiesWith(z, X) gives [G1: z], [G2: empty], [G3: empty] and succeeds. |
| Scenarios.OnlyConditionalReplace | Project2015To2017/Definition/ProjectExtensions.cs:164-175 | With only a conditional group holding X, the element is removed and the edit fails with MissingPrimaryGroup. |
| Scenarios.EmptyReplace | Project2015To2017/Definition/ProjectExtensions.cs:139-149 | On a document without groups, adding fails with MissingPrimaryGroup and changes nothing. |
| Conditionals.BoolEvaluate | Project2015To2017/Reading/Conditionals/NotExpressionNode.cs:18-21 | The negation of the child's result; a leaf's own result otherwise. NotEvaluates and NegationsEvaluate state this. |
| Conditionals.CanBoolEvaluate | Project2015To2017/Reading/Conditionals/NotExpressionNode.cs:23-26 | The child's evaluability. NotEvaluates and NegationsEvaluate state this. |
| Conditionals.GetUnexpandedValue | Project2015To2017/Reading/Conditionals/NotExpressionNode.cs:28-34 | `!` followed by the child's unexpanded value. NotTextForms and NegationsText state this. |
| Conditionals.GetExpandedValue | Project2015To2017/Reading/Conditionals/NotExpressionNode.cs:36-42 | `!` followed by the child's expanded value. NotTextForms and NegationsText state this. |
| Conditionals.DebuggerDisplay | Project2015To2017/Reading/Conditionals/NotExpressionNode.cs:44 | `(not `, the child's display, then `)`. NotDebuggerDisplay and NegationsDisplay state this. |
| Conditionals.NotEvaluates | Project2015To2017/Reading/Conditionals/NotExpressionNode.cs:18-26 | A NOT node is true iff its child is false, and it can be evaluated iff its child can, on the same state. |
| Conditionals.DoubleNegation | Project2015To2017/Reading/Conditionals/NotExpressionNode.cs:18-21 | Two NOTs give the child's result and evaluability back. |
| Conditionals.NotTextForms | Project2015To2017/Reading/Conditionals/NotExpressionNode.cs:28-42 | The unexpanded and the expanded value are one character longer than the child's, start with `!`, and continue with the child's value. |
| Conditionals.NotDebuggerDisplay | Project2015To2017/Reading/Conditionals/NotExpressionNode.cs:44 | The debugger form is six characters longer than the child's: `(not `, the child's form, then `)`. |
| Conditionals.NegationsEvaluate | Project2015To2017/Reading/Conditionals/NotExpressionNode.cs:18-26 | Under k NOTs the result flips exactly when k is odd, and evaluability never changes. |
| Conditionals.NegationsText | Project2015To2017/Reading/Conditionals/NotExpressionNode.cs:28-42 | Under k NOTs both textual forms are k `!` followed by the inner node's form. |
| Conditionals.NegationsDisplay | Project2015To2017/Reading/Conditionals/NotExpressionNode.cs:44 | Under k NOTs the debugger form is k `(not ` prefixes, then the inner form, then k `)`. |

## Left out

- `TryFindBestRootDirectory` (ProjectExtensions.cs:189-194): file-system paths, not part of property resolution.
- The test file `AssemblyFilterHintedPackageReferencesTransformationTest.cs`: it reads projects from disk and tests a transformation that is not part of this model.
- `PropertyCondition` and `ElementsAnyNamespace` are defined in files that are not part of this model. They are given definitions:
  - an element is conditional when it or its group carries a Condition;
  - elements are matched by local name, in group order then child order.
- XML namespaces are not modelled; names are plain strings.
- PropertyAll's conditional list also carries the Condition string of each element. Nothing in the core reads it, so the model keeps only the elements.
- XLinq internals are not modelled. `Remove`, `ReplaceWith`, `Add` and `IsAfter` are edits of and comparisons on the sequence model. The failure of `IsAfter` for nodes without a common ancestor cannot arise: all elements belong to one document.
- Exception types and messages are not modelled. The failures that are modelled are the two `Error` values; the exception `new XElement` throws on an invalid name is not modelled (see the next two lines).
- PropertyEditing.NewProperty: element names are taken to be valid XML local names. `new XElement(elementName, value)` (ProjectExtensions.cs:183) throws before any edit on an empty or otherwise invalid name (`1X`, `A B`), and reads `{ns}X` as a namespaced name whose local name is `X`. The model makes an element named by the whole string in every case. XML name validation is not part of this model.
- PropertyEditing.SetPropertyStores: its claim that a missing unconditional group is the only failure holds only for valid XML element names. With an invalid name the C# code throws before it changes anything, and the model does not capture that failure.
- PropertyEditing.Project.ReplacePropertiesWith requires a new element whose identity is not already in the document. XLinq would clone an element that already has a parent; that cloning is not modelled.
- PropertyEditing.NewProperty: the identity of a `new XElement` is modelled as one more than the largest id in use (FreshId).
- PropertyEditing.ReplaceEffect and PropertyEditing.ReplaceFound assume distinct names. With a repeated name the effect is given only by AfterReplace, and ReplaceDetachedIff says when it fails.
- ProjectExtensions.ExistingElementsInvariant says "at or after", not "strictly after". With a repeated name, the same element can be both the last element and one of the others. FindStrict gives the strict form for distinct names.
- `if (lastExisting != null)` after the walk (ProjectExtensions.cs:164) is always true once something was found, so the model has no branch for it.
- PropertyEditing.Project.RemoveAllButLast has the walk loop of ReplacePropertiesWith (ProjectExtensions.cs:151-156) as a separate method. The loop body is unchanged.
- The rest of the condition engine is not modelled: the parser, `OperatorExpressionNode`, the And/Or/comparison/function nodes and the evaluation state. Other node kinds are abstract leaves, and the state is an abstract read-only value. Because evaluation is a function of the state, a NOT node cannot change the table of conditioned properties; that holds by construction and needs no lemma.
- The guard that `BoolEvaluate` is called only when `CanBoolEvaluate` holds lives outside the NOT node and is not modelled.
