# UxmlToCsharp in Dafny

A model of the core of UxmlToCsharp, a Unity editor utility. It turns a UXML
visual tree into a C# class with one typed field per element that carries a
`--csName` custom style property. The model covers three parts:

- **The generator** (`Converter`). `RecursiveFill` walks the cloned tree depth
  first, in document order. It builds a name → type dictionary in which the
  first element with a name wins; each later element with the same name is
  reported through `Debug.LogError` and skipped. `CreateOrUpdateClass` then
  emits the class text and derives the path of the `.cs` file.
- **The runtime binder** (`ConvertedBase`). The `UxmlConvertedBase`
  constructor clones the same asset into `Root`. `RecursiveFromStyle` repeats
  the walk and stores the elements themselves. The generated `AssignFields`
  then does one cast-and-lookup per field. Last, `CloneTemplates` collects the
  `--csTemplate` placeholders with `RecursiveGetTemplatesWithParents` and
  passes them to the default, empty `MakeTemplatesInstances`.
- **The child-list splice** (`VisualElementExtensions`).
  `ReplaceElementWithChildrenOf` puts a converted class's root children where
  an element was. `AddChildrenOf` appends them to an element.

How things are represented:

- A UI element is a `UiTree.Node` value: its type name (`GetType().Name`), its
  optional `--csName` and `--csTemplate` values, and its children.
- "Document order" is `UiTree.PreOrder`.
- A `Dictionary<string, ...>` that only ever gets `Add` calls is an
  insertion-ordered sequence of pairs (`OrderedDictionary`). Both `foreach`
  loops of the emitter enumerate it in that order.
- A `ref` dictionary or list is threaded through the walk methods as an in and
  an out parameter.
- `FirstWins` and `Duplicates` are the specification of both walks. They give
  the dictionary, and the names logged as duplicates, after the walk has seen a
  given list of (name, value) candidates.

Host services are parameters:

- The generator receives the asset's path, its name, the GUID the asset
  database reports for it, and the top-level elements `CloneTree` produces. It
  returns the path and text it would write, or `UxmlIsNull`.
- The binder receives the asset database as a map from GUID to top-level
  elements. It also receives the generated subclass, as the list of
  (name, type) fields whose assignments its `AssignFields` performs.
- The `StringBuilder` is the list of lines appended so far, and `ToString` is
  `Converter.JoinLines`, which ends every line with `Converter.NewLine`.

## Model

| member | source | states |
|---|---|---|
| `Converter.RecursiveFill` | Editor/Converter.cs:115-126 | The dictionary and error log after visiting an element and its subtree in pre-order. A name not yet present is added with the element's type. A name already present is logged and skipped. |
| `Converter.FillFromElements` | Editor/Converter.cs:93-95 | Running `RecursiveFill` over the clone's top-level elements, starting from an empty dictionary, gives the first-wins dictionary and the duplicate log of the whole forest in document order. |
| `Converter.CreateOrUpdateClass` | Editor/Converter.cs:75-113 | A null asset gives only the "Uxml is null" outcome, with no text and no path. Otherwise the result is the text of the class lines for the collected fields, the derived output path, and the duplicate log. |
| `Converter.ClassLinesLayout` | Editor/Converter.cs:86-108 | The emitted class has exactly 2n+10 lines: the six-line header, then line 6+i declares `public T name;` for entry i, then the `AssignFields` opening, then line 8+n+i assigns `name = (T)elementsToAssign["name"];` for entry i, then the two closing braces. |
| `Converter.ClassLines` | Editor/Converter.cs:86-108 | The lines the builder receives: the six header lines, one declaration per entry, the two `AssignFields` opening lines, one assignment per entry, and the two closing lines. Its contract gives the count, 2n+10, the header and the closing. |
| `Converter.ClassTextFrame` | Editor/Converter.cs:86-108 | The text starts with the two `using` lines, an empty line, `public class <name>Converted : UxmlConvertedBase`, `{` and the `uxmlGuid` line. It ends with the closing braces of `AssignFields` and of the class. |
| `Converter.Replace` | Editor/Converter.cs:110 | `String.Replace`: an ordinal, left-to-right scan that replaces each non-overlapping occurrence. Replacing a text by itself changes nothing. |
| `Converter.OutputPath` | Editor/Converter.cs:110 | The output path is the asset path with ".uxml" replaced by "Converted.cs". A path without an ordinal, lower-case ".uxml" is its own output path. |
| `Converter.UpperCaseExtensionPath` | Editor/Converter.cs:110 | For an asset path `base + ".UXML"`, where `base` contains no ".uxml", the output path is the asset path itself, so the class text would be written over the asset. |
| `Converter.OutputPathOfAsset` | Editor/Converter.cs:110 | For a path `base + ".uxml"` where `base` contains no ".uxml", the output path is `base + "Converted.cs"`. |
| `Converter.ReplaceAbsent` | Editor/Converter.cs:110 | `String.Replace` leaves a string without any occurrence of the searched text unchanged. |
| `Converter.GeneratorKeySet` | Editor/Converter.cs:115-126 | A name is a key of the generated dictionary if and only if some node of the tree carries it as `--csName`. |
| `Converter.GeneratorFirstWins` | Editor/Converter.cs:119-122 | The type stored under a name is the type of the first node, in pre-order document order, carrying that name. A name no node carries is absent. |
| `Converter.GeneratorFieldsDistinct` | Editor/Converter.cs:119-122 | The generated entries have pairwise distinct names, so each field is declared once. |
| `Converter.GeneratorDuplicateReports` | Editor/Converter.cs:119-120 | A name carried by m nodes is logged exactly m-1 times. |
| `Converter.GeneratorUniqueNames` | Editor/Converter.cs:115-126 | Nothing is logged if and only if the names are pairwise distinct. That holds if and only if the dictionary has one entry per named node, for any tree shape. |
| `OrderedDictionary.FirstWinsAppend` | Editor/Converter.cs:124-125 | Visiting candidates `a + b` equals visiting `a` and then `b` from the resulting dictionary, for both the entries and the log. This is why one recursive call per child composes into the whole walk. |
| `OrderedDictionary.FirstWinsGrows` | Editor/Converter.cs:119-122 | The dictionary only grows. Every earlier entry stays, unchanged and in place. |
| `OrderedDictionary.FirstWinsDistinct` | Editor/Converter.cs:119-122 | If keys were distinct before the walk, they are distinct after it, as `Dictionary.Add` requires. |
| `OrderedDictionary.FirstWinsContains` | Editor/Converter.cs:117-122 | A key is present afterwards if and only if it was present before or some candidate carries it. |
| `OrderedDictionary.FirstWinsGet` | Editor/Converter.cs:119-122 | A lookup of a key that was present before returns its old value. A lookup of a new key returns the value of the first candidate with that key. |
| `OrderedDictionary.FirstWinsCount` | Editor/Converter.cs:119-122 | Every candidate is either added or logged, exactly once. |
| `OrderedDictionary.DuplicatesPerKey` | Editor/UxmlConvertedBase.cs:56-59 | For one key, the log holds every candidate with that key except the one added. If the key was present before, it holds all of them. |
| `OrderedDictionary.NoDuplicatesIff` | Editor/UxmlConvertedBase.cs:56-59 | The log is empty if and only if the candidates' keys are pairwise distinct and new. Then every candidate becomes an entry. |
| `OrderedDictionary.FirstWinsMapValues` | Editor/UxmlConvertedBase.cs:52-63 | The fill looks only at keys, so storing nodes and then taking their types gives the same result as storing the types. |
| `OrderedDictionary.Get` | Editor/Converter.cs:106 | A lookup returns the value of the first entry with the key, and `None` exactly when no entry has it. |
| `OrderedDictionary.GetDistinct` | Editor/Converter.cs:106 | When keys are distinct, looking up entry i's key returns entry i's value. |
| `UiTree.PreOrderAllAppend` | Editor/Converter.cs:94-95 | Visiting sibling lists `a + b` visits all of `a` and then all of `b`. |
| `UiTree.PreOrderAllCovers` | Editor/Converter.cs:124-125 | The walk covers every node of every subtree. |
| `UiTree.FirstNamed` | Editor/Converter.cs:119-122 | An independent definition of "the first node named k": absent if and only if no node has that name. Otherwise it is a node named k with no node named k before it. |
| `UiTree.GetNameCandidates` | Editor/Converter.cs:117-122 | Looking a name up among the walk's candidates finds exactly `FirstNamed`. |
| `UiTree.NameCandidatesNamed` | Editor/Converter.cs:117-122 | Every candidate the walk offers is a node of the walk, paired with the `--csName` it carries. |
| `UiTree.NameCandidatesKeys` | Editor/Converter.cs:117 | A name has a candidate if and only if some node carries it. |
| `UiTree.TemplateNodesAppend` | Editor/UxmlConvertedBase.cs:46-47 | The template list of `a + b` is the template list of `a` followed by that of `b`, so pre-order is kept. |
| `UiTree.TemplateNodesCount` | Editor/UxmlConvertedBase.cs:44-45 | A template-tagged node appears in the template list exactly as often as in the tree, duplicates kept. Untagged nodes do not appear. |
| `ConvertedBase.RecursiveFromStyle` | Editor/UxmlConvertedBase.cs:52-63 | The same first-wins walk as the generator's, storing the element itself. It returns the dictionary and log after the element's subtree. |
| `ConvertedBase.RecursiveGetTemplatesWithParents` | Editor/UxmlConvertedBase.cs:42-48 | Appends every `--csTemplate` node of the subtree, in pre-order, to the list. |
| `ConvertedBase.FieldFault` | Editor/Converter.cs:106 | One generated assignment throws nothing if and only if the name is present and the stored element has the declared type. Otherwise it is a missing key or an invalid cast. |
| `ConvertedBase.AssignAll` | Editor/Converter.cs:105-106 | The outcome of the generated `AssignFields`, which runs at Editor/UxmlConvertedBase.cs:27: either the fault of the first failing statement, or one binding per declared field. |
| `ConvertedBase.Performed` | Editor/Converter.cs:105-106 | The bindings the generated statements make before one throws. There are never more bindings than declared fields. |
| `ConvertedBase.PerformedPrefix` | Editor/Converter.cs:105-106 | The bindings made are those of the longest fault-free prefix of the declared fields. Each binds its field to the element found under its name, and the next statement, if there is one, faults. |
| `ConvertedBase.PerformedOutcome` | Editor/Converter.cs:103-107 | On success every binding is made. On failure the bindings are those before the faulting statement, and that statement's fault is the one thrown. |
| `ConvertedBase.AssignAllOutcome` | Editor/Converter.cs:103-107 | The generated `AssignFields` succeeds if and only if no statement faults. On success it binds field i to the element under its name. On failure the fault is that of the first failing statement. |
| `ConvertedBase.WalksAgree` | Editor/UxmlConvertedBase.cs:52-63 | The runtime dictionary has the same key sequence as the generator's dictionary. Its elements' types are the generator's types, and both walks log the same duplicates. |
| `ConvertedBase.RoundTrip` | Editor/UxmlConvertedBase.cs:24-27 | Binding a class generated from a tree against the unchanged tree succeeds. Each declared field is bound, in order, to the first node carrying its name, whose type is the declared type. |
| `ConvertedBase.BindingSucceedsIff` | Editor/UxmlConvertedBase.cs:24-27 | Binding succeeds if and only if every declared name is carried by some node and its first such node has the declared type. So binding throws against a tree in which no node carries some declared name, or in which the first node carrying it has another type. Removing or retyping one of several nodes that share a name need not make it throw. |
| `ConvertedBase.UxmlConvertedBase.constructor` | Editor/UxmlConvertedBase.cs:20-29 | An unknown GUID faults before anything else. Otherwise the steps run in order: clone into `Root`, collect (first-wins dictionary and log), `AssignFields`, then `CloneTemplates` only if `AssignFields` did not throw. The bound fields are exactly those the statements set before one threw, if one did. |
| `ConvertedBase.UxmlConvertedBase.CollectElements` | Editor/UxmlConvertedBase.cs:24-25 | `RecursiveFromStyle` over `Root`'s children extends `elementsToAssign` first-wins. `Root` is not modified. |
| `ConvertedBase.UxmlConvertedBase.AssignFields` | Editor/Converter.cs:103-107 | Performs the generated statements in order and stops at the first fault. The bound fields afterwards are the old ones followed by exactly the `Performed` bindings, in both outcomes. The fault is the first failing statement's. |
| `ConvertedBase.UxmlConvertedBase.CloneTemplates` | Editor/UxmlConvertedBase.cs:31-38 | The placeholder list is the pre-order template list of `Root`'s children. The frame admits only `Root` and the step trace, and `Root` is left unchanged, so every other field is unchanged too. |
| `ConvertedBase.UxmlConvertedBase.MakeTemplatesInstances` | Editor/UxmlConvertedBase.cs:40 | The default override may change only `Root`, the hierarchy an override rewrites, and leaves it unchanged. |
| `ConvertedBase.GenerateThenConstruct` | Editor/UxmlConvertedBase.cs:20-29 | Generating from an asset and then constructing the class against the same asset writes the class and binds every declared field with its declared type, without an exception. |
| `ConvertedBase.WorkedExample` | Editor/Converter.cs:93-106 | `[Label(name=a), Group[Button(name=b), Group(template=Foo)]]` yields the fields `a: Label` and `b: Button`, no duplicate report, and exactly one template placeholder. |
| `VisualElementExtensions.IndexOf` | Editor/VisualElementExtensions.cs:22 | Returns -1 if and only if the element is absent. Otherwise it returns the index of its first occurrence. |
| `VisualElementExtensions.Element.Insert` | Editor/VisualElementExtensions.cs:26 | The child is placed at the index and later children shift right. |
| `VisualElementExtensions.Element.RemoveAt` | Editor/VisualElementExtensions.cs:28 | The child at the index is dropped and later children shift left. |
| `VisualElementExtensions.Element.Add` | Editor/VisualElementExtensions.cs:17 | The child is appended at the end. |
| `VisualElementExtensions.Element.Remove` | Editor/VisualElementExtensions.cs:17 | Detaching a moved child drops its first occurrence from its old parent's list. |
| `VisualElementExtensions.AddChildrenOf` | Editor/VisualElementExtensions.cs:14-18 | The element's children afterwards are its old children followed by the snapshot of `Root`'s children, in order. `Root` ends up empty. |
| `VisualElementExtensions.ReplaceElementWithChildrenOf` | Editor/VisualElementExtensions.cs:20-28 | With c the parent's children and p the element's index, the children afterwards are `c[..p] + snapshot + c[p+1..]`. The count goes from n to n-1+k, and the inserted children keep their order. The proof shows that `parent[templateIndex] == el` still holds after the insertions, so `RemoveAt(templateIndex)` removes the element itself. |

## Left out

- The menu commands `ValidateCreate`, `Create`, `ValidateUpdateClass` and `UpdateClass` (Editor/Converter.cs:14-73) are editor glue. `UpdateClass` uses reflection and `Activator`. The second, slightly different emitter inside `Create` is not modelled.
- Editor/ConvertedUxmlsPostprocessor.cs is an import hook that calls `CreateOrUpdateClass` again. It is not part of this model. That hook matches the extension without regard to case, so an asset ending in ".UXML" can reach `OutputPath`, whose as-written behaviour for such a path `Converter.UpperCaseExtensionPath` states.
- Converter.ClassTextFrame: `Environment.NewLine` is fixed to `"\n"` (`Converter.NewLine`). On Windows it is `"\r\n"`, so the text's exact line endings, and the closing suffix stated here, hold only for the `"\n"` platforms.
- `File.WriteAllText`, `AssetDatabase.Refresh`, `AssetPathToGUID`, `GUIDToAssetPath`, `LoadAssetAtPath` and `CloneTree` are host I/O. They appear as the asset value, the GUID map and the returned path and text.
- The per-field `Debug.Log` at Editor/Converter.cs:99 is not modelled. Log texts are not modelled either: only the names reported as duplicates are kept.
- Unity's custom-style resolution is reduced to the optional `csName` and `csTemplate` values of a node. `Type.Name` is reduced to the `typeTag` string.
- ConvertedBase.FieldFault: the C# cast `(T)` also accepts subclasses of `T`. The model has no type hierarchy, so a cast succeeds only when the type name is the declared one.
- `AssignFields` is the generated code: one statement per field, modelled as a loop over the declared fields. The model does not check that a name is a valid C# identifier, and has no C# compiler between the text and the subclass.
- Template substitution inside generated `MakeTemplatesInstances` overrides, and recursive template instantiation, are not modelled. The generator shown never emits such an override, so only the default, empty one exists.
- Nodes are values, not objects. The splice works on the parent's child list, and identifies `el` by its first equal entry, which is what `IndexOf` finds. Aliasing between elements of different trees and `el.parent` pointers are not modelled; `parent` is passed in, and `el` must be among its children.
- Unity detaches an element from its previous parent when it is added or inserted elsewhere. The model shows this as removing the child from the converted class's `Root` list.
- ReplaceElementWithChildrenOf: an element without a parent throws a `NullReferenceException` in the source. The model requires the parent to be given and to contain `el`, so that exception is not modelled.
- AddChildrenOf and ReplaceElementWithChildrenOf: the target is required to differ from the converted class's `Root`. Moving `Root`'s children into `Root` itself is not modelled.
