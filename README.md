# Assembly browser node tree and selection, in Dafny

This project models the core of the .NET assembly browser's tree view
(`src/AssemblyBrowser/ListNodes.cs`). That core has four parts:

- **The selection registry (`ListView`).** It maps each view id to the node selected in that
  view, and it holds the id of the view currently being drawn.
- **The tree nodes (`ListNode` and its subclasses).** Each node carries a collapse flag and a
  write-once cache of its detail text.
- **The click policy.** It decides how a click on a row changes the collapse flag and the
  current view's selection.
- **The tree-construction rules.** They say which children each node is built with and which
  label and detail text it shows.

Modules:

- `Wrappers` (`wrappers.dfy`): `Option`, which stands for a .NET reference that may be null.
- `CilMetadata` (`cil_metadata.dfy`): the external CIL metadata records, as plain data:
  assemblies, references, type definitions, fields, methods and properties. Each holds names,
  accessor options and ordered sequences. `CilText` is what the external CIL-to-text printer
  yields: printed text, or the text of an exception.
- `NamespaceGrouping` (`namespace_grouping.dfy`): `GroupBy` on a type definition's namespace.
  There is one group per distinct key. Groups come in the order their key first occurs, and
  members keep their order.
- `NodeKinds` (`node_kinds.dfy`): one datatype, `NodeKind`, stands for the eight node
  subclasses. This module holds the pure rules:
  - the child list each constructor builds (`ChildKinds`);
  - the labels;
  - each override of `InternalGetSpecialText`, where the printer is a function parameter `cil`;
  - `Memoized`, the reference definition of the detail-text cache.
- `ListNodes` (`list_nodes.dfy`): the two state-holding classes.
  - `ListView` has the map field `selectedNodes` and the field `currentViewId`.
  - `ListNode` has `kind`, `children`, `isCollapsed`, `specialText`, a ghost counter
    `providerCalls` of provider calls, and a ghost set `subtree` holding the node and every
    node built below it.
  - The static registry of the program becomes one `ListView` object, passed to the methods
    that read or write it.
  - Node identity is Dafny object identity, which the program also uses (`== this`).

`ListView`'s `Debug.Assert(s_currentViewID != null)` becomes a `requires`. In a release build
the dictionary access would throw on a null key, so callers must open a view first.
`SetSelectedNode(null)` stores an entry that holds null. That is why map values are
`Option<ListNode>`, and why a known key can still read back as null.

Facts about the code that the model keeps:

- Children are built eagerly by the constructors, not lazily on first request.
- The code keeps no per-view generation counter. A repeated `SetSelectedNode` just overwrites
  the entry with the same value.
- A click on a collapsed node expands it whether or not the node was selected. Clicking a
  different node does not reset its collapse flag.
- A failed detail-text computation is cached for good, as its exception text.

## Model

| member | source | states |
|---|---|---|
| `ListNodes.ListView.constructor` | src/AssemblyBrowser/ListNodes.cs:18-19 | the registry starts with no entries and no current view |
| `ListNodes.ListView.GetSelectedNode` | src/AssemblyBrowser/ListNodes.cs:21-26 | returns the node stored for the id; an id never stored yields null |
| `ListNodes.ListView.GetSelectedNodeForCurrentView` | src/AssemblyBrowser/ListNodes.cs:28-35 | needs a current view; returns that view's stored node, or null if none was stored |
| `ListNodes.ListView.BeginListView` | src/AssemblyBrowser/ListNodes.cs:38-41 | makes the id current and leaves every stored selection as it was |
| `ListNodes.ListView.EndListView` | src/AssemblyBrowser/ListNodes.cs:43-46 | clears the current view and leaves every stored selection as it was |
| `ListNodes.ListView.SetSelectedNode` | src/AssemblyBrowser/ListNodes.cs:48-52 | needs a current view; afterwards that view reads back the given node (possibly null), and every other view id reads back what it did before |
| `ListNodes.ListNode.constructor` | src/AssemblyBrowser/ListNodes.cs:147-359 | a new node starts collapsed with an empty detail-text cache and no provider calls; at every depth the tree below it follows the child-list rules, each node's children are distinct, and each node's `subtree` holds it and its children's subtrees (`Shaped`); the `subtree` is fresh and every node in it starts collapsed and uncached |
| `ListNodes.ListNode.BuildChildren` | src/AssemblyBrowser/ListNodes.cs:163-358 | builds one fresh node per entry of the child list, in order, each shaped by the rules at every depth, pairwise distinct, and with every node of their subtrees collapsed and uncached |
| `ListNodes.AtInSubtree` | src/AssemblyBrowser/ListNodes.cs:163-358 | every node reached from a shaped node along a path of child positions, at any depth, lies in that node's `subtree`, so the constructor's collapsed-and-uncached promise covers it |
| `ListNodes.AtMostOneSelected` | src/AssemblyBrowser/ListNodes.cs:148 | `IsSelected` compares the current view's recorded node with this very object, so two nodes that are both selected in the current view are the same object |
| `ListNodes.ListNode.GetNodeSpecialText` | src/AssemblyBrowser/ListNodes.cs:125-140 | the new cache is `Memoized` of the old cache and the provider's outcome; a filled cache is returned unchanged without calling the provider; an empty cache costs exactly one provider call; the returned text is always non-null, because no node kind's provider returns null |
| `ListNodes.ListNode.Click` | src/AssemblyBrowser/ListNodes.cs:77-91 | the collapse flag flips exactly when (Ctrl is up and the node was selected) or the node was collapsed; the current view's entry becomes null exactly when the node was selected and Ctrl is down, otherwise it becomes this node; the node is selected afterwards iff not (it was selected and Ctrl is down); other views are untouched |
| `NodeKinds.MemoizedStable` | src/AssemblyBrowser/ListNodes.cs:125-140 | once the cache holds a string, any later outcome leaves it as it is |
| `NodeKinds.MemoizedFills` | src/AssemblyBrowser/ListNodes.cs:127-136 | an empty cache stays empty exactly when the provider returns null; an exception is cached as its text, a result as itself |
| `NodeKinds.InternalGetSpecialText` | src/AssemblyBrowser/ListNodes.cs:175-368 | no override yields null; a node's text fails exactly when printing one of its metadata sources throws, and then it is the exception of the first source that throws; a node printed from one element shows that element's printed text; a namespace node never fails and shows its namespace text |
| `NodeKinds.ReferencesTextSpec` | src/AssemblyBrowser/ListNodes.cs:194-197 | the references text is never null; it succeeds exactly when every reference prints, and then it is the printed texts joined by newlines; otherwise it is the exception of the first reference that fails, all earlier ones having printed |
| `NodeKinds.NamespaceText` | src/AssemblyBrowser/ListNodes.cs:245-255 | the text is "Global Namespace" exactly when the name is null or whitespace; otherwise it is "Namespace " followed by the name |
| `NodeKinds.ChildKinds` | src/AssemblyBrowser/ListNodes.cs:160-358 | each child sits strictly lower in the nesting order (assembly, namespace, type, property or references, leaf), so construction terminates |
| `NodeKinds.TypeChildrenLayout` | src/AssemblyBrowser/ListNodes.cs:273-282 | a type node's children are its fields in order, then its properties in order, then its kept methods in order; the count is the sum of the three |
| `NodeKinds.TypeChildrenMethods` | src/AssemblyBrowser/ListNodes.cs:278-281 | a method node is a child of the type node exactly when the method belongs to the type and its name starts with neither `get_` nor `set_` |
| `NodeKinds.KeptMethodsMembers` | src/AssemblyBrowser/ListNodes.cs:280 | a method survives the filter exactly when it is among the inputs and has no accessor prefix |
| `NodeKinds.KeptMethodsAppend` | src/AssemblyBrowser/ListNodes.cs:279-280 | the filter keeps metadata order: filtering a concatenation is concatenating the filtered parts |
| `NodeKinds.KeptMethodsAll` | src/AssemblyBrowser/ListNodes.cs:279-280 | the filter never lengthens its input, and drops nothing exactly when no method has an accessor prefix |
| `NodeKinds.PropertyChildrenSpec` | src/AssemblyBrowser/ListNodes.cs:348-359 | a property node has one child per accessor it has, the getter first and the setter last, and nothing else |
| `NodeKinds.PropertyLabelRoundTrip` | src/AssemblyBrowser/ListNodes.cs:363 | the label `Name { get; set; }` determines which accessors the property has: reading the flags back from it gives HasGetter and HasSetter |
| `NodeKinds.Label` | src/AssemblyBrowser/ListNodes.cs:173-363 | each label gives back what it was made from: name and version of an assembly or reference (if the version has no `[`), name and signature of a method (if the name has no `(`), accessor flags of a property; a namespace label is "{} " and the name; type and field labels are their names; the references node reads "References" |
| `NodeKinds.BracketedRoundTrip` | src/AssemblyBrowser/ListNodes.cs:210 | splitting `name [detail]` at its last `[` gives back name and detail when the detail has no `[` |
| `NodeKinds.CallRoundTrip` | src/AssemblyBrowser/ListNodes.cs:324 | splitting `name(signature)` at its first `(` gives back name and signature when the name has no `(` |
| `NodeKinds.LabelStartsWithName` | src/AssemblyBrowser/ListNodes.cs:173-363 | every entity node's label begins with the entity's name; a namespace label is "{} " followed by the name (empty for null); the references node's label is "References" |
| `NodeKinds.AssemblyChildrenSpec` | src/AssemblyBrowser/ListNodes.cs:160-169 | an assembly node's first child is its references node; child `j` after it is the namespace node of group `j - 1` of the grouping, in group order; each is non-empty, with distinct names; every type definition sits in a namespace child carrying its namespace; the namespace children hold exactly the assembly's type definitions as a multiset |
| `NodeKinds.AssemblyChildrenUnique` | src/AssemblyBrowser/ListNodes.cs:164-168 | no type definition sits in two different namespace children |
| `NamespaceGrouping.NamespaceKeysDistinct` | src/AssemblyBrowser/ListNodes.cs:164 | grouping yields each namespace key once |
| `NamespaceGrouping.NamespaceKeysComplete` | src/AssemblyBrowser/ListNodes.cs:164 | a key is among the groups exactly when some type definition carries it |
| `NamespaceGrouping.KeysFirstOccurrence` | src/AssemblyBrowser/ListNodes.cs:164-168 | namespace nodes come in order of first occurrence: if a type carries a later key, some type before it carries each earlier key |
| `NamespaceGrouping.TypesInMembers` | src/AssemblyBrowser/ListNodes.cs:164 | a group holds exactly the input definitions that carry its key |
| `NamespaceGrouping.TypesInAppend` | src/AssemblyBrowser/ListNodes.cs:164 | a group keeps the input order: it distributes over concatenation |
| `NamespaceGrouping.GroupByNamespaceGroups` | src/AssemblyBrowser/ListNodes.cs:164-165 | group keys are distinct, no group is empty, and each member of a group is an input definition carrying the group's key |
| `NamespaceGrouping.GroupByNamespaceCovers` | src/AssemblyBrowser/ListNodes.cs:164-168 | every type definition lands in exactly one group |
| `NamespaceGrouping.GroupByNamespacePermutation` | src/AssemblyBrowser/ListNodes.cs:164-168 | the groups together are a permutation of the input: nothing lost, nothing duplicated |

## Left out

- ImGui drawing in `ListNode.Draw` is left out because it is UI side effects. This covers
  `PushID`/`PopID`, `Selectable`, `TreeNode`, `Text`, `SetNextTreeNodeOpened`, the choice between
  a tree row and a text row by `Children.Any()`, and the `PreDrawNodeLabel`/`PostDrawNodeLabel`
  style colours. Only the decision taken after a click (lines 77-91) is modelled; the Ctrl key
  state is a parameter.
- `ListNode.ID` is left out. The Guid only feeds ImGui: `PushID` (line 74) and the row's
  `Selectable` id (line 75). Selection compares references, which the model does with object
  identity.
- `BeginListView(null)` and `GetSelectedNode(null)` are left out: view ids are non-null
  strings. A null id would make the registry behave as after `EndListView`, and the
  `TryGetValue(null)` of `GetSelectedNode` (line 23) throws `ArgumentNullException`.
- The CIL-to-text printer (`CilToStringUtilities`) is an external visitor. Each node's use of it
  is a call to the function parameter `cil`, which yields printed text or an exception's text.
  The exception's `ToString()` text is taken as given.
- Metadata decoding is not modelled: `CilAssembly` and the other CIL types are records of
  names, flags and sequences. `GetDecodedSignature()` and `GetFormattedVersion()` are opaque
  strings. So is the assembly `Version`'s formatting.
- `Environment.NewLine` is fixed to a line feed, because the platform's value is not visible
  here.
- `NodeKinds.KeptMethods`: `string.StartsWith(string)` is culture-sensitive in .NET. The model
  uses an ordinal prefix test, which agrees for these ASCII prefixes except for culture-ignorable
  characters.
- `NodeKinds.NamespaceText`'s whitespace test follows the documented `Char.IsWhiteSpace` set. A
  `char` here is a Unicode scalar value, not a UTF-16 code unit.
- The window, rendering and entry-point files are left out: `SimpleGLWindow.cs`,
  `AssemblyBrowserWindow.cs`, `Colors.cs` and `Program.cs`. They cover OpenGL, input polling,
  floating-point frame timing, file opening and menus.
- `AsyncStringResult.cs` is left out. It is a background task that overwrites a buffer from a
  worker thread, which is concurrency outside this sequential core.
- The code has no asynchronous loader, generation counter, delivery queue or cancellation in
  the node tree, so the model has none either.
- The stack-trace part of an exception's text is not modelled. The printer oracle `cil` gives
  one exception text per element. In .NET, `e.ToString()` also lists the frames up to the
  catching method. So the references node's cached text, which passes through
  `GetInternalString` and `string.Join`, would differ in its trace from the text the
  reference node itself caches.
- Labels whose version contains `[` or whose method name contains `(` do not split back
  uniquely. That is a property of the label formats themselves, so `NodeKinds.Label` states
  its round trips only outside those cases.
- Exceptions thrown while a constructor enumerates metadata are left out. The CIL enumerations
  are treated as total sequences.
