/**
 * The browser's selection registry and its tree nodes: the state that ListNodes.cs changes
 * in place. `ListView` is the process-wide registry (there a static class, here one object
 * handed to every node); `ListNode` is one node, whose kind says which subclass it is.
 */
module ListNodes {
  import opened Wrappers
  import opened CilMetadata
  import opened NodeKinds
  import NamespaceGrouping

  /** The selection per view id, and the view currently being drawn. */
  class ListView {
    /** Selected node per view id; an entry may hold null (None) after a deselecting click. */
    var selectedNodes: map<string, Option<ListNode>>
    /** The view between BeginListView and EndListView, null outside. */
    var currentViewId: Option<string>

    /** The registry as the program starts: no entries, no current view. */
    constructor ()
      ensures selectedNodes == map[] && currentViewId == None
    {
      selectedNodes := map[];
      currentViewId := None;
    }

    /** The node recorded for view `id`; null when nothing was ever recorded. */
    function SelectionOf(id: string): Option<ListNode>
      reads this
    {
      if id in selectedNodes then selectedNodes[id] else None
    }

    method GetSelectedNode(id: string) returns (node: Option<ListNode>)
      ensures id in selectedNodes ==> node == selectedNodes[id]
      ensures id !in selectedNodes ==> node == None
    {
      if id in selectedNodes {
        node := selectedNodes[id];
      } else {
        node := None;
      }
    }

    /** Debug.Assert guards the current view; without one the dictionary lookup would throw. */
    method GetSelectedNodeForCurrentView() returns (node: Option<ListNode>)
      requires currentViewId.Some?
      ensures currentViewId.value in selectedNodes ==> node == selectedNodes[currentViewId.value]
      ensures currentViewId.value !in selectedNodes ==> node == None
    {
      node := GetSelectedNode(currentViewId.value);
    }

    method BeginListView(id: string)
      modifies this`currentViewId
      ensures currentViewId == Some(id)
      ensures selectedNodes == old(selectedNodes)
    {
      currentViewId := Some(id);
    }

    method EndListView()
      modifies this`currentViewId
      ensures currentViewId == None
      ensures selectedNodes == old(selectedNodes)
    {
      currentViewId := None;
    }

    /** Records `node` for the current view; every other view keeps its selection. */
    method SetSelectedNode(node: Option<ListNode>)
      requires currentViewId.Some?
      modifies this`selectedNodes
      ensures selectedNodes == old(selectedNodes)[currentViewId.value := node]
      ensures SelectionOf(currentViewId.value) == node
      ensures forall id :: id != currentViewId.value ==> SelectionOf(id) == old(SelectionOf(id))
    {
      selectedNodes := selectedNodes[currentViewId.value := node];
    }
  }

  /** One node of the tree. */
  class ListNode {
    const kind: NodeKind
    const children: seq<ListNode>
    var isCollapsed: bool
    /** The memoised detail text (`_specialText`); None is null. */
    var specialText: Option<string>
    /** How often this node has called its `InternalGetSpecialText`. */
    ghost var providerCalls: nat
    /** The nodes built together with this one: itself and everything below it. */
    ghost const subtree: set<ListNode>

    /**
     * Builds a node and, recursively, a fresh node for each entry of its child list,
     * in order. The whole new tree follows the child-list rules at every depth and
     * `subtree` holds every node of it (`Shaped`, `AtInSubtree`); all of them are fresh,
     * collapsed and uncached.
     */
    constructor (k: NodeKind)
      ensures kind == k && isCollapsed && specialText == None && providerCalls == 0
      ensures Shaped(this)
      ensures fresh(subtree)
      ensures forall m :: m in subtree ==> m.isCollapsed && m.specialText == None
      decreases Level(k), 1
    {
      var built;
      ghost var made;
      built, made := BuildChildren(k);
      kind := k;
      children := built;
      subtree := made + {this};
      isCollapsed := true;
      specialText := None;
      providerCalls := 0;
    }

    /** The child nodes of a new node of kind `k`, one fresh node per child kind, in order. */
    static method BuildChildren(k: NodeKind) returns (built: seq<ListNode>, ghost made: set<ListNode>)
      ensures |built| == |ChildKinds(k)|
      ensures forall j :: 0 <= j < |built| ==> built[j].kind == ChildKinds(k)[j] && Shaped(built[j])
      ensures forall j :: 0 <= j < |built| ==> built[j].subtree <= made
      ensures fresh(made)
      ensures forall m :: m in made ==> m.isCollapsed && m.specialText == None
      ensures NamespaceGrouping.Distinct(built)
      decreases Level(k), 0
    {
      var kinds := ChildKinds(k);
      built, made := [], {};
      var i := 0;
      while i < |kinds|
        invariant 0 <= i <= |kinds| && |built| == i
        invariant forall j :: 0 <= j < i ==> built[j].kind == kinds[j] && Shaped(built[j])
        invariant forall j :: 0 <= j < i ==> built[j].subtree <= made
        invariant fresh(made)
        invariant forall m :: m in made ==> m.isCollapsed && m.specialText == None
        invariant NamespaceGrouping.Distinct(built)
      {
        var child := new ListNode(kinds[i]);
        built := built + [child];
        made := made + child.subtree;
        i := i + 1;
      }
    }

    /** IsSelected: the current view's recorded node is this very object. */
    predicate IsSelected(view: ListView)
      reads view
      requires view.currentViewId.Some?
    {
      view.SelectionOf(view.currentViewId.value) == Some(this)
    }

    /**
     * GetNodeSpecialText: asks the provider only while the cache is empty, caches an
     * exception's text like a result, and returns what the cache then holds.
     */
    method GetNodeSpecialText(cil: CilElement -> CilText) returns (text: Option<string>)
      modifies this`specialText, this`providerCalls
      ensures specialText == Memoized(old(specialText), InternalGetSpecialText(kind, cil))
      ensures text == specialText && specialText.Some?
      ensures old(specialText).Some? ==> specialText == old(specialText) && providerCalls == old(providerCalls)
      ensures old(specialText).None? ==> providerCalls == old(providerCalls) + 1
    {
      if specialText.None? {
        providerCalls := providerCalls + 1;
        var outcome := InternalGetSpecialText(kind, cil);
        if outcome.Ok? {
          specialText := Some(outcome.text);
        } else if outcome.Err? {
          specialText := Some(outcome.exceptionText);
        }
      }
      text := specialText;
    }

    /**
     * What a click on this node's row does: the collapse flag flips when the node was
     * selected and Ctrl is up, or when it was collapsed; a Ctrl-click on the selected node
     * clears the current view's selection, any other click selects this node.
     */
    method Click(view: ListView, isCtrlPressed: bool)
      requires view.currentViewId.Some?
      modifies this`isCollapsed, view`selectedNodes
      ensures isCollapsed != old(isCollapsed)
        <==> (!isCtrlPressed && old(IsSelected(view))) || old(isCollapsed)
      ensures view.selectedNodes == old(view.selectedNodes)[view.currentViewId.value :=
        if old(IsSelected(view)) && isCtrlPressed then None else Some(this)]
      ensures IsSelected(view) <==> !(old(IsSelected(view)) && isCtrlPressed)
      ensures forall id :: id != view.currentViewId.value ==> view.SelectionOf(id) == old(view.SelectionOf(id))
    {
      var current := view.GetSelectedNodeForCurrentView();
      if (!isCtrlPressed && current == Some(this)) || isCollapsed {
        isCollapsed := !isCollapsed;
      }
      current := view.GetSelectedNodeForCurrentView();
      if current == Some(this) && isCtrlPressed {
        view.SetSelectedNode(None);
      } else {
        view.SetSelectedNode(Some(this));
      }
    }
  }

  /**
   * The node and all nodes below it were built by the child-list rules: each node's
   * children are distinct nodes of the kinds `ChildKinds` lists for it, in that order,
   * and each node's `subtree` holds the node and its children's subtrees.
   */
  ghost predicate Shaped(n: ListNode)
    decreases Level(n.kind)
  {
    && n in n.subtree
    && |n.children| == |ChildKinds(n.kind)|
    && NamespaceGrouping.Distinct(n.children)
    && forall i :: 0 <= i < |n.children| ==>
         && n.children[i].kind == ChildKinds(n.kind)[i]
         && n.children[i].subtree <= n.subtree
         && Shaped(n.children[i])
  }

  /** A path of child positions leading down from `n`. */
  ghost predicate IsPath(n: ListNode, path: seq<nat>)
    requires Shaped(n)
    decreases |path|
  {
    path == [] || (path[0] < |n.children| && IsPath(n.children[path[0]], path[1..]))
  }

  /** The node reached from `n` along `path`. */
  ghost function At(n: ListNode, path: seq<nat>): (r: ListNode)
    requires Shaped(n) && IsPath(n, path)
    ensures Shaped(r)
    decreases |path|
  {
    if path == [] then n else At(n.children[path[0]], path[1..])
  }

  /** Every node below a shaped node, at any depth, lies in its `subtree`. */
  lemma {:induction false} AtInSubtree(n: ListNode, path: seq<nat>)
    requires Shaped(n) && IsPath(n, path)
    ensures At(n, path) in n.subtree && At(n, path).subtree <= n.subtree
    decreases |path|
  {
    if path != [] {
      AtInSubtree(n.children[path[0]], path[1..]);
    }
  }

  /** Selection is by identity: two nodes selected in the same view are the same node. */
  lemma AtMostOneSelected(view: ListView, a: ListNode, b: ListNode)
    requires view.currentViewId.Some?
    requires a.IsSelected(view) && b.IsSelected(view)
    ensures a == b
  {
  }
}
