/**
 * The two extension methods that move the children of a converted class's
 * `Root` into another element's hierarchy (`VisualElementExtensions`).
 *
 * An `Element` is a `VisualElement` seen through its child list. Moving a
 * child with `Add` or `Insert` first detaches it from its previous parent, as
 * the host's hierarchy does; here the previous parent is always the `Root`
 * whose children are being moved.
 */
module VisualElementExtensions {
  import opened UiTree

  /** `IndexOf`: the index of the first child equal to `x`, or -1. */
  function IndexOf(s: seq<Node>, x: Node): (r: int)
    ensures -1 <= r < |s|
    ensures r == -1 <==> x !in s
    ensures r >= 0 ==> s[r] == x && forall j :: 0 <= j < r ==> s[j] != x
  {
    if s == [] then -1
    else if s[0] == x then 0
    else
      var r := IndexOf(s[1..], x);
      assert r >= 0 ==> forall j :: 0 < j < r + 1 ==> s[j] == s[1..][j - 1];
      if r == -1 then -1 else r + 1
  }

  /** An element's ordered, mutable list of children. */
  class Element {
    var children: seq<Node>

    constructor (children: seq<Node>)
      ensures this.children == children
    {
      this.children := children;
    }

    /** `Add`: append a child at the end. */
    method Add(child: Node)
      modifies this
      ensures children == old(children) + [child]
    {
      children := children + [child];
    }

    /** `Insert`: put a child at `index`, shifting the later children one place right. */
    method Insert(index: nat, child: Node)
      requires index <= |children|
      modifies this
      ensures children == old(children)[..index] + [child] + old(children)[index..]
    {
      children := children[..index] + [child] + children[index..];
    }

    /** `RemoveAt`: drop the child at `index`, shifting the later children one place left. */
    method RemoveAt(index: nat)
      requires index < |children|
      modifies this
      ensures children == old(children)[..index] + old(children)[index + 1..]
    {
      children := children[..index] + children[index + 1..];
    }

    /** `Remove` (the detaching done by `RemoveFromHierarchy`): drop the first child equal to `child`. */
    method Remove(child: Node)
      requires child in children
      modifies this
      ensures var k := IndexOf(old(children), child);
        children == old(children)[..k] + old(children)[k + 1..]
    {
      var k := IndexOf(children, child);
      children := children[..k] + children[k + 1..];
    }
  }

  /**
   * `AddChildrenOf`: move the snapshotted children of `withRoot` (the `Root` of
   * the converted class), in order, to the end of `el`'s children.
   */
  method AddChildrenOf(el: Element, withRoot: Element)
    requires el != withRoot
    modifies el, withRoot
    ensures el.children == old(el.children) + old(withRoot.children)
    ensures withRoot.children == []
  {
    var children := withRoot.children;
    for i := 0 to |children|
      invariant el.children == old(el.children) + children[..i]
      invariant withRoot.children == children[i..]
    {
      assert IndexOf(withRoot.children, children[i]) == 0;
      withRoot.Remove(children[i]);
      el.Add(children[i]);
      assert children[..i + 1] == children[..i] + [children[i]];
    }
    assert children[..|children|] == children;
  }

  /** Inserting the next moved child right after those already inserted after position `t`. */
  lemma SpliceStep(c: seq<Node>, t: nat, children: seq<Node>, i: nat)
    requires t < |c| && i < |children|
    ensures var s := c[..t + 1] + children[..i] + c[t + 1..];
      && t + 1 + i <= |s|
      && s[..t + 1 + i] + [children[i]] + s[t + 1 + i..] == c[..t + 1] + children[..i + 1] + c[t + 1..]
  {
    var s := c[..t + 1] + children[..i] + c[t + 1..];
    assert s[..t + 1 + i] == c[..t + 1] + children[..i];
    assert s[t + 1 + i..] == c[t + 1..];
    assert children[..i + 1] == children[..i] + [children[i]];
  }

  /** Removing the element at `t` once every moved child sits after it. */
  lemma SpliceFinish(c: seq<Node>, t: nat, children: seq<Node>)
    requires t < |c|
    ensures var s := c[..t + 1] + children + c[t + 1..];
      && t < |s|
      && s[..t] + s[t + 1..] == c[..t] + children + c[t + 1..]
      && |c[..t] + children + c[t + 1..]| == |c| - 1 + |children|
      && forall j :: 0 <= j < |children| ==> (c[..t] + children + c[t + 1..])[t + j] == children[j]
  {
    var s := c[..t + 1] + children + c[t + 1..];
    assert s[..t] == c[..t];
    assert s[t + 1..] == children + c[t + 1..];
  }

  /**
   * `ReplaceElementWithChildrenOf`: insert the snapshotted children of
   * `withRoot` right after `el` in `el`'s parent, in order, then remove `el`.
   * `parent` is `el.parent`, which the caller guarantees is set.
   */
  method ReplaceElementWithChildrenOf(el: Node, parent: Element, withRoot: Element)
    requires el in parent.children
    requires parent != withRoot
    modifies parent, withRoot
    ensures var c, p, k := old(parent.children), IndexOf(old(parent.children), el), |old(withRoot.children)|;
      && parent.children == c[..p] + old(withRoot.children) + c[p + 1..]
      && |parent.children| == |c| - 1 + k
      && (forall j :: 0 <= j < k ==> parent.children[p + j] == old(withRoot.children)[j])
    ensures withRoot.children == []
  {
    var templateIndex := IndexOf(parent.children, el);
    ghost var c := parent.children;
    var children := withRoot.children;
    for i := 0 to |children|
      invariant parent.children == c[..templateIndex + 1] + children[..i] + c[templateIndex + 1..]
      invariant withRoot.children == children[i..]
    {
      assert IndexOf(withRoot.children, children[i]) == 0;
      withRoot.Remove(children[i]);
      SpliceStep(c, templateIndex, children, i);
      parent.Insert(templateIndex + 1 + i, children[i]);
    }
    assert children[..|children|] == children;
    SpliceFinish(c, templateIndex, children);
    assert parent.children[templateIndex] == el;
    parent.RemoveAt(templateIndex);
  }
}
