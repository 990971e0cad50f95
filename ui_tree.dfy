/**
 * The UI element tree that both the generator and the runtime binder walk.
 *
 * A node stands for a `VisualElement`: its concrete type (what `GetType().Name`
 * returns), the values of its `--csName` and `--csTemplate` custom style
 * properties (absent when `customStyle.TryGetValue` fails), and its children in
 * document order.
 */
module UiTree {
  import opened Wrappers
  import opened OrderedDictionary

  datatype Node = Node(typeTag: string, csName: Option<string>, csTemplate: Option<string>, children: seq<Node>)

  /** The type name of the fresh `new VisualElement()` that a converted class uses as its `Root`. */
  const RootTypeTag: string := "VisualElement"

  /** The nodes of the subtree rooted at `n`, depth first, each node before its children, children in document order. */
  function PreOrder(n: Node): (r: seq<Node>)
    ensures |r| >= 1 && r[0] == n
  {
    [n] + PreOrderAll(n.children)
  }

  /** The pre-order visit of a list of sibling subtrees, one after the other. */
  function PreOrderAll(ns: seq<Node>): (r: seq<Node>)
    ensures |r| >= |ns|
  {
    if ns == [] then [] else PreOrder(ns[0]) + PreOrderAll(ns[1..])
  }

  /** Visiting `a + b` visits all of `a` and then all of `b`. */
  lemma {:induction false} PreOrderAllAppend(a: seq<Node>, b: seq<Node>)
    ensures PreOrderAll(a + b) == PreOrderAll(a) + PreOrderAll(b)
  {
    if a == [] {
      assert a + b == b;
    } else {
      assert (a + b)[0] == a[0];
      assert (a + b)[1..] == a[1..] + b;
      PreOrderAllAppend(a[1..], b);
    }
  }

  /** The step a `foreach` over a child list takes: visiting one more sibling. */
  lemma PreOrderAllSnoc(ns: seq<Node>, i: nat)
    requires i < |ns|
    ensures PreOrderAll(ns[..i + 1]) == PreOrderAll(ns[..i]) + PreOrder(ns[i])
  {
    assert ns[..i + 1] == ns[..i] + [ns[i]];
    PreOrderAllAppend(ns[..i], [ns[i]]);
    assert [ns[i]][1..] == [];
  }

  /** Every node of a subtree is visited: a child's whole subtree is part of its parent's visit. */
  lemma {:induction false} PreOrderAllCovers(ns: seq<Node>, i: nat)
    requires i < |ns|
    ensures multiset(PreOrder(ns[i])) <= multiset(PreOrderAll(ns))
  {
    if i > 0 {
      PreOrderAllCovers(ns[1..], i - 1);
    }
  }

  /** The (name, node) pair of every node that carries `--csName`, in the order of `xs`. */
  function NameCandidates(xs: seq<Node>): (r: seq<(string, Node)>)
    ensures |r| <= |xs|
  {
    if xs == [] then []
    else if xs[0].csName.Some? then [(xs[0].csName.value, xs[0])] + NameCandidates(xs[1..])
    else NameCandidates(xs[1..])
  }

  /** Every candidate is a node of `xs` paired with the name it carries. */
  lemma {:induction false} NameCandidatesNamed(xs: seq<Node>)
    ensures forall i :: 0 <= i < |NameCandidates(xs)| ==>
      NameCandidates(xs)[i].1 in xs && NameCandidates(xs)[i].1.csName == Some(NameCandidates(xs)[i].0)
  {
    if xs != [] {
      NameCandidatesNamed(xs[1..]);
      var r, rest := NameCandidates(xs), NameCandidates(xs[1..]);
      assert r == if xs[0].csName.Some? then [(xs[0].csName.value, xs[0])] + rest else rest;
      forall i | 0 <= i < |r| ensures r[i].1 in xs && r[i].1.csName == Some(r[i].0) {
        if xs[0].csName.Some? && i == 0 {
          assert r[0] == (xs[0].csName.value, xs[0]);
        } else {
          var k := if xs[0].csName.Some? then i - 1 else i;
          assert r[i] == rest[k];
          assert rest[k].1 in xs[1..];
        }
      }
    }
  }

  lemma {:induction false} NameCandidatesAppend(a: seq<Node>, b: seq<Node>)
    ensures NameCandidates(a + b) == NameCandidates(a) + NameCandidates(b)
  {
    if a == [] {
      assert a + b == b;
    } else {
      assert (a + b)[0] == a[0];
      assert (a + b)[1..] == a[1..] + b;
      NameCandidatesAppend(a[1..], b);
    }
  }

  /** The names carried by the nodes of `xs`, as a set. */
  function NameSet(xs: seq<Node>): set<string>
  {
    set x | x in xs && x.csName.Some? :: x.csName.value
  }

  /**
   * The first node of `xs` named `k`: an independent statement of "first one wins",
   * characterised by its contract.
   */
  function FirstNamed(xs: seq<Node>, k: string): (r: Option<Node>)
    ensures r.None? <==> forall i :: 0 <= i < |xs| ==> xs[i].csName != Some(k)
    ensures r.Some? ==> exists i :: 0 <= i < |xs| && xs[i] == r.value && xs[i].csName == Some(k)
                                   && forall j :: 0 <= j < i ==> xs[j].csName != Some(k)
  {
    if xs == [] then None
    else if xs[0].csName == Some(k) then Some(xs[0])
    else
      var r := FirstNamed(xs[1..], k);
      assert r.Some? ==> exists i :: 1 <= i < |xs| && xs[i] == r.value && xs[i].csName == Some(k)
                                   && forall j :: 0 <= j < i ==> xs[j].csName != Some(k) by {
        if r.Some? {
          var i :| 0 <= i < |xs[1..]| && xs[1..][i] == r.value && xs[1..][i].csName == Some(k)
                   && forall j :: 0 <= j < i ==> xs[1..][j].csName != Some(k);
          assert forall j :: 0 <= j < i + 1 ==> xs[j].csName != Some(k) by {
            forall j | 0 <= j < i + 1 ensures xs[j].csName != Some(k) {
              if j > 0 { assert xs[j] == xs[1..][j - 1]; }
            }
          }
        }
      }
      r
  }

  /** Looking a name up among the candidates finds the first node of `xs` that carries it. */
  lemma {:induction false} GetNameCandidates(xs: seq<Node>, k: string)
    ensures Get(NameCandidates(xs), k) == FirstNamed(xs, k)
  {
    if xs != [] {
      GetNameCandidates(xs[1..], k);
    }
  }

  /** A name has a candidate exactly when some node of `xs` carries it. */
  lemma NameCandidatesKeys(xs: seq<Node>, k: string)
    ensures ContainsKey(NameCandidates(xs), k) <==> k in NameSet(xs)
  {
    GetNameCandidates(xs, k);
    if k in NameSet(xs) {
      var x :| x in xs && x.csName.Some? && x.csName.value == k;
    }
  }

  /** The nodes of `xs` that carry `--csTemplate`, in the order of `xs`, duplicates kept. */
  function TemplateNodes(xs: seq<Node>): (r: seq<Node>)
    ensures |r| <= |xs|
  {
    if xs == [] then []
    else if xs[0].csTemplate.Some? then [xs[0]] + TemplateNodes(xs[1..])
    else TemplateNodes(xs[1..])
  }

  lemma {:induction false} TemplateNodesAppend(a: seq<Node>, b: seq<Node>)
    ensures TemplateNodes(a + b) == TemplateNodes(a) + TemplateNodes(b)
  {
    if a == [] {
      assert a + b == b;
    } else {
      assert (a + b)[0] == a[0];
      assert (a + b)[1..] == a[1..] + b;
      TemplateNodesAppend(a[1..], b);
    }
  }

  /**
   * The template list holds every template-tagged node exactly as often as it
   * occurs in `xs`, and nothing else.
   */
  lemma {:induction false} TemplateNodesCount(xs: seq<Node>, x: Node)
    ensures multiset(TemplateNodes(xs))[x] == if x.csTemplate.Some? then multiset(xs)[x] else 0
  {
    if xs != [] {
      TemplateNodesCount(xs[1..], x);
      assert xs == [xs[0]] + xs[1..];
      assert multiset(xs) == multiset([xs[0]]) + multiset(xs[1..]);
    }
  }
}
