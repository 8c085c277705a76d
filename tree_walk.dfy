/** The module-level tree walkers over a resource's tree projection:
    extract_archival_object_uris_from_children and find_children_with_instances.
    Both append into an accumulator list; the walkers here take it as an
    explicit parameter, and `SharedDefaults` models the default list that the
    source shares between calls. */
module TreeWalk {
  import opened Records

  /** The nodes the walkers visit, in visiting order: a node, then its subtree
      when it says it has children, then its later siblings. A node whose
      `has_children` is false is not descended into, whatever it holds. */
  function Preorder(nodes: seq<TreeNode>): seq<TreeNode>
    decreases nodes
  {
    if nodes == [] then []
    else [nodes[0]] + (if nodes[0].hasChildren then Preorder(nodes[0].children) else []) + Preorder(nodes[1..])
  }

  function Uris(nodes: seq<TreeNode>): (r: seq<Uri>)
    ensures |r| == |nodes|
  {
    if nodes == [] then [] else [nodes[0].recordUri] + Uris(nodes[1..])
  }

  /** A node is collected when it has instances and, when an instance type is
      asked for ("" stands for the default `False`), one of them is of that type. */
  predicate Qualifies(node: TreeNode, instanceType: string) {
    node.instanceTypes != [] && (instanceType == "" || instanceType in node.instanceTypes)
  }

  function Keep(nodes: seq<TreeNode>, instanceType: string): seq<TreeNode>
  {
    if nodes == [] then []
    else (if Qualifies(nodes[0], instanceType) then [nodes[0]] else []) + Keep(nodes[1..], instanceType)
  }

  /** Every record uri of the tree, in pre-order. */
  function Flatten(children: seq<TreeNode>): seq<Uri> {
    Uris(Preorder(children))
  }

  /** The record uris of the qualifying nodes, in pre-order. */
  function WithInstances(children: seq<TreeNode>, instanceType: string): seq<Uri> {
    Uris(Keep(Preorder(children), instanceType))
  }

  lemma {:induction false} PreorderAppend(a: seq<TreeNode>, b: seq<TreeNode>)
    ensures Preorder(a + b) == Preorder(a) + Preorder(b)
  {
    if a == [] {
      assert a + b == b;
    } else {
      assert (a + b)[0] == a[0];
      assert (a + b)[1..] == a[1..] + b;
      PreorderAppend(a[1..], b);
    }
  }

  lemma {:induction false} UrisAppend(a: seq<TreeNode>, b: seq<TreeNode>)
    ensures Uris(a + b) == Uris(a) + Uris(b)
  {
    if a == [] {
      assert a + b == b;
    } else {
      assert (a + b)[1..] == a[1..] + b;
      UrisAppend(a[1..], b);
    }
  }

  lemma {:induction false} KeepAppend(a: seq<TreeNode>, b: seq<TreeNode>, instanceType: string)
    ensures Keep(a + b, instanceType) == Keep(a, instanceType) + Keep(b, instanceType)
  {
    if a == [] {
      assert a + b == b;
    } else {
      assert (a + b)[1..] == a[1..] + b;
      KeepAppend(a[1..], b, instanceType);
    }
  }

  /** What one more sibling adds to the visit: the node, then its subtree when
      it says it has children. */
  lemma PreorderSnoc(nodes: seq<TreeNode>, child: TreeNode)
    ensures Preorder(nodes + [child]) ==
      Preorder(nodes) + [child] + (if child.hasChildren then Preorder(child.children) else [])
  {
    PreorderAppend(nodes, [child]);
    assert [child][1..] == [];
  }

  lemma FlattenSnoc(nodes: seq<TreeNode>, child: TreeNode)
    ensures Flatten(nodes + [child]) ==
      Flatten(nodes) + [child.recordUri] + (if child.hasChildren then Flatten(child.children) else [])
  {
    PreorderSnoc(nodes, child);
    var sub := if child.hasChildren then Preorder(child.children) else [];
    UrisAppend(Preorder(nodes) + [child], sub);
    UrisAppend(Preorder(nodes), [child]);
  }

  lemma WithInstancesSnoc(nodes: seq<TreeNode>, child: TreeNode, instanceType: string)
    ensures WithInstances(nodes + [child], instanceType) ==
      WithInstances(nodes, instanceType)
      + (if Qualifies(child, instanceType) then [child.recordUri] else [])
      + (if child.hasChildren then WithInstances(child.children, instanceType) else [])
  {
    PreorderSnoc(nodes, child);
    var sub := if child.hasChildren then Preorder(child.children) else [];
    KeepAppend(Preorder(nodes) + [child], sub, instanceType);
    KeepAppend(Preorder(nodes), [child], instanceType);
    assert Keep([child], instanceType) == if Qualifies(child, instanceType) then [child] else [];
    var front := Keep(Preorder(nodes), instanceType) + Keep([child], instanceType);
    UrisAppend(front, Keep(sub, instanceType));
    UrisAppend(Keep(Preorder(nodes), instanceType), Keep([child], instanceType));
  }

  lemma Regroup(acc: seq<Uri>, a: seq<Uri>, b: seq<Uri>, c: seq<Uri>)
    ensures acc + (a + b + c) == ((acc + a) + b) + c
  {
  }

  /** The visit of the first i + 1 children, from the visit of the first i. */
  lemma FlattenPrefix(children: seq<TreeNode>, i: nat)
    requires i < |children|
    ensures Flatten(children[..i + 1]) == Flatten(children[..i]) + [children[i].recordUri]
      + (if children[i].hasChildren then Flatten(children[i].children) else [])
  {
    assert children[..i + 1] == children[..i] + [children[i]];
    FlattenSnoc(children[..i], children[i]);
  }

  lemma WithInstancesPrefix(children: seq<TreeNode>, i: nat, instanceType: string)
    requires i < |children|
    ensures WithInstances(children[..i + 1], instanceType) == WithInstances(children[..i], instanceType)
      + (if Qualifies(children[i], instanceType) then [children[i].recordUri] else [])
      + (if children[i].hasChildren then WithInstances(children[i].children, instanceType) else [])
  {
    assert children[..i + 1] == children[..i] + [children[i]];
    WithInstancesSnoc(children[..i], children[i], instanceType);
  }

  /** extract_archival_object_uris_from_children: the loop over the children,
      appending each record uri and recursing into children that have children. */
  method ExtractUris(children: seq<TreeNode>, acc: seq<Uri>) returns (r: seq<Uri>)
    ensures r == acc + Flatten(children)
    decreases children
  {
    r := acc;
    for i := 0 to |children|
      invariant r == acc + Flatten(children[..i])
    {
      var child := children[i];
      ghost var before := Flatten(children[..i]);
      ghost var sub := if child.hasChildren then Flatten(child.children) else [];
      FlattenPrefix(children, i);
      r := r + [child.recordUri];
      if child.hasChildren {
        r := ExtractUris(child.children, r);
      }
      assert r == ((acc + before) + [child.recordUri]) + sub;
      Regroup(acc, before, [child.recordUri], sub);
    }
    assert children[..|children|] == children;
  }

  /** find_children_with_instances: the same walk, appending only the
      qualifying children, and still recursing through those that do not qualify. */
  method FindChildrenWithInstances(children: seq<TreeNode>, acc: seq<Uri>, instanceType: string) returns (r: seq<Uri>)
    ensures r == acc + WithInstances(children, instanceType)
    decreases children
  {
    r := acc;
    for i := 0 to |children|
      invariant r == acc + WithInstances(children[..i], instanceType)
    {
      var child := children[i];
      ghost var before := WithInstances(children[..i], instanceType);
      ghost var own := if Qualifies(child, instanceType) then [child.recordUri] else [];
      ghost var sub := if child.hasChildren then WithInstances(child.children, instanceType) else [];
      WithInstancesPrefix(children, i, instanceType);
      if child.instanceTypes != [] {
        if instanceType != "" && instanceType in child.instanceTypes {
          r := r + [child.recordUri];
        } else if instanceType == "" {
          r := r + [child.recordUri];
        }
      }
      assert r == (acc + before) + own;
      if child.hasChildren {
        r := FindChildrenWithInstances(child.children, r, instanceType);
      }
      assert r == ((acc + before) + own) + sub;
      Regroup(acc, before, own, sub);
    }
    assert children[..|children|] == children;
  }

  /** `a` can be obtained from `b` by deleting elements: an order-preserving subsequence. */
  predicate Subsequence(a: seq<Uri>, b: seq<Uri>)
    decreases |b|
  {
    if b == [] then a == []
    else (a != [] && a[0] == b[0] && Subsequence(a[1..], b[1..])) || Subsequence(a, b[1..])
  }

  lemma {:induction false} KeptSubsequence(nodes: seq<TreeNode>, instanceType: string)
    ensures Subsequence(Uris(Keep(nodes, instanceType)), Uris(nodes))
  {
    if nodes != [] {
      var rest := nodes[1..];
      KeptSubsequence(rest, instanceType);
      var all := Uris(nodes);
      assert all == [nodes[0].recordUri] + Uris(rest);
      assert all[1..] == Uris(rest);
      if Qualifies(nodes[0], instanceType) {
        var kept := Uris(Keep(nodes, instanceType));
        assert Keep(nodes, instanceType) == [nodes[0]] + Keep(rest, instanceType);
        assert kept == [nodes[0].recordUri] + Uris(Keep(rest, instanceType));
        assert kept[1..] == Uris(Keep(rest, instanceType));
      } else {
        assert Keep(nodes, instanceType) == Keep(rest, instanceType);
      }
    }
  }

  /** With a fresh accumulator, the children with instances are an
      order-preserving subsequence of all the record uris of the tree. */
  lemma WithInstancesIsSubsequence(children: seq<TreeNode>, instanceType: string)
    ensures Subsequence(WithInstances(children, instanceType), Flatten(children))
  {
    KeptSubsequence(Preorder(children), instanceType);
  }

  lemma {:induction false} UrisMembers(nodes: seq<TreeNode>, u: Uri)
    ensures u in Uris(nodes) <==> exists n :: n in nodes && n.recordUri == u
  {
    if nodes != [] {
      UrisMembers(nodes[1..], u);
      assert Uris(nodes) == [nodes[0].recordUri] + Uris(nodes[1..]);
      assert nodes == [nodes[0]] + nodes[1..];
      assert forall n :: n in nodes <==> n == nodes[0] || n in nodes[1..];
    }
  }

  lemma {:induction false} KeepMembers(nodes: seq<TreeNode>, instanceType: string, n: TreeNode)
    ensures n in Keep(nodes, instanceType) <==> n in nodes && Qualifies(n, instanceType)
  {
    if nodes != [] {
      KeepMembers(nodes[1..], instanceType, n);
      assert nodes == [nodes[0]] + nodes[1..];
    }
  }

  /** A uri is reported exactly when a visited node with that uri qualifies. */
  lemma WithInstancesMembers(children: seq<TreeNode>, instanceType: string, u: Uri)
    ensures u in WithInstances(children, instanceType) <==>
      exists n :: n in Preorder(children) && Qualifies(n, instanceType) && n.recordUri == u
  {
    var visited := Preorder(children);
    var kept := Keep(visited, instanceType);
    UrisMembers(kept, u);
    forall n
      ensures n in kept <==> n in visited && Qualifies(n, instanceType)
    {
      KeepMembers(visited, instanceType, n);
    }
  }

  /** When every visited node has instances, the default walk reports every uri. */
  lemma {:induction false} AllQualifyGivesFlatten(nodes: seq<TreeNode>)
    requires forall n :: n in nodes ==> n.instanceTypes != []
    ensures Keep(nodes, "") == nodes
  {
    if nodes != [] {
      assert nodes[0] in nodes;
      assert forall n :: n in nodes[1..] ==> n in nodes;
      AllQualifyGivesFlatten(nodes[1..]);
    }
  }

  /** A node whose `has_children` is false hides its children from both walks. */
  lemma ChildlessFlagHidesChildren(node: TreeNode, instanceType: string)
    requires !node.hasChildren
    ensures Flatten([node]) == [node.recordUri]
    ensures WithInstances([node], instanceType) == if Qualifies(node, instanceType) then [node.recordUri] else []
  {
    FlattenSnoc([], node);
    WithInstancesSnoc([], node, instanceType);
    assert [] + [node] == [node];
  }

  /** A node that does not qualify is skipped, but its subtree is still searched. */
  lemma NonQualifyingNodeSearched(node: TreeNode, instanceType: string)
    requires node.hasChildren && !Qualifies(node, instanceType)
    ensures WithInstances([node], instanceType) == WithInstances(node.children, instanceType)
  {
    WithInstancesSnoc([], node, instanceType);
    assert [] + [node] == [node];
  }

  /** The default accumulator lists of the two walkers, created once and kept
      between calls. */
  class SharedDefaults {
    var extracted: seq<Uri>
    var withInstances: seq<Uri>

    constructor ()
      ensures extracted == [] && withInstances == []
    {
      extracted := [];
      withInstances := [];
    }

    /** A call that leaves the accumulator to its default: the walk appends to
        the shared list and returns that list, earlier calls' uris included.
        The result is a value: in Python the caller receives the shared list
        itself, so appending to it would also reach later calls, an aliasing
        this model does not capture. */
    method ExtractWithDefault(children: seq<TreeNode>) returns (r: seq<Uri>)
      modifies this
      ensures extracted == old(extracted) + Flatten(children) && r == extracted
      ensures withInstances == old(withInstances)
    {
      extracted := ExtractUris(children, extracted);
      r := extracted;
    }

    method FindWithDefault(children: seq<TreeNode>, instanceType: string) returns (r: seq<Uri>)
      modifies this
      ensures withInstances == old(withInstances) + WithInstances(children, instanceType) && r == withInstances
      ensures extracted == old(extracted)
    {
      withInstances := FindChildrenWithInstances(children, withInstances, instanceType);
      r := withInstances;
    }
  }

  /** Two calls relying on the default accumulator: the second returns the
      first call's uris again, followed by its own, so it differs from a walk
      with a fresh list whenever the tree is non-empty. */
  method LeakAcrossCalls(children: seq<TreeNode>) returns (first: seq<Uri>, second: seq<Uri>)
    ensures first == Flatten(children)
    ensures second == first + Flatten(children)
    ensures children != [] ==> second != Flatten(children)
  {
    var defaults := new SharedDefaults();
    first := defaults.ExtractWithDefault(children);
    second := defaults.ExtractWithDefault(children);
    assert children != [] ==> |Preorder(children)| > 0;
  }

  /** The same leak in find_children_with_instances. */
  method LeakAcrossFindCalls(children: seq<TreeNode>, instanceType: string) returns (first: seq<Uri>, second: seq<Uri>)
    ensures first == WithInstances(children, instanceType)
    ensures second == first + WithInstances(children, instanceType)
    ensures first != [] ==> second != WithInstances(children, instanceType)
  {
    var defaults := new SharedDefaults();
    first := defaults.FindWithDefault(children, instanceType);
    second := defaults.FindWithDefault(children, instanceType);
  }

  /** The walk with a fresh accumulator, as callers intend it. */
  method ArchivalObjectUris(children: seq<TreeNode>) returns (r: seq<Uri>)
    ensures r == Flatten(children)
  {
    r := ExtractUris(children, []);
  }

  method ChildrenWithInstances(children: seq<TreeNode>, instanceType: string) returns (r: seq<Uri>)
    ensures r == WithInstances(children, instanceType)
    ensures Subsequence(r, Flatten(children))
  {
    r := FindChildrenWithInstances(children, [], instanceType);
    WithInstancesIsSubsequence(children, instanceType);
  }
}
