/** The trie node (src/DataStructures/Node.py): one value, an ordered list of
    children, an index from a child's value to its position, a leaf marker and
    a per-instance identifier. */
module Nodes {
  import opened Seqs

  datatype Option<T> = None | Some(value: T)

  /** The one failure of the node model: attaching a second child with a value
      already present (the source raises ValueError). */
  datatype Error = DuplicateChild(value: string)

  datatype Result<T> = Success(value: T) | Failure(error: Error)

  /** `value` is one character for every node below the root (the root carries
      the two-character sentinel "-1"). `uniqueId` stands for the uuid the source
      draws at construction: here a number from a counter the trie owns. */
  datatype Node = Node(
    value: string,
    children: seq<Node>,
    childIndex: map<string, nat>,
    leaf: bool,
    uniqueId: nat)

  /** The node invariant: `childIndex[v] == i` exactly when `children[i].value == v`
      (so sibling values are distinct), every child holds one character, and the
      same holds all the way down. */
  ghost predicate Consistent(n: Node) {
    && (forall i :: 0 <= i < |n.children| ==> |n.children[i].value| == 1)
    && (forall i :: 0 <= i < |n.children| ==>
          n.children[i].value in n.childIndex && n.childIndex[n.children[i].value] == i)
    && (forall v :: v in n.childIndex ==>
          n.childIndex[v] < |n.children| && n.children[n.childIndex[v]].value == v)
    && (forall i :: 0 <= i < |n.children| ==> Consistent(n.children[i]))
  }

  /** The strings `s` spelled by following one child per character of `s` from
      `n` to a node whose leaf marker is set. Defined by scanning the children,
      independently of `childIndex`. */
  ghost predicate Accepts(n: Node, s: string)
    decreases n
  {
    if s == [] then n.leaf
    else exists i :: 0 <= i < |n.children| && n.children[i].value == [s[0]] && Accepts(n.children[i], s[1..])
  }

  /** Every identifier in the subtree of `n`, in pre-order: one entry per node. */
  function IdList(n: Node): seq<nat> {
    [n.uniqueId] + KidsIdList(n.children)
  }

  function KidsIdList(cs: seq<Node>): seq<nat> {
    if cs == [] then [] else IdList(cs[0]) + KidsIdList(cs[1..])
  }

  /** A freshly constructed node: it holds the given value and identifier, has
      no children and an empty index, and is not a leaf. */
  function NewNode(value: string, id: nat): (r: Node)
    ensures r.value == value && r.uniqueId == id
    ensures r.children == [] && r.childIndex == map[] && !r.leaf
    ensures Consistent(r)
    ensures IdList(r) == [id]
    ensures forall s :: !Accepts(r, s)
  {
    Node(value, [], map[], false, id)
  }

  /** Python's `Node.add_child`: refuses a value already in the index, otherwise
      appends the child and records its position as the last one. */
  function AddChild(n: Node, child: Node): (r: Result<Node>)
    ensures r.Failure? <==> child.value in n.childIndex
    ensures r.Failure? ==> r.error == DuplicateChild(child.value)
    ensures r.Success? ==>
              && r.value.children == n.children + [child]
              && child.value in r.value.childIndex
              && r.value.childIndex[child.value] == |r.value.children| - 1
              && (forall v :: v in n.childIndex ==> v in r.value.childIndex && r.value.childIndex[v] == n.childIndex[v])
              && r.value.value == n.value && r.value.leaf == n.leaf && r.value.uniqueId == n.uniqueId
    ensures r.Success? && Consistent(n) && Consistent(child) && |child.value| == 1 ==>
              && Consistent(r.value)
              && Child(r.value, child.value) == Some(child)
              && (forall v :: v != child.value ==> Child(r.value, v) == Child(n, v))
  {
    if child.value !in n.childIndex then
      var r := n.(children := n.children + [child], childIndex := n.childIndex[child.value := |n.children|]);
      AppendKeepsConsistent(n, child, r);
      Success(r)
    else
      Failure(DuplicateChild(child.value))
  }

  /** Appending a one-character child under a value not yet indexed keeps the
      node invariant, and lookups see the new child and nothing else new. */
  lemma AppendKeepsConsistent(n: Node, child: Node, r: Node)
    requires child.value !in n.childIndex
    requires r == n.(children := n.children + [child], childIndex := n.childIndex[child.value := |n.children|])
    ensures Consistent(n) && Consistent(child) && |child.value| == 1 ==>
              && Consistent(r)
              && Child(r, child.value) == Some(child)
              && (forall v :: v != child.value ==> Child(r, v) == Child(n, v))
  {
    if Consistent(n) && Consistent(child) && |child.value| == 1 {
      var k := |n.children|;
      forall i | 0 <= i < |r.children|
        ensures |r.children[i].value| == 1 && Consistent(r.children[i])
        ensures r.children[i].value in r.childIndex && r.childIndex[r.children[i].value] == i
      {
        if i < k {
          assert r.children[i] == n.children[i];
          assert n.childIndex[n.children[i].value] == i;
        } else {
          assert r.children[i] == child;
        }
      }
      forall v | v in r.childIndex
        ensures r.childIndex[v] < |r.children| && r.children[r.childIndex[v]].value == v
      {
        if v != child.value {
          assert r.children[n.childIndex[v]] == n.children[n.childIndex[v]];
        }
      }
      assert Consistent(r);
      forall v | v != child.value
        ensures Child(r, v) == Child(n, v)
      {
        if v in n.childIndex {
          assert r.children[n.childIndex[v]] == n.children[n.childIndex[v]];
        }
      }
    }
  }

  /** Replacing a child by a consistent node with the same value keeps the node
      invariant. */
  lemma ReplaceKeepsConsistent(n: Node, i: nat, ri: Node)
    requires Consistent(n) && i < |n.children|
    requires Consistent(ri) && ri.value == n.children[i].value
    ensures Consistent(n.(children := n.children[i := ri]))
  {
    var r := n.(children := n.children[i := ri]);
    forall j | 0 <= j < |r.children|
      ensures |r.children[j].value| == 1 && Consistent(r.children[j])
      ensures r.children[j].value in r.childIndex && r.childIndex[r.children[j].value] == j
    {
      if j != i {
        assert r.children[j] == n.children[j];
      }
    }
    forall v | v in r.childIndex
      ensures r.childIndex[v] < |r.children| && r.children[r.childIndex[v]].value == v
    {
    }
  }

  /** The child with value `c`, found through `childIndex` as the source does. */
  function Child(n: Node, c: string): (r: Option<Node>)
    requires Consistent(n)
    ensures r.Some? <==> exists i :: 0 <= i < |n.children| && n.children[i].value == c
    ensures r.Some? ==> exists i :: 0 <= i < |n.children| && n.children[i] == r.value && n.children[i].value == c
    ensures r.Some? ==> Consistent(r.value)
  {
    if c in n.childIndex then Some(n.children[n.childIndex[c]]) else None
  }

  /** Python's `Node.__eq__`: nodes compare by value alone, so children, leaf
      marker and identifier play no part. */
  function NodeEq(a: Node, b: Node): (r: bool)
    ensures a == b ==> r
    ensures r <==> a.value == b.value
  {
    a.value == b.value
  }

  /** Among the children of one consistent node, value equality is identity of
      position: two different children are never equal under `__eq__`. */
  lemma SiblingsNotEqual(n: Node, i: nat, j: nat)
    requires Consistent(n)
    requires i < |n.children| && j < |n.children|
    ensures NodeEq(n.children[i], n.children[j]) <==> i == j
  {
    if NodeEq(n.children[i], n.children[j]) {
      assert n.childIndex[n.children[i].value] == i;
      assert n.childIndex[n.children[j].value] == j;
    }
  }

  /** The node reached by following child positions `path` from `n`. */
  function NodeAt(n: Node, path: seq<nat>): Option<Node>
    decreases path
  {
    if path == [] then Some(n)
    else if path[0] < |n.children| then NodeAt(n.children[path[0]], path[1..])
    else None
  }

  lemma KidsIdListAppend(a: seq<Node>, b: seq<Node>)
    ensures KidsIdList(a + b) == KidsIdList(a) + KidsIdList(b)
    decreases |a|
  {
    if a == [] {
      assert a + b == b;
    } else {
      assert (a + b)[0] == a[0];
      assert (a + b)[1..] == a[1..] + b;
      KidsIdListAppend(a[1..], b);
    }
  }

  /** The identifiers of the children split around child `i`. */
  lemma KidsIdListSplit(cs: seq<Node>, i: nat)
    requires i < |cs|
    ensures KidsIdList(cs) == KidsIdList(cs[..i]) + IdList(cs[i]) + KidsIdList(cs[i + 1..])
  {
    assert cs == cs[..i] + cs[i..];
    KidsIdListAppend(cs[..i], cs[i..]);
    assert cs[i..][0] == cs[i];
    assert cs[i..][1..] == cs[i + 1..];
  }

  /** Within a subtree with distinct identifiers, the subtrees of two different
      children share no identifier. */
  lemma ChildIdsDisjoint(n: Node, i: nat, j: nat)
    requires NoDup(IdList(n))
    requires i < |n.children| && j < |n.children| && i != j
    ensures forall x :: x in IdList(n.children[i]) ==> x !in IdList(n.children[j])
  {
    if i < j {
      OrderedChildIdsDisjoint(n, i, j);
    } else {
      OrderedChildIdsDisjoint(n, j, i);
    }
  }

  lemma OrderedChildIdsDisjoint(n: Node, lo: nat, hi: nat)
    requires NoDup(IdList(n))
    requires lo < hi < |n.children|
    ensures forall x :: x in IdList(n.children[lo]) ==> x !in IdList(n.children[hi])
  {
    var cs := n.children;
    KidsIdListSplit(cs, hi);
    var pre := cs[..hi];
    KidsIdListSplit(pre, lo);
    assert pre[lo] == cs[lo];
    var P := [n.uniqueId] + KidsIdList(pre);
    var D, E := IdList(cs[hi]), KidsIdList(cs[hi + 1..]);
    assert IdList(n) == P + D + E;
    NoDupAppend(P + D, E);
    NoDupAppend(P, D);
    assert forall x :: x in IdList(cs[lo]) ==> x in KidsIdList(pre);
  }

  /** Every child subtree of a subtree with distinct identifiers has distinct
      identifiers, none equal to the parent's. */
  lemma ChildIdsNoDup(n: Node, i: nat)
    requires NoDup(IdList(n))
    requires i < |n.children|
    ensures NoDup(IdList(n.children[i]))
    ensures n.uniqueId !in IdList(n.children[i])
    ensures forall x :: x in IdList(n.children[i]) ==> x in IdList(n)
  {
    var cs := n.children;
    KidsIdListSplit(cs, i);
    var A, B, C := KidsIdList(cs[..i]), IdList(cs[i]), KidsIdList(cs[i + 1..]);
    assert IdList(n) == [n.uniqueId] + A + B + C;
    NoDupAppend([n.uniqueId] + A + B, C);
    NoDupAppend([n.uniqueId] + A, B);
    NoDupAppend([n.uniqueId], A);
  }
}
