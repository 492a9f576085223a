/** The trie of src/DataStructures/Trie.py: a sentinel root, insertion that
    walks or extends one path per character, and a query that walks the prefix
    and then enumerates the subtree below it. The trie owns the counter that
    stands for the uuid each new node draws. */
module Tries {
  import opened Seqs
  import opened Nodes
  import opened Traversal

  /** The value the source gives the root node. */
  const RootValue: string := "-1"

  /** `nextId` is the identifier the next constructed node will receive. */
  datatype Trie = Trie(root: Node, nextId: nat)

  /** The trie invariant: the root is the sentinel, every index agrees with its
      child list, identifiers are pairwise distinct, and all of them were drawn
      before the counter's current value. */
  ghost predicate Valid(t: Trie) {
    && t.root.value == RootValue
    && Consistent(t.root)
    && NoDup(IdList(t.root))
    && (forall x :: x in IdList(t.root) ==> x < t.nextId)
  }

  /** `Trie.__init__`: a root with the sentinel value and nothing below it. */
  function Init(): (t: Trie)
    ensures Valid(t)
    ensures t.root.children == [] && !t.root.leaf
    ensures forall s :: !Accepts(t.root, s)
  {
    Trie(NewNode(RootValue, 0), 1)
  }

  // ---------------------------------------------------------------------------
  // Insertion
  // ---------------------------------------------------------------------------

  /** The loop of `Trie.insert` from node `n`, written recursively: each
      character constructs a node (drawing identifier `next`), which is attached
      only when no child with that character exists yet, and the walk continues
      into the child; the node reached at the end becomes a leaf. */
  function InsertAt(n: Node, w: string, next: nat): (r: Node)
    requires Consistent(n)
    ensures Consistent(r)
    ensures r.value == n.value && r.uniqueId == n.uniqueId
    ensures w != [] ==> r.leaf == n.leaf
    decreases |w|
  {
    if w == [] then n.(leaf := true)
    else
      var c := [w[0]];
      if c in n.childIndex then
        var i := n.childIndex[c];
        var ri := InsertAt(n.children[i], w[1..], next + 1);
        ReplaceKeepsConsistent(n, i, ri);
        n.(children := n.children[i := ri])
      else
        var child := InsertAt(NewNode(c, next), w[1..], next + 1);
        var r := n.(children := n.children + [child], childIndex := n.childIndex[c := |n.children|]);
        AppendKeepsConsistent(n, child, r);
        r
  }

  /** `Trie.insert`: one identifier is drawn per character of `w`. */
  function Insert(t: Trie, w: string): (r: Trie)
    requires Valid(t)
    ensures Valid(r)
    ensures forall s :: Accepts(r.root, s) <==> Accepts(t.root, s) || s == w
  {
    InsertIds(t.root, w, t.nextId);
    InsertAccepts(t.root, w, t.nextId);
    Trie(InsertAt(t.root, w, t.nextId), t.nextId + |w|)
  }

  /** In a consistent node, a non-empty word is accepted exactly when the child
      for its first character exists and accepts the rest. */
  lemma AcceptsViaChild(n: Node, s: string)
    requires Consistent(n) && s != []
    ensures Accepts(n, s) <==> Child(n, [s[0]]).Some? && Accepts(Child(n, [s[0]]).value, s[1..])
  {
    if Accepts(n, s) {
      var i :| 0 <= i < |n.children| && n.children[i].value == [s[0]] && Accepts(n.children[i], s[1..]);
      assert n.childIndex[[s[0]]] == i;
    }
  }

  /** The children of an inserted node, seen through `Child`: the child for the
      first character now holds the rest of the word, inserted into the old
      child or into the node built for it. */
  lemma InsertChild(n: Node, w: string, next: nat)
    requires Consistent(n) && w != []
    ensures Child(InsertAt(n, w, next), [w[0]]) ==
            Some(InsertAt(if [w[0]] in n.childIndex then Child(n, [w[0]]).value else NewNode([w[0]], next), w[1..], next + 1))
  {
    var c := [w[0]];
    var r := InsertAt(n, w, next);
    if c in n.childIndex {
      var i := n.childIndex[c];
      assert r.children[i] == InsertAt(n.children[i], w[1..], next + 1);
    } else {
      assert r.children[|n.children|] == InsertAt(NewNode(c, next), w[1..], next + 1);
    }
  }

  /** Every child other than the one for the first character is as before. */
  lemma InsertOtherChild(n: Node, w: string, next: nat, v: string)
    requires Consistent(n) && w != [] && v != [w[0]]
    ensures Child(InsertAt(n, w, next), v) == Child(n, v)
  {
    var c := [w[0]];
    var r := InsertAt(n, w, next);
    if c in n.childIndex && v in n.childIndex {
      assert n.childIndex[v] != n.childIndex[c];
      assert r.children[n.childIndex[v]] == n.children[n.childIndex[v]];
    } else if v in n.childIndex {
      assert r.children[n.childIndex[v]] == n.children[n.childIndex[v]];
    }
  }

  /** Insertion adds exactly `w` to the accepted words. */
  lemma {:induction false} InsertAccepts(n: Node, w: string, next: nat)
    requires Consistent(n)
    ensures forall s :: Accepts(InsertAt(n, w, next), s) <==> Accepts(n, s) || s == w
    decreases |w|
  {
    if w != [] {
      var r := InsertAt(n, w, next);
      var sub := if [w[0]] in n.childIndex then Child(n, [w[0]]).value else NewNode([w[0]], next);
      var rs := InsertAt(sub, w[1..], next + 1);
      InsertAccepts(sub, w[1..], next + 1);
      InsertChild(n, w, next);
      assert w == [w[0]] + w[1..];
      forall s
        ensures Accepts(r, s) <==> Accepts(n, s) || s == w
      {
        if s != [] && Child(n, [w[0]]).None? {
          assert !Accepts(sub, s[1..]);
        }
        if s != [] && s[0] != w[0] {
          InsertOtherChild(n, w, next, [s[0]]);
        }
        AcceptsAfterChildUpdate(n, r, w[0], sub, rs, w[1..], s);
      }
    }
  }

  /** One word `s` accepted by a node `r` that differs from `n` only in the
      child for `c`, which now accepts the words of `sub` plus `rest` (where
      `sub` is the old child for `c`, or a node accepting nothing when there
      was none). */
  lemma AcceptsAfterChildUpdate(n: Node, r: Node, c: char, sub: Node, rs: Node, rest: string, s: string)
    requires Consistent(n) && Consistent(r) && r.leaf == n.leaf
    requires Child(r, [c]) == Some(rs)
    requires s != [] && s[0] != c ==> Child(r, [s[0]]) == Child(n, [s[0]])
    requires Child(n, [c]).Some? ==> sub == Child(n, [c]).value
    requires s != [] && Child(n, [c]).None? ==> !Accepts(sub, s[1..])
    requires s != [] ==> (Accepts(rs, s[1..]) <==> Accepts(sub, s[1..]) || s[1..] == rest)
    ensures Accepts(r, s) <==> Accepts(n, s) || s == [c] + rest
  {
    if s != [] {
      AcceptsViaChild(r, s);
      AcceptsViaChild(n, s);
      if s[0] == c {
        assert s == [c] + s[1..];
      } else {
        assert s != [c] + rest by {
          assert ([c] + rest)[0] == c;
        }
      }
    }
  }

  /** Identifiers after insertion: still pairwise distinct, every new one drawn
      from `next .. next + |w| - 1`, and at most `|w|` new nodes. */
  lemma {:induction false} InsertIds(n: Node, w: string, next: nat)
    requires Consistent(n)
    requires NoDup(IdList(n))
    requires forall x :: x in IdList(n) ==> x < next
    ensures NoDup(IdList(InsertAt(n, w, next)))
    ensures forall x :: x in IdList(InsertAt(n, w, next)) ==> x in IdList(n) || next <= x < next + |w|
    ensures |IdList(InsertAt(n, w, next))| <= |IdList(n)| + |w|
    decreases |w|
  {
    var r := InsertAt(n, w, next);
    if w == [] {
      assert IdList(r) == IdList(n);
    } else {
      var c := [w[0]];
      var cs := n.children;
      if c in n.childIndex {
        var i := n.childIndex[c];
        var ri := InsertAt(cs[i], w[1..], next + 1);
        ChildIdsNoDup(n, i);
        InsertIds(cs[i], w[1..], next + 1);
        ReplaceChildIds(n, i, ri, next);
      } else {
        var nn := NewNode(c, next);
        var ri := InsertAt(nn, w[1..], next + 1);
        InsertIds(nn, w[1..], next + 1);
        AppendChildIds(n, ri, next);
      }
    }
  }

  /** Replacing child `i` by a subtree whose identifiers are distinct and are
      either its old ones or drawn at or after `next`. */
  lemma ReplaceChildIds(n: Node, i: nat, ri: Node, next: nat)
    requires i < |n.children|
    requires NoDup(IdList(n))
    requires forall x :: x in IdList(n) ==> x < next
    requires NoDup(IdList(ri))
    requires forall x :: x in IdList(ri) ==> x in IdList(n.children[i]) || next <= x
    ensures var r := n.(children := n.children[i := ri]);
            && NoDup(IdList(r))
            && (forall x :: x in IdList(r) ==> x in IdList(n) || x in IdList(ri))
            && |IdList(r)| == |IdList(n)| - |IdList(n.children[i])| + |IdList(ri)|
  {
    var cs := n.children;
    var cs' := cs[i := ri];
    KidsIdListSplit(cs, i);
    KidsIdListSplit(cs', i);
    assert cs'[..i] == cs[..i];
    assert cs'[i + 1..] == cs[i + 1..];
    var P, B, E := [n.uniqueId] + KidsIdList(cs[..i]), IdList(cs[i]), KidsIdList(cs[i + 1..]);
    var B' := IdList(ri);
    assert IdList(n) == (P + B) + E;
    assert IdList(n.(children := cs')) == (P + B') + E;
    NoDupAppend(P + B, E);
    NoDupAppend(P, B);
    forall x | x in B'
      ensures x !in P && x !in E
    {
      if x !in B {
        assert x in P ==> x in IdList(n);
        assert x in E ==> x in IdList(n);
      }
    }
    NoDupAppend(P, B');
    assert forall x :: x in P + B' ==> x in P || x in B';
    NoDupAppend(P + B', E);
  }

  /** Appending a child whose identifiers are distinct and all drawn at or after `next`. */
  lemma AppendChildIds(n: Node, ri: Node, next: nat)
    requires NoDup(IdList(n))
    requires forall x :: x in IdList(n) ==> x < next
    requires NoDup(IdList(ri))
    requires forall x :: x in IdList(ri) ==> next <= x
    ensures var r := n.(children := n.children + [ri], childIndex := n.childIndex[ri.value := |n.children|]);
            && NoDup(IdList(r))
            && (forall x :: x in IdList(r) ==> x in IdList(n) || x in IdList(ri))
            && |IdList(r)| == |IdList(n)| + |IdList(ri)|
  {
    var r := n.(children := n.children + [ri], childIndex := n.childIndex[ri.value := |n.children|]);
    KidsIdListAppend(n.children, [ri]);
    assert KidsIdList([ri]) == IdList(ri) + KidsIdList([]) by {
      assert [ri][1..] == [];
    }
    assert IdList(r) == ([n.uniqueId] + KidsIdList(n.children)) + IdList(ri);
    NoDupAppend(IdList(n), IdList(ri));
  }

  /** Python's insertion inlines `Node.add_child`: when no child holds the
      first character, the node it builds is exactly what a successful
      `add_child` of the new subtree would give, so the duplicate error of
      `add_child` can never arise; otherwise no child is added. */
  lemma InsertIsAddChild(n: Node, w: string, next: nat)
    requires Consistent(n) && w != []
    ensures [w[0]] !in n.childIndex ==>
              AddChild(n, InsertAt(NewNode([w[0]], next), w[1..], next + 1)) == Success(InsertAt(n, w, next))
    ensures [w[0]] in n.childIndex ==>
              |InsertAt(n, w, next).children| == |n.children| && InsertAt(n, w, next).childIndex == n.childIndex
  {
  }

  /** `b` is `a` grown: same value, identifier and index entries, the leaf mark
      kept, children only appended, and the same holds of every old child. */
  ghost predicate Extends(a: Node, b: Node)
    decreases a
  {
    && b.value == a.value && b.uniqueId == a.uniqueId && (a.leaf ==> b.leaf)
    && |a.children| <= |b.children|
    && (forall v :: v in a.childIndex ==> v in b.childIndex && b.childIndex[v] == a.childIndex[v])
    && (forall i :: 0 <= i < |a.children| ==> Extends(a.children[i], b.children[i]))
  }

  lemma {:induction false} ExtendsRefl(n: Node)
    ensures Extends(n, n)
    decreases n
  {
    forall i | 0 <= i < |n.children|
      ensures Extends(n.children[i], n.children[i])
    {
      ExtendsRefl(n.children[i]);
    }
  }

  /** Insertion never removes or reorders nodes, never clears a leaf mark and
      never changes an identifier. */
  lemma {:induction false} InsertExtends(n: Node, w: string, next: nat)
    requires Consistent(n)
    ensures Extends(n, InsertAt(n, w, next))
    decreases |w|
  {
    var r := InsertAt(n, w, next);
    forall i | 0 <= i < |n.children| && (w == [] || [w[0]] !in n.childIndex || i != n.childIndex[[w[0]]])
      ensures Extends(n.children[i], r.children[i])
    {
      ExtendsRefl(n.children[i]);
    }
    if w != [] && [w[0]] in n.childIndex {
      var i := n.childIndex[[w[0]]];
      InsertExtends(n.children[i], w[1..], next + 1);
    }
  }

  /** Inserting a word that is already accepted changes nothing in the tree. */
  lemma {:induction false} ReinsertUnchanged(n: Node, w: string, next: nat)
    requires Consistent(n)
    requires Accepts(n, w)
    ensures InsertAt(n, w, next) == n
    decreases |w|
  {
    if w != [] {
      AcceptsViaChild(n, w);
      var i := n.childIndex[[w[0]]];
      ReinsertUnchanged(n.children[i], w[1..], next + 1);
      assert n.children[i := n.children[i]] == n.children;
    }
  }

  /** Inserting the same word twice leaves the same tree as inserting it once. */
  lemma InsertIdempotent(t: Trie, w: string)
    requires Valid(t)
    ensures Insert(Insert(t, w), w).root == Insert(t, w).root
  {
    ReinsertUnchanged(Insert(t, w).root, w, Insert(t, w).nextId);
  }

  // ---------------------------------------------------------------------------
  // Query
  // ---------------------------------------------------------------------------

  /** The node reached by following the characters of `p` from `n` through the
      child indexes, if every step finds a child. The node reached by a
      non-empty walk holds the walk's last character. */
  function Walk(n: Node, p: string): (r: Option<Node>)
    requires Consistent(n)
    ensures r.Some? ==> Consistent(r.value)
    ensures p == [] ==> r == Some(n)
    ensures p != [] && r.Some? ==> r.value.value == [p[|p| - 1]]
    decreases |p|
  {
    if p == [] then Some(n)
    else match Child(n, [p[0]])
      case None => None
      case Some(c) => Walk(c, p[1..])
  }

  /** Walking `p + q` is walking `p`, then `q` from where `p` ended. */
  lemma {:induction false} WalkAppend(n: Node, p: string, q: string)
    requires Consistent(n)
    ensures Walk(n, p + q) == if Walk(n, p).None? then None else Walk(Walk(n, p).value, q)
    decreases |p|
  {
    if p != [] {
      assert (p + q)[0] == p[0];
      assert (p + q)[1..] == p[1..] + q;
      if Child(n, [p[0]]).Some? {
        WalkAppend(Child(n, [p[0]]).value, p[1..], q);
      }
    } else {
      assert p + q == q;
    }
  }

  /** The words accepted from `n` that start with `p` are those accepted after walking `p`. */
  lemma {:induction false} WalkAccepts(n: Node, p: string, x: string)
    requires Consistent(n)
    ensures Accepts(n, p + x) <==> Walk(n, p).Some? && Accepts(Walk(n, p).value, x)
    decreases |p|
  {
    if p == [] {
      assert p + x == x;
    } else {
      assert (p + x)[0] == p[0];
      assert (p + x)[1..] == p[1..] + x;
      AcceptsViaChild(n, p + x);
      if Child(n, [p[0]]).Some? {
        WalkAccepts(Child(n, [p[0]]).value, p[1..], x);
      }
    }
  }

  /** The abstract answer to `Trie.query(p)`: nothing for the empty prefix or
      when the walk falls off the tree, otherwise the enumeration of the
      subtree reached, each word starting with `p`. */
  function Lookup(t: Trie, p: string): (r: seq<string>)
    requires Valid(t)
    ensures NoDup(r)
    ensures forall x :: x in r <==> 1 <= |p| && p <= x && Accepts(t.root, x)
  {
    LookupMembers(t, p);
    if |p| < 1 then []
    else match Walk(t.root, p)
      case None => []
      case Some(m) => EnumNoDup(m, p); Enum(m, p)
  }

  lemma LookupMembers(t: Trie, p: string)
    requires Valid(t)
    ensures 1 <= |p| && Walk(t.root, p).Some? ==>
              forall x :: x in Enum(Walk(t.root, p).value, p) <==> p <= x && Accepts(t.root, x)
    ensures Walk(t.root, p).None? ==> forall x :: !(p <= x && Accepts(t.root, x))
  {
    forall x | p <= x
      ensures Accepts(t.root, x) <==> Walk(t.root, p).Some? && Accepts(Walk(t.root, p).value, x[|p|..])
    {
      assert x == p + x[|p|..];
      WalkAccepts(t.root, p, x[|p|..]);
    }
    if Walk(t.root, p).Some? {
      EnumMembers(Walk(t.root, p).value, p);
    }
  }

  /** `Trie.query`: an empty prefix gives nothing; otherwise the prefix is
      walked one character at a time through the child indexes, giving up with
      nothing as soon as a character is missing, and the subtree reached is
      enumerated by `Dfs`. */
  method Query(t: Trie, prefix: string) returns (r: seq<string>)
    requires Valid(t)
    ensures r == Lookup(t, prefix)
    ensures NoDup(r)
    ensures forall x :: x in r <==> 1 <= |prefix| && prefix <= x && Accepts(t.root, x)
  {
    if |prefix| < 1 {
      return [];
    }
    var current := t.root;
    var i := 0;
    while i < |prefix|
      invariant 0 <= i <= |prefix|
      invariant Walk(t.root, prefix[..i]) == Some(current)
      invariant Consistent(current) && NoDup(IdList(current))
    {
      var c := [prefix[i]];
      WalkAppend(t.root, prefix[..i], [prefix[i]]);
      assert prefix[..i + 1] == prefix[..i] + [prefix[i]];
      assert Walk(current, [prefix[i]]) == Child(current, c);
      if c in current.childIndex {
        ChildIdsNoDup(current, current.childIndex[c]);
        current := current.children[current.childIndex[c]];
      } else {
        WalkAppend(t.root, prefix[..i + 1], prefix[i + 1..]);
        assert prefix == prefix[..i + 1] + prefix[i + 1..];
        return [];
      }
      i := i + 1;
    }
    assert prefix[..i] == prefix;
    r := Dfs(prefix, current);
  }

  /** After inserting `w`, every non-empty prefix of `w` (including `w`) finds it. */
  lemma InsertedFound(t: Trie, w: string, k: nat)
    requires Valid(t)
    requires 1 <= k <= |w|
    ensures w in Lookup(Insert(t, w), w[..k])
  {
  }

  /** Inserting the empty word only marks the root, which no query reaches:
      every query answers as before. */
  lemma EmptyInsertInvisible(t: Trie, p: string)
    requires Valid(t)
    ensures Insert(t, []).root == t.root.(leaf := true)
    ensures Lookup(Insert(t, []), p) == Lookup(t, p)
  {
    var r := Insert(t, []).root;
    if p != [] {
      assert Child(r, [p[0]]) == Child(t.root, [p[0]]);
    }
  }

  /** A trie holding exactly the words of `ws`, built by inserting them in order. */
  function Build(ws: seq<string>): (t: Trie)
    ensures Valid(t)
    ensures forall s :: Accepts(t.root, s) <==> s in ws
    decreases |ws|
  {
    if ws == [] then Init()
    else Insert(Build(ws[..|ws| - 1]), ws[|ws| - 1])
  }

  // ---------------------------------------------------------------------------
  // Node identity
  // ---------------------------------------------------------------------------

  /** The identifier of a node reached from `n` belongs to `n`'s subtree, and to
      the subtree of the first child on the way when the path is not empty. */
  lemma {:induction false} NodeAtIds(n: Node, p: seq<nat>)
    requires NodeAt(n, p).Some?
    ensures NodeAt(n, p).value.uniqueId in IdList(n)
    ensures p != [] ==> p[0] < |n.children| && NodeAt(n, p).value.uniqueId in IdList(n.children[p[0]])
    decreases p
  {
    if p != [] {
      var c := n.children[p[0]];
      NodeAtIds(c, p[1..]);
      KidsIdListSplit(n.children, p[0]);
    }
  }

  /** Different positions in a tree with distinct identifiers hold nodes with
      different identifiers, even when `NodeEq` (value equality) holds between them. */
  lemma {:induction false} DistinctPositionsDistinctIds(n: Node, p: seq<nat>, q: seq<nat>)
    requires NoDup(IdList(n))
    requires NodeAt(n, p).Some? && NodeAt(n, q).Some?
    requires p != q
    ensures NodeAt(n, p).value.uniqueId != NodeAt(n, q).value.uniqueId
    decreases p
  {
    NodeAtIds(n, p);
    NodeAtIds(n, q);
    if p == [] {
      ChildIdsNoDup(n, q[0]);
    } else if q == [] {
      ChildIdsNoDup(n, p[0]);
    } else if p[0] == q[0] {
      ChildIdsNoDup(n, p[0]);
      DistinctPositionsDistinctIds(n.children[p[0]], p[1..], q[1..]);
    } else {
      ChildIdsDisjoint(n, p[0], q[0]);
    }
  }

  /** The trie after inserting "ab" into a new trie: one child "a" below the
      root, holding one child "b". */
  lemma InsertAbShape()
    ensures var r := Insert(Init(), "ab").root;
            && |r.children| == 1 && "b" !in r.childIndex
            && |r.children[0].children| == 1 && r.children[0].children[0].value == "b"
  {
    assert "ab"[0] == 'a' && "ab"[1..] == "b" && "b"[0] == 'b' && "b"[1..] == [];
  }

  /** Inserting a one-character word whose character has no child yet appends
      one node holding that character after the existing children. */
  lemma InsertFreshChar(t: Trie, c: char)
    requires Valid(t) && [c] !in t.root.childIndex
    ensures var r := Insert(t, [c]).root;
            && |r.children| == |t.root.children| + 1
            && r.children[..|t.root.children|] == t.root.children
            && r.children[|t.root.children|].value == [c]
  {
    assert [c][0] == c && [c][1..] == [];
  }

  /** Node equality in the source compares values only: after inserting "ab"
      and then "b", the "b" below "a" and the "b" below the root are equal
      under `NodeEq` yet are different nodes with different identifiers. */
  lemma EqualValuesDistinctNodes()
    ensures var t := Insert(Insert(Init(), "ab"), "b");
            && NodeAt(t.root, [0, 0]).Some? && NodeAt(t.root, [1]).Some?
            && NodeEq(NodeAt(t.root, [0, 0]).value, NodeAt(t.root, [1]).value)
            && NodeAt(t.root, [0, 0]).value.uniqueId != NodeAt(t.root, [1]).value.uniqueId
  {
    var t1 := Insert(Init(), "ab");
    var t := Insert(t1, "b");
    InsertAbShape();
    InsertFreshChar(t1, 'b');
    assert t.root.children[0] == t1.root.children[0];
    SameValueTwoPlaces(t.root);
  }

  /** A tree with distinct identifiers holding "b" both at position [0, 0]
      and at position [1] has two value-equal nodes with different identifiers. */
  lemma SameValueTwoPlaces(r: Node)
    requires NoDup(IdList(r))
    requires |r.children| == 2 && |r.children[0].children| == 1
    requires r.children[0].children[0].value == "b" && r.children[1].value == "b"
    ensures && NodeAt(r, [0, 0]).Some? && NodeAt(r, [1]).Some?
            && NodeEq(NodeAt(r, [0, 0]).value, NodeAt(r, [1]).value)
            && NodeAt(r, [0, 0]).value.uniqueId != NodeAt(r, [1]).value.uniqueId
  {
    DistinctPositionsDistinctIds(r, [0, 0], [1]);
  }
}
