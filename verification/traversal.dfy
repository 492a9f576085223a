/** The enumeration behind `Trie.query` (src/DataStructures/Trie.py, `dfs`):
    an iterative depth-first walk with an explicit stack, a "children visited
    tracker" keyed by node identifier, and a word that grows on push and
    shrinks on pop. `Enum` is the recursive reference it is proved against. */
module Traversal {
  import opened Seqs
  import opened Nodes

  /** Reference enumeration, in pre-order: `w` itself when `n` is a leaf, then
      the words of each child in order, each child extending `w` by its value. */
  function Enum(n: Node, w: string): seq<string> {
    (if n.leaf then [w] else []) + EnumKids(n.children, w)
  }

  function EnumKids(cs: seq<Node>, w: string): seq<string> {
    if cs == [] then [] else Enum(cs[0], w + cs[0].value) + EnumKids(cs[1..], w)
  }

  /** What a child list needs for its enumeration to be repetition-free: each
      child consistent and one character wide, and sibling values distinct. */
  ghost predicate KidsOk(cs: seq<Node>) {
    && (forall i :: 0 <= i < |cs| ==> Consistent(cs[i]) && |cs[i].value| == 1)
    && (forall i, j :: 0 <= i < j < |cs| ==> cs[i].value != cs[j].value)
  }

  lemma ConsistentKidsOk(n: Node)
    requires Consistent(n)
    ensures KidsOk(n.children)
  {
    forall i, j | 0 <= i < j < |n.children|
      ensures n.children[i].value != n.children[j].value
    {
      assert n.childIndex[n.children[i].value] == i;
      assert n.childIndex[n.children[j].value] == j;
    }
  }

  /** `x` extends `w` by the value of some child in `cs` followed by a word accepted below that child. */
  ghost predicate ViaKid(cs: seq<Node>, w: string, x: string) {
    exists i :: 0 <= i < |cs| && |w| < |x| && w + cs[i].value <= x && Accepts(cs[i], x[|w| + 1..])
  }

  lemma ExtendPrefix(w: string, v: string, x: string)
    requires |v| == 1
    ensures w + v <= x <==> w <= x && |x| > |w| && v == [x[|w|]]
  {
    if w <= x && |x| > |w| && v == [x[|w|]] {
      assert x[..|w| + 1] == x[..|w|] + [x[|w|]];
    }
    if w + v <= x {
      assert x[..|w|] == (w + v)[..|w|];
      assert x[|w|] == (w + v)[|w|];
    }
  }

  /** One step of `Accepts` for a non-empty word. */
  lemma AcceptsStep(n: Node, w: string, x: string)
    requires Consistent(n)
    requires w <= x && |x| > |w|
    ensures Accepts(n, x[|w|..]) <==> ViaKid(n.children, w, x)
  {
    var s := x[|w|..];
    assert s[1..] == x[|w| + 1..];
    assert s[0] == x[|w|];
    forall i | 0 <= i < |n.children|
      ensures (w + n.children[i].value <= x) <==> n.children[i].value == [s[0]]
    {
      ExtendPrefix(w, n.children[i].value, x);
    }
  }

  /** Membership in the enumeration: exactly the words `w + s` with `s` accepted below `n`. */
  lemma {:induction false} EnumMembers(n: Node, w: string)
    requires Consistent(n)
    ensures forall x :: x in Enum(n, w) <==> w <= x && Accepts(n, x[|w|..])
    decreases n, 1
  {
    ConsistentKidsOk(n);
    EnumKidsMembers(n.children, w);
    forall x
      ensures x in Enum(n, w) <==> w <= x && Accepts(n, x[|w|..])
    {
      EnumMemberAt(n, w, x);
    }
  }

  lemma EnumMemberAt(n: Node, w: string, x: string)
    requires Consistent(n)
    requires x in EnumKids(n.children, w) <==> ViaKid(n.children, w, x)
    ensures x in Enum(n, w) <==> w <= x && Accepts(n, x[|w|..])
  {
    var head: seq<string> := if n.leaf then [w] else [];
    assert Enum(n, w) == head + EnumKids(n.children, w);
    if ViaKid(n.children, w, x) {
      var i :| 0 <= i < |n.children| && |w| < |x| && w + n.children[i].value <= x && Accepts(n.children[i], x[|w| + 1..]);
      ExtendPrefix(w, n.children[i].value, x);
    }
    if w <= x && |x| > |w| {
      AcceptsStep(n, w, x);
    } else if w <= x {
      assert x == w && x[|w|..] == [];
    }
  }

  lemma {:induction false} EnumKidsMembers(cs: seq<Node>, w: string)
    requires KidsOk(cs)
    ensures forall x :: x in EnumKids(cs, w) <==> ViaKid(cs, w, x)
    decreases cs, 0
  {
    if cs != [] {
      assert KidsOk(cs[1..]) by {
        forall i | 0 <= i < |cs[1..]| ensures cs[1..][i] == cs[i + 1] { }
      }
      EnumMembers(cs[0], w + cs[0].value);
      EnumKidsMembers(cs[1..], w);
      forall x
        ensures x in EnumKids(cs, w) <==> ViaKid(cs, w, x)
      {
        assert |w + cs[0].value| == |w| + 1;
        if ViaKid(cs, w, x) {
          var i :| 0 <= i < |cs| && |w| < |x| && w + cs[i].value <= x && Accepts(cs[i], x[|w| + 1..]);
          if i > 0 {
            assert cs[1..][i - 1] == cs[i];
          }
        }
        if ViaKid(cs[1..], w, x) {
          var i :| 0 <= i < |cs[1..]| && |w| < |x| && w + cs[1..][i].value <= x && Accepts(cs[1..][i], x[|w| + 1..]);
          assert cs[1..][i] == cs[i + 1];
        }
      }
    }
  }

  /** The reference enumeration lists no word twice. */
  lemma {:induction false} EnumNoDup(n: Node, w: string)
    requires Consistent(n)
    ensures NoDup(Enum(n, w))
    decreases n, 1
  {
    ConsistentKidsOk(n);
    EnumKidsNoDup(n.children, w);
    EnumKidsMembers(n.children, w);
    var head: seq<string> := if n.leaf then [w] else [];
    forall x | x in head
      ensures x !in EnumKids(n.children, w)
    {
      forall i | 0 <= i < |n.children|
        ensures !(w + n.children[i].value <= x)
      {
        assert |n.children[i].value| == 1;
      }
    }
    NoDupAppend(head, EnumKids(n.children, w));
  }

  lemma {:induction false} EnumKidsNoDup(cs: seq<Node>, w: string)
    requires KidsOk(cs)
    ensures NoDup(EnumKids(cs, w))
    decreases cs, 0
  {
    if cs != [] {
      assert KidsOk(cs[1..]) by {
        forall i | 0 <= i < |cs[1..]| ensures cs[1..][i] == cs[i + 1] { }
      }
      EnumNoDup(cs[0], w + cs[0].value);
      EnumKidsNoDup(cs[1..], w);
      EnumMembers(cs[0], w + cs[0].value);
      EnumKidsMembers(cs[1..], w);
      forall x | x in Enum(cs[0], w + cs[0].value)
        ensures x !in EnumKids(cs[1..], w)
      {
        ExtendPrefix(w, cs[0].value, x);
        forall i | 0 <= i < |cs[1..]|
          ensures !(w + cs[1..][i].value <= x)
        {
          assert cs[1..][i] == cs[i + 1];
          ExtendPrefix(w, cs[i + 1].value, x);
        }
      }
      NoDupAppend(Enum(cs[0], w + cs[0].value), EnumKids(cs[1..], w));
    }
  }

  // ---------------------------------------------------------------------------
  // The iterative traversal and the ghost bookkeeping its proof rests on.
  //
  // A stack frame is a node; its "next child" cursor lives in `cvt`, keyed by
  // the node's identifier. A frame's unexplored children are those after the
  // cursor (all of them while the node has no `cvt` entry). The words still to
  // be produced are, frame by frame from the top of the stack down, the leaf
  // word of a node not yet entered followed by the enumeration of its
  // unexplored children.
  // ---------------------------------------------------------------------------

  function Last(s: seq<Node>): Node
    requires |s| > 0
  {
    s[|s| - 1]
  }

  /** Position of the next child the traversal will push for `n`. */
  function Next(n: Node, cvt: map<nat, nat>): nat {
    if n.uniqueId in cvt then cvt[n.uniqueId] + 1 else 0
  }

  function Unexplored(n: Node, cvt: map<nat, nat>): seq<Node> {
    if Next(n, cvt) <= |n.children| then n.children[Next(n, cvt)..] else []
  }

  /** The word the traversal holds while `s` is the stack: the prefix followed
      by the values of every frame above the bottom one. */
  ghost function PathWord(s: seq<Node>, p: string): string
    decreases |s|
  {
    if |s| <= 1 then p else PathWord(s[..|s| - 1], p) + Last(s).value
  }

  ghost function FrameOut(n: Node, cvt: map<nat, nat>, w: string): seq<string> {
    (if n.uniqueId !in cvt && n.leaf then [w] else []) + EnumKids(Unexplored(n, cvt), w)
  }

  /** Words the traversal has still to produce, top frame first. */
  ghost function Pending(s: seq<Node>, cvt: map<nat, nat>, p: string): seq<string>
    decreases |s|
  {
    if s == [] then [] else FrameOut(Last(s), cvt, PathWord(s, p)) + Pending(s[..|s| - 1], cvt, p)
  }

  /** Identifiers of the nodes the traversal has still to push, top frame first. */
  ghost function PendingIds(s: seq<Node>, cvt: map<nat, nat>): seq<nat>
    decreases |s|
  {
    if s == [] then [] else KidsIdList(Unexplored(Last(s), cvt)) + PendingIds(s[..|s| - 1], cvt)
  }

  ghost function StackIds(s: seq<Node>): seq<nat> {
    seq(|s|, k requires 0 <= k < |s| => s[k].uniqueId)
  }

  /** Changing the cursor of a node that is not on `t` leaves what `t` has pending unchanged. */
  lemma PendingFrame(t: seq<Node>, cvt: map<nat, nat>, x: nat, v: nat, p: string)
    requires forall k :: 0 <= k < |t| ==> t[k].uniqueId != x
    ensures Pending(t, cvt[x := v], p) == Pending(t, cvt, p)
    ensures PendingIds(t, cvt[x := v]) == PendingIds(t, cvt)
    decreases |t|
  {
    if t != [] {
      PendingFrame(t[..|t| - 1], cvt, x, v, p);
      assert Next(Last(t), cvt[x := v]) == Next(Last(t), cvt);
    }
  }

  /** A pop removes a frame with nothing left to explore: only its leaf word, if
      it was never entered, is produced; the word loses its last character. */
  lemma PopFrame(s: seq<Node>, cvt: map<nat, nat>, p: string)
    requires |s| > 0
    requires Unexplored(Last(s), cvt) == []
    ensures Pending(s, cvt, p) ==
              (if Last(s).uniqueId !in cvt && Last(s).leaf then [PathWord(s, p)] else []) + Pending(s[..|s| - 1], cvt, p)
    ensures PendingIds(s, cvt) == PendingIds(s[..|s| - 1], cvt)
    ensures StackIds(s) == StackIds(s[..|s| - 1]) + [Last(s).uniqueId]
    ensures |s| >= 2 && |Last(s).value| == 1 ==>
              |PathWord(s, p)| > 0 && PathWord(s[..|s| - 1], p) == PathWord(s, p)[..|PathWord(s, p)| - 1]
  {
    PopPending(s, cvt, p);
    StackIdsSnoc(s[..|s| - 1], Last(s));
    assert s[..|s| - 1] + [Last(s)] == s;
    if |s| >= 2 && |Last(s).value| == 1 {
      PopWord(s, p);
    }
  }

  lemma PopPending(s: seq<Node>, cvt: map<nat, nat>, p: string)
    requires |s| > 0
    requires Unexplored(Last(s), cvt) == []
    ensures Pending(s, cvt, p) ==
              (if Last(s).uniqueId !in cvt && Last(s).leaf then [PathWord(s, p)] else []) + Pending(s[..|s| - 1], cvt, p)
    ensures PendingIds(s, cvt) == PendingIds(s[..|s| - 1], cvt)
  {
    var n, w := Last(s), PathWord(s, p);
    var head: seq<string> := if n.uniqueId !in cvt && n.leaf then [w] else [];
    assert EnumKids(Unexplored(n, cvt), w) == [];
    assert FrameOut(n, cvt, w) == head + [];
    assert head + [] == head;
    assert KidsIdList(Unexplored(n, cvt)) == [];
    assert PendingIds(s, cvt) == [] + PendingIds(s[..|s| - 1], cvt);
  }

  lemma PopWord(s: seq<Node>, p: string)
    requires |s| >= 2 && |Last(s).value| == 1
    ensures |PathWord(s, p)| > 0 && PathWord(s[..|s| - 1], p) == PathWord(s, p)[..|PathWord(s, p)| - 1]
  {
    var a := PathWord(s[..|s| - 1], p);
    assert PathWord(s, p) == a + Last(s).value;
    assert (a + Last(s).value)[..|a|] == a;
  }

  /** The child under the cursor heads the unexplored list; advancing the cursor past it leaves the rest. */
  lemma CursorChild(n: Node, cvt: map<nat, nat>, w: string)
    requires Next(n, cvt) < |n.children|
    ensures var j := Next(n, cvt); var c := n.children[j]; var cvt' := cvt[n.uniqueId := j];
            && Unexplored(n, cvt') == n.children[j + 1..]
            && KidsIdList(Unexplored(n, cvt)) == IdList(c) + KidsIdList(Unexplored(n, cvt'))
            && EnumKids(Unexplored(n, cvt), w) == Enum(c, w + c.value) + EnumKids(Unexplored(n, cvt'), w)
  {
    var j := Next(n, cvt);
    var kids := n.children[j..];
    assert Unexplored(n, cvt) == kids;
    assert kids[0] == n.children[j] && kids[1..] == n.children[j + 1..];
  }

  /** A node without a cursor has all its words and all its children pending. */
  lemma FreshFrame(c: Node, cvt: map<nat, nat>, w: string)
    requires c.uniqueId !in cvt
    ensures FrameOut(c, cvt, w) == Enum(c, w)
    ensures KidsIdList(Unexplored(c, cvt)) == KidsIdList(c.children)
  {
    assert c.children[0..] == c.children;
  }

  /** A push of the child under the cursor: that child leaves the unexplored
      list, becomes the top frame with no cursor, and the word grows by its value. */
  lemma PushChild(s: seq<Node>, cvt: map<nat, nat>, p: string)
    requires |s| > 0
    requires Next(Last(s), cvt) < |Last(s).children|
    requires NoDup(StackIds(s) + PendingIds(s, cvt))
    requires forall x :: x in PendingIds(s, cvt) ==> x !in cvt
    ensures var n := Last(s); var j := Next(n, cvt); var c := n.children[j];
            var cvt' := cvt[n.uniqueId := j]; var s' := s + [c];
            && c.uniqueId !in cvt'
            && StackIds(s') == StackIds(s) + [c.uniqueId]
            && PendingIds(s, cvt) == [c.uniqueId] + PendingIds(s', cvt')
            && Pending(s, cvt, p) == (if n.uniqueId !in cvt && n.leaf then [PathWord(s, p)] else []) + Pending(s', cvt', p)
            && PathWord(s', p) == PathWord(s, p) + c.value
  {
    var n := Last(s);
    var j := Next(n, cvt);
    var c := n.children[j];
    var cvt' := cvt[n.uniqueId := j];
    var s' := s + [c];
    var rest := s[..|s| - 1];
    var w := PathWord(s, p);
    assert s == rest + [n];
    CursorChild(n, cvt, w);
    PushIds(s, cvt);
    FreshFrame(c, cvt', w + c.value);
    PendingFrame(rest, cvt, n.uniqueId, j, p);
    SnocUnfold(s, c, cvt', p);
    SnocUnfold(rest, n, cvt', p);
    SnocUnfold(rest, n, cvt, p);
    var L: seq<string> := if n.uniqueId !in cvt && n.leaf then [w] else [];
    var E, K, R := Enum(c, w + c.value), EnumKids(Unexplored(n, cvt'), w), Pending(rest, cvt, p);
    assert FrameOut(n, cvt, w) == L + (E + K);
    assert Pending(s, cvt, p) == L + (E + K) + R;
    assert FrameOut(n, cvt', w) == K;
    assert Pending(s, cvt', p) == K + R;
    assert Pending(s', cvt', p) == E + (K + R);
    Regroup(L, E, K, R);
    var I, KI, RI := IdList(c), KidsIdList(Unexplored(n, cvt')), PendingIds(rest, cvt);
    assert I == [c.uniqueId] + KidsIdList(c.children);
    assert PendingIds(s, cvt) == (I + KI) + RI;
    assert PendingIds(s', cvt') == KidsIdList(c.children) + (KI + RI);
    Regroup([c.uniqueId], KidsIdList(c.children), KI, RI);
  }

  /** One unfolding of the stack functions at the top frame. */
  lemma SnocUnfold(s: seq<Node>, c: Node, cvt: map<nat, nat>, p: string)
    ensures PathWord(s + [c], p) == if s == [] then p else PathWord(s, p) + c.value
    ensures Pending(s + [c], cvt, p) == FrameOut(c, cvt, PathWord(s + [c], p)) + Pending(s, cvt, p)
    ensures PendingIds(s + [c], cvt) == KidsIdList(Unexplored(c, cvt)) + PendingIds(s, cvt)
  {
    assert (s + [c])[..|s|] == s;
    assert Last(s + [c]) == c;
  }

  /** The identifier bookkeeping of a push: the pushed child was pending, so it
      has no cursor, and the frame being advanced appears nowhere lower down. */
  lemma PushIds(s: seq<Node>, cvt: map<nat, nat>)
    requires |s| > 0
    requires Next(Last(s), cvt) < |Last(s).children|
    requires NoDup(StackIds(s) + PendingIds(s, cvt))
    requires forall x :: x in PendingIds(s, cvt) ==> x !in cvt
    ensures var n := Last(s); var c := n.children[Next(n, cvt)]; var rest := s[..|s| - 1];
            && c.uniqueId !in cvt && c.uniqueId != n.uniqueId
            && StackIds(s + [c]) == StackIds(s) + [c.uniqueId]
            && n.uniqueId in StackIds(s)
            && (forall k :: 0 <= k < |rest| ==> rest[k].uniqueId != n.uniqueId)
            && (forall k :: 0 <= k < |s| - 1 ==> s[k].uniqueId != n.uniqueId)
            && PendingIds(s, cvt) == IdList(c) + KidsIdList(Unexplored(n, cvt[n.uniqueId := Next(n, cvt)])) + PendingIds(rest, cvt)
  {
    var n := Last(s);
    var j := Next(n, cvt);
    var c := n.children[j];
    var rest := s[..|s| - 1];
    CursorChild(n, cvt, "");
    assert PendingIds(s, cvt) == KidsIdList(Unexplored(n, cvt)) + PendingIds(rest, cvt);
    assert c.uniqueId in PendingIds(s, cvt);
    assert s == rest + [n];
    StackIdsSnoc(rest, n);
    StackIdsSnoc(s, c);
    NoDupAppend(StackIds(s), PendingIds(s, cvt));
    NoDupAppend(StackIds(rest), [n.uniqueId]);
    assert n.uniqueId in StackIds(s);
    forall k | 0 <= k < |rest|
      ensures rest[k].uniqueId != n.uniqueId
    {
      assert StackIds(rest)[k] == rest[k].uniqueId;
      assert StackIds(rest)[k] in StackIds(rest);
    }
    assert forall k :: 0 <= k < |s| - 1 ==> s[k] == rest[k];
  }

  lemma StackIdsSnoc(s: seq<Node>, c: Node)
    ensures StackIds(s + [c]) == StackIds(s) + [c.uniqueId]
  {
  }

  /** What holds of the traversal state at every iteration, besides the word
      and the current node: the stack is a chain of consistent nodes starting at
      `start`, every frame below the top has a cursor, cursors stay within the
      children, the identifiers on the stack and those still to be pushed are
      all distinct and have no cursor yet, and the words produced so far
      followed by those pending make up the reference enumeration. */
  ghost predicate DfsInv(start: Node, prefix: string, stack: seq<Node>, cvt: map<nat, nat>, words: seq<string>) {
    && Frames(start, stack, cvt)
    && NoDup(StackIds(stack) + PendingIds(stack, cvt))
    && (forall x :: x in PendingIds(stack, cvt) ==> x !in cvt)
    && words + Pending(stack, cvt, prefix) == Enum(start, prefix)
  }

  /** The shape of the stack: it starts at `start`, every frame is consistent,
      frames above the bottom hold one character, frames below the top have a
      cursor, and every cursor is within its node's children. */
  ghost predicate Frames(start: Node, stack: seq<Node>, cvt: map<nat, nat>) {
    && (|stack| > 0 ==> stack[0] == start)
    && (forall k :: 0 <= k < |stack| ==> Consistent(stack[k]))
    && (forall k :: 1 <= k < |stack| ==> |stack[k].value| == 1)
    && (forall k :: 0 <= k < |stack| - 1 ==> stack[k].uniqueId in cvt)
    && (forall k :: 0 <= k < |stack| && stack[k].uniqueId in cvt ==> cvt[stack[k].uniqueId] < |stack[k].children|)
  }

  /** Popping keeps the shape of the stack. */
  lemma FramesPop(start: Node, stack: seq<Node>, cvt: map<nat, nat>)
    requires |stack| > 0 && Frames(start, stack, cvt)
    ensures Frames(start, stack[..|stack| - 1], cvt)
  {
    var s' := stack[..|stack| - 1];
    assert forall k :: 0 <= k < |s'| ==> s'[k] == stack[k];
  }

  /** The two popping branches of the loop keep the invariant. */
  lemma PopStep(start: Node, prefix: string, stack: seq<Node>, cvt: map<nat, nat>, words: seq<string>)
    requires DfsInv(start, prefix, stack, cvt, words) && |stack| > 0
    requires |Last(stack).children| == 0 ||
             (Last(stack).uniqueId in cvt && cvt[Last(stack).uniqueId] >= |Last(stack).children| - 1)
    ensures var n := Last(stack); var s' := stack[..|stack| - 1]; var w := PathWord(stack, prefix);
            && (|n.children| == 0 ==> n.uniqueId !in cvt)
            && DfsInv(start, prefix, s', cvt, words + (if n.uniqueId !in cvt && n.leaf then [w] else []))
            && |PendingIds(s', cvt)| == |PendingIds(stack, cvt)|
            && (|s'| > 0 ==> |w| > 0 && PathWord(s', prefix) == w[..|w| - 1])
  {
    var n := Last(stack);
    var s' := stack[..|stack| - 1];
    assert Unexplored(n, cvt) == [];
    PopFrame(stack, cvt, prefix);
    NoDupRemove(StackIds(s'), n.uniqueId, PendingIds(s', cvt));
    var head: seq<string> := if n.uniqueId !in cvt && n.leaf then [PathWord(stack, prefix)] else [];
    Assoc(words, head, Pending(s', cvt, prefix));
    FramesPop(start, stack, cvt);
    if |s'| > 0 {
      assert |Last(stack).value| == 1;
    }
  }

  /** The two pushing branches of the loop keep the invariant and shrink the measure. */
  lemma PushStep(start: Node, prefix: string, stack: seq<Node>, cvt: map<nat, nat>, words: seq<string>)
    requires DfsInv(start, prefix, stack, cvt, words) && |stack| > 0
    requires Next(Last(stack), cvt) < |Last(stack).children|
    ensures var n := Last(stack); var j := Next(n, cvt); var c := n.children[j];
            var cvt' := cvt[n.uniqueId := j]; var w := PathWord(stack, prefix);
            && DfsInv(start, prefix, stack + [c], cvt', words + (if n.uniqueId !in cvt && n.leaf then [w] else []))
            && |PendingIds(stack + [c], cvt')| + 1 == |PendingIds(stack, cvt)|
            && PathWord(stack + [c], prefix) == w + c.value
  {
    var n := Last(stack);
    var j := Next(n, cvt);
    var c := n.children[j];
    var cvt' := cvt[n.uniqueId := j];
    var s' := stack + [c];
    PushChild(stack, cvt, prefix);
    PushIds(stack, cvt);
    NoDupAppend(StackIds(stack), PendingIds(stack, cvt));
    PushCursors(start, stack, cvt);
    PushFresh(StackIds(stack), PendingIds(stack, cvt), PendingIds(s', cvt'), n.uniqueId, c.uniqueId, cvt, j);
    var head: seq<string> := if n.uniqueId !in cvt && n.leaf then [PathWord(stack, prefix)] else [];
    Assoc(words, head, Pending(s', cvt', prefix));
    assert |s'| > 0 ==> s'[0] == start;
    assert StackIds(s') + PendingIds(s', cvt') == StackIds(stack) + PendingIds(stack, cvt) by {
      Assoc(StackIds(stack), [c.uniqueId], PendingIds(s', cvt'));
    }
  }

  /** After a push the stack is still a chain of consistent frames below which every frame has an in-range cursor. */
  lemma PushCursors(start: Node, stack: seq<Node>, cvt: map<nat, nat>)
    requires |stack| > 0
    requires Next(Last(stack), cvt) < |Last(stack).children|
    requires Frames(start, stack, cvt)
    requires var n := Last(stack); var c := n.children[Next(n, cvt)];
             && c.uniqueId !in cvt && c.uniqueId != n.uniqueId
             && (forall k :: 0 <= k < |stack| - 1 ==> stack[k].uniqueId != n.uniqueId)
    ensures var n := Last(stack); var j := Next(n, cvt); var c := n.children[j];
            Frames(start, stack + [c], cvt[n.uniqueId := j])
  {
    var n := Last(stack);
    var j := Next(n, cvt);
    var c := n.children[j];
    var cvt' := cvt[n.uniqueId := j];
    var s' := stack + [c];
    assert forall k :: 0 <= k < |stack| ==> s'[k] == stack[k];
    assert s'[|stack|] == c;
  }

  /** After a push nothing still to be pushed has a cursor. */
  lemma PushFresh(S: seq<nat>, P: seq<nat>, P': seq<nat>, nid: nat, cid: nat, cvt: map<nat, nat>, j: nat)
    requires NoDup(S + P)
    requires nid in S
    requires P == [cid] + P'
    requires forall x :: x in P ==> x !in cvt
    ensures forall x :: x in P' ==> x !in cvt[nid := j]
  {
    NoDupAppend(S, P);
    forall x | x in P'
      ensures x !in cvt[nid := j]
    {
      assert x in P;
    }
  }

  /** The invariant holds when the stack holds only the start node. */
  lemma DfsStart(start: Node, prefix: string)
    requires Consistent(start)
    requires NoDup(IdList(start))
    ensures DfsInv(start, prefix, [start], map[], [])
    ensures PathWord([start], prefix) == prefix
  {
    StackIdsSnoc([], start);
    assert [] + [start] == [start];
    SnocUnfold([], start, map[], prefix);
    FreshFrame(start, map[], prefix);
    assert StackIds([start]) + PendingIds([start], map[]) == IdList(start);
  }

  /** The quantity every iteration shrinks: a push removes one pending node
      and adds one frame, a pop removes one frame. */
  ghost function Measure(stack: seq<Node>, cvt: map<nat, nat>): nat {
    2 * |PendingIds(stack, cvt)| + |stack|
  }

  /** The loop invariant of `Dfs`: the current node is the top of the stack,
      the current word spells the path to it, and `DfsInv` holds. */
  ghost predicate Loop(start: Node, prefix: string, stack: seq<Node>, cvt: map<nat, nat>,
                       words: seq<string>, word: string, node: Node) {
    && (|stack| > 0 ==> node == Last(stack) && word == PathWord(stack, prefix))
    && DfsInv(start, prefix, stack, cvt, words)
  }

  /** The two popping branches of the loop, as written there: a childless node
      contributes its word if it is a leaf, a node whose last child has been
      pushed contributes nothing, and both leave the stack. */
  lemma Retreat(start: Node, prefix: string, stack: seq<Node>, cvt: map<nat, nat>, words: seq<string>,
                word: string, stack': seq<Node>, words': seq<string>, word': string, node': Node)
    requires |stack| > 0 && Loop(start, prefix, stack, cvt, words, word, Last(stack))
    requires |Last(stack).children| == 0 ||
             (Last(stack).uniqueId in cvt && cvt[Last(stack).uniqueId] >= |Last(stack).children| - 1)
    requires words' == if |Last(stack).children| == 0 && Last(stack).leaf then words + [word] else words
    requires stack' == stack[..|stack| - 1]
    requires word' == if |word| > 0 then word[..|word| - 1] else word
    requires |stack'| > 0 ==> node' == stack'[|stack'| - 1]
    ensures Loop(start, prefix, stack', cvt, words', word', node')
    ensures Measure(stack', cvt) < Measure(stack, cvt)
  {
    var n := Last(stack);
    PopStep(start, prefix, stack, cvt, words);
    assert words' == words + (if n.uniqueId !in cvt && n.leaf then [PathWord(stack, prefix)] else []);
  }

  /** The two pushing branches of the loop, as written there: a node entered for
      the first time contributes its word if it is a leaf and pushes its first
      child; a node entered before pushes its next child. */
  lemma Advance(start: Node, prefix: string, stack: seq<Node>, cvt: map<nat, nat>, words: seq<string>,
                word: string, cvt': map<nat, nat>, stack': seq<Node>, words': seq<string>, word': string, node': Node)
    requires |stack| > 0 && Loop(start, prefix, stack, cvt, words, word, Last(stack))
    requires Next(Last(stack), cvt) < |Last(stack).children|
    requires words' == if Last(stack).uniqueId !in cvt && Last(stack).leaf then words + [word] else words
    requires cvt' == cvt[Last(stack).uniqueId := Next(Last(stack), cvt)]
    requires node' == Last(stack).children[Next(Last(stack), cvt)]
    requires stack' == stack + [node']
    requires word' == word + node'.value
    ensures Loop(start, prefix, stack', cvt', words', word', node')
    ensures Measure(stack', cvt') < Measure(stack, cvt)
  {
    var n := Last(stack);
    PushStep(start, prefix, stack, cvt, words);
    assert words' == words + (if n.uniqueId !in cvt && n.leaf then [PathWord(stack, prefix)] else []);
  }

  /** Python's `Trie.dfs`: the iterative traversal from `start`, producing
      exactly the reference enumeration, hence every `prefix + s` with `s`
      leading from `start` to a leaf, each once. */
  method Dfs(prefix: string, start: Node) returns (words: seq<string>)
    requires Consistent(start)
    requires NoDup(IdList(start))
    ensures words == Enum(start, prefix)
    ensures NoDup(words)
    ensures forall x :: x in words <==> prefix <= x && Accepts(start, x[|prefix|..])
  {
    words := [];
    var stack := [start];
    var cvt: map<nat, nat> := map[];
    var word := prefix;
    var node := start;
    DfsStart(start, prefix);
    while |stack| > 0
      invariant Loop(start, prefix, stack, cvt, words, word, node)
      decreases Measure(stack, cvt)
    {
      ghost var stack0, cvt0, words0, word0 := stack, cvt, words, word;
      if |node.children| == 0 {
        if node.leaf {
          words := words + [word];
        }
        stack := stack[..|stack| - 1];
        word := if |word| > 0 then word[..|word| - 1] else word;
        if |stack| > 0 {
          node := stack[|stack| - 1];
        }
        Retreat(start, prefix, stack0, cvt0, words0, word0, stack, words, word, node);
      } else if node.uniqueId !in cvt {
        if node.leaf {
          words := words + [word];
        }
        cvt := cvt[node.uniqueId := 0];
        stack := stack + [node.children[0]];
        node := node.children[0];
        word := word + node.value;
        Advance(start, prefix, stack0, cvt0, words0, word0, cvt, stack, words, word, node);
      } else if cvt[node.uniqueId] < |node.children| - 1 {
        cvt := cvt[node.uniqueId := cvt[node.uniqueId] + 1];
        stack := stack + [node.children[cvt[node.uniqueId]]];
        node := node.children[cvt[node.uniqueId]];
        word := word + node.value;
        Advance(start, prefix, stack0, cvt0, words0, word0, cvt, stack, words, word, node);
      } else {
        stack := stack[..|stack| - 1];
        word := if |word| > 0 then word[..|word| - 1] else word;
        if |stack| > 0 {
          node := stack[|stack| - 1];
        }
        Retreat(start, prefix, stack0, cvt0, words0, word0, stack, words, word, node);
      }
    }
    EnumNoDup(start, prefix);
    EnumMembers(start, prefix);
  }
}
