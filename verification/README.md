# Autocomplete prefix indexes, modelled in Dafny

This project models the two in-memory prefix indexes of the autocomplete
repository. Both answer the same question: which of the inserted strings start
with a given prefix.

- **The trie** (`src/DataStructures/Trie.py` over `src/DataStructures/Node.py`).
  - Every node holds a value, an ordered list of children, an index from a
    child's value to its position, a leaf mark and a unique identifier.
  - `insert` walks or extends one path per character and marks its last node
    as a leaf.
  - `query` walks the prefix through the child indexes and then runs `dfs`.
  - `dfs` is an iterative depth-first enumeration. It uses an explicit stack,
    a "children visited tracker" (`cvt`) keyed by node identifier, and a word
    that grows on push and shrinks on pop.
- **The prefix-hash index** (`src/DataStructures/PrefixHashTree.py`). It is a
  map from every non-empty proper prefix of each inserted string to the set of
  inserted strings with that prefix.

Files:

- `seqs.dfy` (`Seqs`): a recursive "no repeated element" predicate and facts
  about it.
- `node.dfy` (`Nodes`): the `Node` datatype, the node invariant `Consistent`,
  `add_child` (as `AddChild`, returning a `Result`), index lookup (`Child`),
  value equality (`NodeEq`), and the pre-order identifier list `IdList`.
- `traversal.dfy` (`Traversal`): `Enum`, a recursive reference enumeration,
  and `Dfs`, the iterative traversal as written in the source. `Dfs` is proved
  to return exactly `Enum`.
  - The loop invariant is ghost bookkeeping. The words produced so far,
    followed by the words still pending on the stack, always form `Enum`.
  - The identifiers on the stack and those of the nodes still to be pushed
    are all distinct; those still to be pushed have no `cvt` entry.
  - The loop's termination measure is twice the number of nodes still to be
    pushed plus the height of the stack.
- `trie.dfy` (`Tries`): the trie invariant `Valid`, `insert` (`InsertAt`,
  `Insert`), the walk, `query` (the abstract `Lookup` and the method `Query`),
  `Build` for a sequence of inserts, and node-identity lemmas.
- `prefix_hash.dfy` (`PrefixHash`): the index as a `map<string, set<string>>`,
  with `insert`, `query`, their characterisation and an index invariant.
- `engines.dfy` (`Engines`): the two indexes agree. For a non-empty prefix,
  the hash index answers what the trie answers, minus the prefix itself.

Modelling choices:

- Node values are strings. The root holds the two-character sentinel `"-1"`;
  every other node holds one character.
- The uuid each node draws is modelled as a number from a counter owned by the
  trie (`Trie.nextId`). The source constructs a `Node(c)` on every iteration of
  `insert`, even when it is then discarded, so one insertion draws `|w|`
  identifiers.
- Nodes are immutable values, and insertion rebuilds the path it walks. The
  source's loop in `insert` is written as the recursion `InsertAt`.
- `query`'s results are sequences. The source returns a `set()` when it gives
  up and a list from `dfs`. The contracts state the element set and that no
  element repeats.

## Model

| member | source | states |
|---|---|---|
| Nodes.NewNode | src/DataStructures/Node.py:24-38 | a fresh node holds the given value and identifier, has no children and an empty index, is not a leaf, satisfies the node invariant, has only its own identifier in its subtree, and accepts no word |
| Nodes.AddChild | src/DataStructures/Node.py:40-50 | fails with the duplicate-child error exactly when the value is already indexed; otherwise appends the child at the end, indexes it at the last position, keeps every old index entry, keeps the node invariant, and makes the child findable by its value while all other lookups stay the same |
| Nodes.AppendKeepsConsistent | src/DataStructures/Node.py:46-48 | appending a one-character child under a value not yet indexed keeps the node invariant; the new child is found by its value and every other lookup is unchanged |
| Nodes.ReplaceKeepsConsistent | src/DataStructures/Trie.py:43-44 | replacing a child by a consistent node with the same value keeps the node invariant |
| Nodes.Child | src/DataStructures/Trie.py:66-67 | looking a character up through the index finds a child exactly when some child holds that value, and the child found is one of the children |
| Nodes.NodeEq | src/DataStructures/Node.py:59-66 | two nodes are equal exactly when their values are, so identical nodes are always equal and children, leaf marker and identifier play no part |
| Nodes.SiblingsNotEqual | src/DataStructures/Node.py:59-66 | among the children of one consistent node, two children are equal by value exactly when they are the same position |
| Nodes.ChildIdsNoDup | src/DataStructures/Node.py:36-38 | in a subtree with distinct identifiers, each child's subtree also has distinct identifiers, none equal to the parent's |
| Traversal.EnumMembers | src/DataStructures/Trie.py:75-139 | the reference enumeration from a node holds exactly the words `w + s` such that `s` leads from the node to a leaf |
| Traversal.EnumNoDup | src/DataStructures/Trie.py:75-139 | the reference enumeration lists no word twice |
| Traversal.DfsStart | src/DataStructures/Trie.py:82-90 | the initial stack, empty tracker and empty output satisfy the loop invariant, with the word equal to the prefix |
| Traversal.Retreat | src/DataStructures/Trie.py:96-137 | the popping branches (a childless node, or a node whose last child was pushed) keep the invariant; the word loses its last character and equals the path to the new top, and the measure shrinks |
| Traversal.Advance | src/DataStructures/Trie.py:108-130 | the pushing branches (first visit, or next child) keep the invariant; the word gains the pushed child's value, a first visit to a leaf emits its word, and the measure shrinks |
| Traversal.Dfs | src/DataStructures/Trie.py:75-139 | the iterative traversal returns exactly the reference enumeration: every `prefix + s` with `s` leading from the start node to a leaf (the start itself included), each once |
| Tries.Init | src/DataStructures/Trie.py:20-25 | a new trie satisfies the invariant, has a childless, non-leaf root and accepts no word |
| Tries.InsertAt | src/DataStructures/Trie.py:37-47 | insertion below a node keeps the node invariant (sibling values distinct, index equal to positions), its value and its identifier |
| Tries.Insert | src/DataStructures/Trie.py:27-47 | insertion keeps the trie invariant and adds exactly the inserted word to the accepted words |
| Tries.AcceptsViaChild | src/DataStructures/Trie.py:64-70 | a non-empty word is accepted exactly when the indexed child for its first character exists and accepts the rest |
| Tries.InsertChild | src/DataStructures/Trie.py:40-44 | after insertion, the child for the first character holds the rest of the word inserted into the old child, or into the freshly built node when there was none |
| Tries.InsertOtherChild | src/DataStructures/Trie.py:37-44 | after insertion, the lookup of any other character finds the same child as before |
| Tries.AcceptsAfterChildUpdate | src/DataStructures/Trie.py:37-47 | when one child is replaced by a node accepting its old words plus the rest of the inserted word, the parent accepts its old words plus the inserted word |
| Tries.InsertAccepts | src/DataStructures/Trie.py:37-47 | the words accepted after insertion are the old ones plus the inserted word |
| Tries.InsertIds | src/DataStructures/Trie.py:37-44 | after insertion the identifiers are still distinct, every new one was drawn during this insertion, and at most `len(w)` nodes were added |
| Tries.InsertIsAddChild | src/DataStructures/Trie.py:40-42 | where the inlined check attaches a node, the result equals a successful `add_child` of the new subtree, so the duplicate error cannot arise; where the child exists, no child is added and the index is unchanged |
| Tries.InsertExtends | src/DataStructures/Trie.py:37-47 | insertion never removes or reorders children, never changes an index entry or identifier, and never clears a leaf mark, at any depth |
| Tries.ReinsertUnchanged | src/DataStructures/Trie.py:37-47 | inserting a word that is already accepted leaves the tree exactly as it was |
| Tries.InsertIdempotent | src/DataStructures/Trie.py:27-47 | inserting the same word twice gives the same tree as inserting it once |
| Tries.Walk | src/DataStructures/Trie.py:62-70 | walking from a consistent node ends, if it ends anywhere, at a consistent node; the empty walk stays put, and a non-empty walk ends at a node holding the prefix's last character |
| Tries.WalkAppend | src/DataStructures/Trie.py:64-70 | walking `p + q` is walking `p`, then `q` from where `p` ended; a failed walk stays failed |
| Tries.WalkAccepts | src/DataStructures/Trie.py:64-73 | a word `p + x` is accepted from the root exactly when the walk along `p` succeeds and `x` is accepted below the node reached |
| Tries.LookupMembers | src/DataStructures/Trie.py:64-73 | when the walk succeeds, the enumeration below the node reached holds exactly the accepted words starting with the prefix; when it fails, no accepted word starts with the prefix |
| Tries.Lookup | src/DataStructures/Trie.py:49-73 | a query answers exactly the inserted words that start with a non-empty prefix, with no repetition; the empty prefix and a prefix that leaves the tree answer nothing |
| Tries.Query | src/DataStructures/Trie.py:49-73 | the query method (empty-prefix check, walk loop that gives up on a missing character, then `dfs`) returns the abstract answer: the accepted words starting with a non-empty prefix, each once |
| Tries.InsertedFound | src/DataStructures/Trie.py:27-73 | after inserting `w`, querying any prefix `w[:k]` with `1 <= k <= len(w)` finds `w` |
| Tries.EmptyInsertInvisible | src/DataStructures/Trie.py:47-59 | inserting the empty word only marks the root as a leaf, and no query answer changes |
| Tries.Build | src/DataStructures/Trie.py:27-47 | a trie built by inserting a sequence of words satisfies the invariant and accepts exactly those words |
| Tries.NodeAtIds | src/DataStructures/Node.py:36-38 | the node at a position has its identifier in the subtree where the position starts |
| Tries.DistinctPositionsDistinctIds | src/DataStructures/Node.py:36-38 | in a tree with distinct identifiers, different positions hold nodes with different identifiers |
| Tries.EqualValuesDistinctNodes | src/DataStructures/Node.py:59-66 | after inserting "ab" then "b", the two nodes holding "b" are equal under value equality but have different identifiers |
| PrefixHash.Init | src/DataStructures/PrefixHashTree.py:14-19 | a new index answers every query with the empty set |
| PrefixHash.AddMember | src/DataStructures/PrefixHashTree.py:37-42 | adding a string under a key creates the key if missing and adds the string to that key's answer only |
| PrefixHash.Query | src/DataStructures/PrefixHashTree.py:44-52 | a prefix that was never a key answers the empty set; in a valid index every suggestion returned starts with the prefix, is longer than it, and the empty prefix has none |
| PrefixHash.Expand | src/DataStructures/PrefixHashTree.py:34-42 | the insertion loop run from length `l` creates exactly the proper prefixes of length at least `l` as keys, adds the string to exactly their answers and leaves every other answer unchanged |
| PrefixHash.Insert | src/DataStructures/PrefixHashTree.py:21-42 | after `insert(s)` the keys are the old ones plus the non-empty proper prefixes of `s`; `query(p)` gains `s` exactly when `p` is such a prefix, and every other answer is unchanged |
| PrefixHash.InsertTouchesOnlyPrefixes | src/DataStructures/PrefixHashTree.py:34-42 | insertion adds only keys that are non-empty proper prefixes of the string, never removes a key or member, and leaves every other key's set unchanged |
| PrefixHash.ShortInsertUnchanged | src/DataStructures/PrefixHashTree.py:34 | inserting a string of length 0 or 1 leaves the map unchanged |
| PrefixHash.InsertIdempotent | src/DataStructures/PrefixHashTree.py:37-42 | inserting the same string twice gives the same map as inserting it once |
| PrefixHash.ValidQueries | src/DataStructures/PrefixHashTree.py:44-52 | in an index whose keys are non-empty proper prefixes of their members, no string answers its own query and the empty prefix answers nothing |
| PrefixHash.InsertValid | src/DataStructures/PrefixHashTree.py:34-42 | insertion keeps every key non-empty and a proper prefix of each of its members |
| PrefixHash.Build | src/DataStructures/PrefixHashTree.py:21-52 | after inserting a sequence of strings, `query(p)` is exactly the set of inserted strings of which `p` is a non-empty proper prefix |
| Engines.EnginesAgree | src/DataStructures/PrefixHashTree.py:21-52 | for the same insertions and a non-empty prefix, the hash index answers the trie's answer minus the prefix itself |
| Engines.EnginesAgreeOnNonWords | src/DataStructures/PrefixHashTree.py:44-52 | for a non-empty prefix that was not itself inserted, the two indexes give the same set |

## Left out

- `uuid.uuid1()` (src/DataStructures/Node.py:57) is a foreign call. It is
  replaced by a counter owned by the trie. Only the uniqueness of identifiers
  matters, and that is proved.
- `Node.__hash__` (src/DataStructures/Node.py:68-73) uses `ord`, a Python
  builtin defined only for single characters. Neither index uses it.
- The `node.value != -1` guards in `dfs` (src/DataStructures/Trie.py:118, 129)
  compare a string with an integer, so they are always true. The append they
  guard is modelled as unconditional.
- Aliasing is not modelled. The hash index's `query` returns the stored set
  object itself, and a caller could mutate the index through it. Model values
  are immutable.
- Python's exception for a duplicate child is modelled as a `Failure` result.
  The message text is not modelled.
- Root leaf mark: the code marks the root as a leaf on `insert("")`
  (src/DataStructures/Trie.py:47). `Tries.EmptyInsertInvisible` shows that no
  query can observe the mark.
- The benchmark harness is not part of this model: file reading, random
  sampling, timing and progress output. Neither is the `AutoComplete` facade it
  imports.
- Nodes.Child: states the lookup through `children_index` only for nodes that
  satisfy the node invariant. The source does not check the invariant and would
  fail with an index error on a corrupted node.
- Tries.Insert, Tries.Lookup, Tries.Query: require the trie invariant `Valid`.
  `Init` establishes it and `Insert` keeps it, so every trie the source can
  build satisfies it.
- Traversal.Dfs: requires a consistent start node with distinct identifiers.
  The source calls `dfs` only on a node reached by `query`'s walk, and every
  such node satisfies this.
- Tries.InsertAt: requires the node invariant. A node whose index points
  outside its child list cannot arise from the source's own operations.
