/** The prefix-hash index of src/DataStructures/PrefixHashTree.py: a map from
    every proper, non-empty prefix of each inserted string to the set of
    inserted strings having that prefix. */
module PrefixHash {

  type Index = map<string, set<string>>

  /** `PrefixHashTree.__init__`: the empty map. */
  function Init(): (m: Index)
    ensures forall p :: Query(m, p) == {}
  {
    map[]
  }

  /** `PrefixHashTree.query`: the set stored under `p`, or the empty set when
      `p` was never a key. In a valid index every suggestion returned starts
      with the prefix and is longer than it. */
  function Query(m: Index, p: string): (r: set<string>)
    ensures p !in m ==> r == {}
    ensures Valid(m) ==> forall x :: x in r ==> p != [] && p < x
  {
    if p in m then m[p] else {}
  }

  /** One iteration of the loop in `insert`: add `s` to the set under `k`,
      creating the key with `{s}` when it is missing. */
  function AddMember(m: Index, k: string, s: string): (r: Index)
    ensures forall x :: x in r <==> x in m || x == k
    ensures forall p :: Query(r, p) == if p == k then Query(m, p) + {s} else Query(m, p)
  {
    if k in m then m[k := m[k] + {s}] else m[k := {s}]
  }

  /** The loop of `insert` from prefix length `l` on: the keys `s[..l]`,
      `s[..l + 1]`, ..., `s[..|s| - 1]` each receive `s`. Exactly the prefixes
      of `s` of length at least `l`, other than `s` itself, become keys and gain
      `s`; every other answer is unchanged. */
  function Expand(m: Index, s: string, l: nat): (r: Index)
    requires 1 <= l
    ensures forall k :: k in r <==> k in m || (l <= |k| && k < s)
    ensures forall p :: Query(r, p) == if l <= |p| && p < s then Query(m, p) + {s} else Query(m, p)
    decreases |s| - l
  {
    if l < |s| then
      var m' := AddMember(m, s[..l], s);
      var r := Expand(m', s, l + 1);
      ExpandStep(m, s, l, m', r);
      r
    else m
  }

  /** One step of `Expand`: what the rest of the loop does from `l + 1`, after
      `s[..l]` has received `s`, is what the loop does from `l`. */
  lemma ExpandStep(m: Index, s: string, l: nat, m': Index, r: Index)
    requires 1 <= l < |s|
    requires m' == AddMember(m, s[..l], s)
    requires forall k :: k in r <==> k in m' || (l + 1 <= |k| && k < s)
    requires forall p :: Query(r, p) == if l + 1 <= |p| && p < s then Query(m', p) + {s} else Query(m', p)
    ensures forall k :: k in r <==> k in m || (l <= |k| && k < s)
    ensures forall p :: Query(r, p) == if l <= |p| && p < s then Query(m, p) + {s} else Query(m, p)
  {
    forall k
      ensures (l <= |k| && k < s) <==> (k == s[..l] || (l + 1 <= |k| && k < s))
    {
      if k == s[..l] {
        assert s[..l] < s;
      }
    }
    forall p | p == s[..l]
      ensures !(l + 1 <= |p| && p < s)
    {
    }
  }

  /** `PrefixHashTree.insert`: every prefix of length 1 to `|s| - 1` receives
      `s`. The keys become the old ones plus the non-empty proper prefixes of
      `s`, and `query(p)` gains `s` exactly when `p` is such a prefix; every
      other answer is unchanged. */
  function Insert(m: Index, s: string): (r: Index)
    ensures forall k :: k in r <==> k in m || (k != [] && k < s)
    ensures forall p :: Query(r, p) == if p != [] && p < s then Query(m, p) + {s} else Query(m, p)
  {
    Expand(m, s, 1)
  }

  /** `insert(s)` creates exactly the keys that are non-empty proper prefixes of
      `s`, only adds members, and leaves every other key as it was. */
  lemma InsertTouchesOnlyPrefixes(m: Index, s: string)
    ensures forall k :: k in Insert(m, s) <==> k in m || (k != [] && k < s)
    ensures forall k :: k in m ==> m[k] <= Insert(m, s)[k]
    ensures forall k :: k in m && !(k != [] && k < s) ==> Insert(m, s)[k] == m[k]
  {
    forall k | k in m
      ensures m[k] <= Insert(m, s)[k]
      ensures !(k != [] && k < s) ==> Insert(m, s)[k] == m[k]
    {
      assert Query(m, k) == m[k];
      assert Query(Insert(m, s), k) == Insert(m, s)[k];
    }
  }

  /** A string of length 0 or 1 has no non-empty proper prefix: the map is unchanged. */
  lemma ShortInsertUnchanged(m: Index, s: string)
    requires |s| <= 1
    ensures Insert(m, s) == m
  {
  }

  /** Inserting a string a second time changes nothing. */
  lemma InsertIdempotent(m: Index, s: string)
    ensures Insert(Insert(m, s), s) == Insert(m, s)
  {
    SecondInsertSame(m, s, Insert(m, s), Insert(Insert(m, s), s));
  }

  /** Two rounds of the effect `insert(s)` has on keys and answers: the second
      round finds every key and every member it would add already present. */
  lemma SecondInsertSame(m: Index, s: string, m1: Index, m2: Index)
    requires forall k :: k in m1 <==> k in m || (k != [] && k < s)
    requires forall p :: Query(m1, p) == if p != [] && p < s then Query(m, p) + {s} else Query(m, p)
    requires forall k :: k in m2 <==> k in m1 || (k != [] && k < s)
    requires forall p :: Query(m2, p) == if p != [] && p < s then Query(m1, p) + {s} else Query(m1, p)
    ensures m2 == m1
  {
    forall k | k in m1
      ensures m2[k] == m1[k]
    {
      assert Query(m2, k) == m2[k];
      assert Query(m1, k) == m1[k];
      if k != [] && k < s {
        assert s in Query(m1, k);
      }
    }
  }

  /** The index invariant: keys are non-empty and every member extends its key
      by at least one character. */
  ghost predicate Valid(m: Index) {
    forall k :: k in m ==> k != [] && forall x :: x in m[k] ==> k < x
  }

  /** In a valid index no string answers a query for itself, and the empty
      prefix answers nothing. */
  lemma ValidQueries(m: Index, s: string)
    requires Valid(m)
    ensures s !in Query(m, s)
    ensures Query(m, []) == {}
  {
  }

  /** Insertion keeps the index valid. */
  lemma InsertValid(m: Index, s: string)
    requires Valid(m)
    ensures Valid(Insert(m, s))
  {
    forall k | k in Insert(m, s)
      ensures k != [] && forall x :: x in Insert(m, s)[k] ==> k < x
    {
      assert Query(Insert(m, s), k) == Insert(m, s)[k];
    }
  }

  /** The index after inserting the strings of `ws` in order into an empty map. */
  function Build(ws: seq<string>): (m: Index)
    ensures Valid(m)
    ensures forall p :: Query(m, p) == set s | s in ws && p != [] && p < s
    decreases |ws|
  {
    if ws == [] then Init()
    else
      var m0 := Build(ws[..|ws| - 1]);
      var w := ws[|ws| - 1];
      var r := Insert(m0, w);
      InsertValid(m0, w);
      assert ws == ws[..|ws| - 1] + [w];
      BuildStep(ws, ws[..|ws| - 1], w, m0, r);
      r
  }

  /** One step of `Build`: answers that were exactly the qualifying strings of
      all but the last string, updated as `insert` updates them, are exactly
      the qualifying strings of all of `ws`. */
  lemma BuildStep(ws: seq<string>, init: seq<string>, w: string, m0: Index, r: Index)
    requires ws == init + [w]
    requires forall p :: Query(m0, p) == set s | s in init && p != [] && p < s
    requires forall p :: Query(r, p) == if p != [] && p < w then Query(m0, p) + {w} else Query(m0, p)
    ensures forall p :: Query(r, p) == set s | s in ws && p != [] && p < s
  {
  }
}
