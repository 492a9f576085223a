/** The two indexes answer the same question: for a non-empty prefix, the
    prefix-hash index lists exactly the words the trie lists, except the
    prefix itself (which the hash index only stores under shorter keys). */
module Engines {
  import Tries
  import PrefixHash

  lemma EnginesAgree(ws: seq<string>, p: string)
    requires p != []
    ensures PrefixHash.Query(PrefixHash.Build(ws), p) == (set x | x in Tries.Lookup(Tries.Build(ws), p)) - {p}
  {
    var hq := HashAnswer(ws, p);
    var tq := TrieAnswer(ws, p);
    AnswersAgree(ws, p, hq, tq);
  }

  /** The two characterisations differ only in the prefix itself. */
  lemma AnswersAgree(ws: seq<string>, p: string, hq: set<string>, tq: set<string>)
    requires forall x :: x in hq <==> x in ws && p != [] && p < x
    requires forall x :: x in tq <==> x in ws && p != [] && p <= x
    ensures hq == tq - {p}
  {
    forall x
      ensures x in hq <==> x in tq - {p}
    {
      ProperPrefix(p, x);
    }
  }

  /** A proper prefix is a prefix other than the string itself. */
  lemma ProperPrefix(p: string, x: string)
    ensures p < x <==> p <= x && p != x
  {
  }

  /** The hash index's answer, as the strings of `ws` it characterises. */
  lemma HashAnswer(ws: seq<string>, p: string) returns (hq: set<string>)
    ensures hq == PrefixHash.Query(PrefixHash.Build(ws), p)
    ensures forall x :: x in hq <==> x in ws && p != [] && p < x
  {
    hq := PrefixHash.Query(PrefixHash.Build(ws), p);
  }

  /** The trie's answer, as the strings of `ws` it characterises. */
  lemma TrieAnswer(ws: seq<string>, p: string) returns (tq: set<string>)
    ensures tq == set x | x in Tries.Lookup(Tries.Build(ws), p)
    ensures forall x :: x in tq <==> x in ws && p != [] && p <= x
  {
    tq := set x | x in Tries.Lookup(Tries.Build(ws), p);
  }

  /** For a prefix that is not itself an inserted word, the two indexes agree exactly. */
  lemma EnginesAgreeOnNonWords(ws: seq<string>, p: string)
    requires p != [] && p !in ws
    ensures PrefixHash.Query(PrefixHash.Build(ws), p) == set x | x in Tries.Lookup(Tries.Build(ws), p)
  {
    EnginesAgree(ws, p);
    assert p !in Tries.Lookup(Tries.Build(ws), p);
  }
}
