/** Facts about prefixes of sequences, and about removing keys from a map, that the loops
    over key listings use at each step. */
module Seqs {

  /** The prefix through `s[i]` is the prefix before it and `s[i]`, and it is followed by
      the rest of `s`. */
  lemma TakeSnoc<T>(s: seq<T>, i: nat)
    requires i < |s|
    ensures s[..i + 1] == s[..i] + [s[i]] && s[..i + 1] + s[i + 1..] == s
  {
  }

  /** A prefix of a prefix, and the whole as its own prefix. */
  lemma PrefixOfPrefix<T>(s: seq<T>, m: nat, n: nat)
    requires n <= m <= |s|
    ensures s[..m][..n] == s[..n] && s[..|s|] == s
  {
  }

  /** Taking one more element of `s` after a fixed front `a`. */
  lemma AppendTakeSnoc<T>(a: seq<T>, s: seq<T>, j: nat)
    requires j < |s|
    ensures a + s[..j + 1] == (a + s[..j]) + [s[j]] && a + s[..0] == a
  {
    assert s[..j + 1] == s[..j] + [s[j]];
  }

  /** Removing one more key from a map already stripped of `gone`: removing it (or, when it
      is absent, doing nothing) leaves the map stripped of `gone` and that key. */
  lemma MinusOneMore<K, V>(m: map<K, V>, gone: set<K>, k: K)
    ensures (m - gone) - {k} == m - (gone + {k})
    ensures k !in m - gone ==> m - gone == m - (gone + {k})
  {
  }
}
