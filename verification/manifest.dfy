/** The index manifest (backend/main/utils/manifest_helper.py): a JSON object mapping each
    S3 key to the metadata recorded when that key was last indexed. Every operation loads
    the whole file, changes the loaded dictionary in place and writes it back wholesale.

    A Python dict keeps its keys in insertion order, and `prune_manifest` reports stale keys
    in that order, so the loaded dictionary is modelled as `Dict`: the key order plus the
    mapping. */
module Manifest {
  import opened Wrappers
  import opened Seqs

  /** One manifest record, as `update_manifest_entry` writes it. */
  datatype Entry = Entry(
    hash: string,
    indexedAt: string,
    chunkCount: int,
    embeddingCount: int,
    size: Option<int>,
    source: string)

  /** A dictionary from key to entry, with its insertion order. */
  datatype Dict = Dict(keys: seq<string>, entries: map<string, Entry>)

  predicate Distinct(s: seq<string>) {
    forall i, j :: 0 <= i < j < |s| ==> s[i] != s[j]
  }

  /** The key order lists each key of the mapping exactly once. */
  ghost predicate Wf(d: Dict) {
    Distinct(d.keys) && (forall k :: k in d.entries <==> k in d.keys)
  }

  function EmptyDict(): (d: Dict)
    ensures Wf(d) && d.entries == map[]
  {
    Dict([], map[])
  }

  /** `s` without any occurrence of `k`, order kept. */
  function Without(s: seq<string>, k: string): (r: seq<string>)
    ensures forall x :: x in r <==> x in s && x != k
    ensures Distinct(s) ==> Distinct(r)
  {
    if s == [] then []
    else
      var rest := Without(s[1..], k);
      assert Distinct(s) ==> s[0] !in s[1..];
      (if s[0] == k then [] else [s[0]]) + rest
  }

  /** `d[k] = e`: an existing key keeps its place, a new key goes last. */
  function Put(d: Dict, k: string, e: Entry): (r: Dict)
    requires Wf(d)
    ensures Wf(r)
    ensures r.entries == d.entries[k := e]
  {
    if k in d.entries then Dict(d.keys, d.entries[k := e]) else Dict(d.keys + [k], d.entries[k := e])
  }

  /** `d.pop(k, None)`: removes `k` if present, and is a no-op otherwise. */
  function Pop(d: Dict, k: string): (r: Dict)
    requires Wf(d)
    ensures Wf(r)
    ensures r.entries == d.entries - {k}
  {
    Dict(Without(d.keys, k), d.entries - {k})
  }

  /** The dictionary after `for k in ks: d.pop(k, None)`. */
  function PopAll(d: Dict, ks: seq<string>): (r: Dict)
    requires Wf(d)
    ensures Wf(r)
  {
    if ks == [] then d else Pop(PopAll(d, ks[..|ks| - 1]), ks[|ks| - 1])
  }

  /** `[k for k in keys if k not in current]` */
  function KeysNotIn(keys: seq<string>, current: seq<string>): (r: seq<string>)
  {
    if keys == [] then []
    else (if keys[0] in current then [] else [keys[0]]) + KeysNotIn(keys[1..], current)
  }

  /** The keys `prune_manifest` reports as stale: the manifest's keys absent from the
      listing, in manifest order. */
  function StaleKeys(d: Dict, current: seq<string>): seq<string> {
    KeysNotIn(d.keys, current)
  }

  /** `t` is obtained from `s` by deleting elements. */
  predicate IsSubsequence(t: seq<string>, s: seq<string>) {
    if t == [] then true
    else if s == [] then false
    else (t[0] == s[0] && IsSubsequence(t[1..], s[1..])) || IsSubsequence(t, s[1..])
  }

  // ---------------------------------------------------------------------------------
  // Properties of the dictionary operations

  /** After `d[k] = e`, `k` maps to `e` and every other key keeps its entry. */
  lemma PutSetsOnlyKey(d: Dict, k: string, e: Entry, other: string)
    requires Wf(d)
    ensures k in Put(d, k, e).entries && Put(d, k, e).entries[k] == e
    ensures other != k ==> (other in Put(d, k, e).entries <==> other in d.entries)
    ensures other != k && other in d.entries ==> Put(d, k, e).entries[other] == d.entries[other]
  {
  }

  /** A second write of the same key overwrites the first: last write wins. */
  lemma PutTwiceLastWins(d: Dict, k: string, e1: Entry, e2: Entry)
    requires Wf(d)
    ensures Put(Put(d, k, e1), k, e2) == Put(d, k, e2)
  {
  }

  /** Popping a list of keys removes exactly those keys; absent keys are ignored and the
      survivors keep their entries and their relative order. */
  lemma {:induction false} PopAllRemovesExactly(d: Dict, ks: seq<string>)
    requires Wf(d)
    ensures forall k :: k in PopAll(d, ks).entries <==> k in d.entries && k !in ks
    ensures forall k :: k in PopAll(d, ks).entries ==> PopAll(d, ks).entries[k] == d.entries[k]
    ensures forall k :: k in PopAll(d, ks).keys <==> k in d.keys && k !in ks
  {
    if ks != [] {
      var init, last := ks[..|ks| - 1], ks[|ks| - 1];
      PopAllRemovesExactly(d, init);
      assert ks == init + [last];
      assert forall k :: k in ks <==> k in init || k == last;
    }
  }

  lemma {:induction false} KeysNotInSpec(keys: seq<string>, current: seq<string>)
    ensures forall k :: k in KeysNotIn(keys, current) <==> k in keys && k !in current
    ensures IsSubsequence(KeysNotIn(keys, current), keys)
  {
    if keys != [] {
      KeysNotInSpec(keys[1..], current);
      var rest := KeysNotIn(keys[1..], current);
      if keys[0] !in current {
        assert KeysNotIn(keys, current) == [keys[0]] + rest;
        assert ([keys[0]] + rest)[1..] == rest;
      } else {
        assert KeysNotIn(keys, current) == rest;
      }
    }
  }

  /** The stale keys are exactly the manifest keys missing from the listing, in manifest
      order; after popping them every remaining key is listed and every kept entry is the
      one the manifest held. */
  lemma PruneSpec(d: Dict, current: seq<string>)
    requires Wf(d)
    ensures forall k :: k in StaleKeys(d, current) <==> k in d.entries && k !in current
    ensures IsSubsequence(StaleKeys(d, current), d.keys)
    ensures forall k :: k in PopAll(d, StaleKeys(d, current)).entries ==> k in current
    ensures forall k :: k in d.entries && k in current ==>
      k in PopAll(d, StaleKeys(d, current)).entries && PopAll(d, StaleKeys(d, current)).entries[k] == d.entries[k]
  {
    KeysNotInSpec(d.keys, current);
    PopAllRemovesExactly(d, StaleKeys(d, current));
  }

  // ---------------------------------------------------------------------------------
  // The manifest file

  /** The persisted manifest file `CACHE_DIR/index_manifest.json`: whether it exists,
      whether it parses as JSON, and the dictionary it holds when it does. */
  class ManifestFile {
    var present: bool
    var parses: bool
    var stored: Dict

    ghost predicate Valid()
      reads this
    {
      Wf(stored)
    }

    /** What `load_index_manifest` returns for the current file. */
    function Loaded(): (d: Dict)
      reads this
      requires Valid()
      ensures Wf(d)
    {
      if present && parses then stored else EmptyDict()
    }

    constructor Missing()
      ensures Valid() && !present && Loaded() == EmptyDict()
    {
      present, parses, stored := false, false, EmptyDict();
    }

    /** `load_index_manifest`: a missing file, or one that fails to parse, loads as the
        empty dictionary instead of raising. */
    method Load() returns (d: Dict)
      requires Valid()
      ensures Wf(d)
      ensures !present ==> d == EmptyDict()
      ensures present && !parses ==> d == EmptyDict()
      ensures present && parses ==> d == stored
    {
      if present && parses {
        d := stored;
      } else {
        d := EmptyDict();
      }
    }

    /** `save_index_manifest`: rewrites the whole file with `d`. */
    method Save(d: Dict)
      requires Wf(d)
      modifies this
      ensures Valid() && present && parses && stored == d
    {
      present, parses, stored := true, true, d;
    }

    /** `update_manifest_entry`: load, set the key's entry, save. */
    method UpdateEntry(key: string, hash: string, chunkCount: int, embeddingCount: int,
                       size: Option<int>, source: string, now: string)
      requires Valid()
      modifies this
      ensures Valid() && present && parses
      ensures stored == Put(old(Loaded()), key, Entry(hash, now, chunkCount, embeddingCount, size, source))
    {
      var manifest := Load();
      manifest := Put(manifest, key, Entry(hash, now, chunkCount, embeddingCount, size, source));
      Save(manifest);
    }

    /** `remove_from_manifest`: load, pop every listed key, save. */
    method RemoveKeys(filesToRemove: seq<string>)
      requires Valid()
      modifies this
      ensures Valid() && present && parses
      ensures stored == PopAll(old(Loaded()), filesToRemove)
      ensures forall k :: k in stored.entries <==> k in old(Loaded()).entries && k !in filesToRemove
      ensures forall k :: k in stored.entries ==> stored.entries[k] == old(Loaded()).entries[k]
    {
      var manifest := Load();
      ghost var loaded := manifest;
      for i := 0 to |filesToRemove|
        invariant Wf(manifest)
        invariant manifest == PopAll(loaded, filesToRemove[..i])
      {
        assert filesToRemove[..i + 1][..i] == filesToRemove[..i];
        manifest := Pop(manifest, filesToRemove[i]);
      }
      assert filesToRemove[..|filesToRemove|] == filesToRemove;
      Save(manifest);
      PopAllRemovesExactly(loaded, filesToRemove);
    }

    /** `prune_manifest`: pops every key absent from `currentKeys` and returns the pruned
        dictionary together with the stale keys. The file is rewritten only when some key
        was stale. */
    method Prune(currentKeys: seq<string>) returns (manifest: Dict, staleKeys: seq<string>)
      requires Valid()
      modifies this
      ensures Valid() && Wf(manifest)
      ensures staleKeys == StaleKeys(old(Loaded()), currentKeys)
      ensures manifest == PopAll(old(Loaded()), staleKeys)
      ensures staleKeys == [] ==> manifest == old(Loaded()) && unchanged(this)
      ensures staleKeys != [] ==> present && parses && stored == manifest
    {
      manifest := Load();
      ghost var loaded := manifest;
      staleKeys := KeysNotIn(manifest.keys, currentKeys);
      if staleKeys != [] {
        for i := 0 to |staleKeys|
          invariant Wf(manifest)
          invariant manifest == PopAll(loaded, staleKeys[..i])
        {
          PrefixOfPrefix(staleKeys, i + 1, i);
          manifest := Pop(manifest, staleKeys[i]);
        }
        PrefixOfPrefix(staleKeys, |staleKeys|, 0);
        Save(manifest);
      }
    }
  }
}
