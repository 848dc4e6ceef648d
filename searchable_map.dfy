/**
 * The searchable map of the stock service (utils/SearchableMap.java): a map from keys to values
 * kept beside a Kotlin trie (see Tapestrie) that maps every search term of a value to the set of
 * keys whose values have that term. The terms of a value come from a function given at
 * construction; the search looks the query up in the trie and maps the keys it finds back to
 * their values.
 */
module SearchableMaps {
  import opened Wrappers
  import Tapestrie
  import LegacyTries
  import FuzzySearch
  import TrieSearchResults
  import FuzzySearcher
  import Sorting

  /** The trie's contents: for each search term, the keys whose values have it. */
  type Index<K> = map<string, set<K>>

  type Found<K> = seq<TrieSearchResults.TrieSearchResult<set<K>>>

  // ---------------------------------------------------------------------------------------------
  // The index as a function of the terms

  /** What `removeIndex` makes of the index: each term removed from the trie in turn. */
  ghost function Unindexed<K>(index: Index<K>, terms: seq<string>): Index<K>
    decreases |terms|
  {
    if terms == [] then index
    else LegacyTries.RemoveContents(Unindexed(index, terms[..|terms| - 1]), terms[|terms| - 1])
  }

  /** `key` merged into the key set of `term`, which starts empty when `term` is not indexed. */
  ghost function WithKey<K>(index: Index<K>, term: string, key: K): Index<K> {
    index[term := (if term in index then index[term] else {}) + {key}]
  }

  /** What `addIndex` makes of the index when every term is accepted. */
  ghost function Indexed<K>(index: Index<K>, terms: seq<string>, key: K): Index<K>
    decreases |terms|
  {
    if terms == [] then index
    else WithKey(Indexed(index, terms[..|terms| - 1], key), terms[|terms| - 1], key)
  }

  /** The position of the first empty term, where `addIndex` stops; |terms| when there is none. */
  function FirstEmpty(terms: seq<string>): (n: nat)
    ensures n <= |terms|
    ensures forall j | 0 <= j < n :: terms[j] != []
    ensures n < |terms| ==> terms[n] == []
  {
    if terms == [] || terms[0] == [] then 0 else 1 + FirstEmpty(terms[1..])
  }

  /** Up to the first empty term, an empty term is the first one and a non-empty one comes before it. */
  lemma StopsAtFirstEmpty(terms: seq<string>, i: int)
    requires 0 <= i <= FirstEmpty(terms) && i < |terms|
    ensures terms[i] == [] ==> i == FirstEmpty(terms)
    ensures terms[i] != [] ==> i < FirstEmpty(terms)
  {
  }

  /** Every key in the index is a key of `entries`. */
  ghost predicate KeysKnown<K, V>(index: Index<K>, entries: map<K, V>) {
    forall t | t in index :: index[t] <= entries.Keys
  }

  /**
   * Indexing the terms of a value under `key`: every term then holds `key`, the keys already there
   * stay (the new key is merged into them), and nothing else is added.
   */
  lemma {:induction false} IndexedMerges<K>(index: Index<K>, terms: seq<string>, key: K)
    ensures var r := Indexed(index, terms, key);
            && (forall t | t in terms :: t in r && key in r[t])
            && (forall t | t in index :: t in r && index[t] <= r[t])
            && (forall t | t in r :: (t in index || t in terms) && r[t] <= (if t in index then index[t] else {}) + {key})
    decreases |terms|
  {
    if terms != [] {
      var front := terms[..|terms| - 1];
      IndexedMerges(index, front, key);
      assert forall t | t in terms :: t in front || t == terms[|terms| - 1];
    }
  }

  /**
   * Removing the terms of a value: every one of them is gone afterwards, the survivors keep their
   * key sets, and every indexed term that extends none of them survives.
   */
  lemma {:induction false} UnindexedDrops<K>(index: Index<K>, terms: seq<string>)
    ensures var r := Unindexed(index, terms);
            && (forall t | t in terms :: t !in r)
            && (forall t | t in r :: t in index && r[t] == index[t])
            && (forall t | t in index && (forall u | u in terms :: !(u <= t)) :: t in r)
    decreases |terms|
  {
    if terms != [] {
      var front, last := terms[..|terms| - 1], terms[|terms| - 1];
      UnindexedDrops(index, front);
      var before := Unindexed(index, front);
      var r := LegacyTries.RemoveContents(before, last);
      if last in before {
        assert forall t | t in r :: t in before && r[t] == before[t] && !(last <= t);
        assert last !in r by {
          assert last <= last;
        }
      } else {
        assert r == before;
      }
      assert forall t | t in terms :: t in front || t == last;
      forall t | t in index && (forall u | u in terms :: !(u <= t))
        ensures t in r
      {
        assert forall u | u in front :: u in terms;
        assert last in terms;
      }
    }
  }

  /** Removing one more term. */
  lemma UnindexedStep<K>(index: Index<K>, terms: seq<string>, i: int)
    requires 0 <= i < |terms|
    ensures Unindexed(index, terms[..i + 1]) == LegacyTries.RemoveContents(Unindexed(index, terms[..i]), terms[i])
  {
    assert terms[..i + 1][..i] == terms[..i];
  }

  /** Indexing one more term. */
  lemma IndexedStep<K>(index: Index<K>, terms: seq<string>, key: K, i: int)
    requires 0 <= i < |terms|
    ensures Indexed(index, terms[..i + 1], key) == WithKey(Indexed(index, terms[..i], key), terms[i], key)
  {
    assert terms[..i + 1][..i] == terms[..i];
  }

  /** Removing terms keeps every indexed key known. */
  lemma UnindexedKnown<K, V>(index: Index<K>, entries: map<K, V>, terms: seq<string>)
    requires KeysKnown(index, entries)
    ensures KeysKnown(Unindexed(index, terms), entries)
  {
    UnindexedDrops(index, terms);
  }

  /** Indexing under a known key keeps every indexed key known. */
  lemma IndexedKnown<K, V>(index: Index<K>, entries: map<K, V>, terms: seq<string>, key: K)
    requires KeysKnown(index, entries) && key in entries
    ensures KeysKnown(Indexed(index, terms, key), entries)
  {
    IndexedMerges(index, terms, key);
  }

  /** A term not indexed yet gets a key set holding just `key`. */
  lemma WithKeyNew<K>(index: Index<K>, term: string, key: K)
    requires term !in index
    ensures WithKey(index, term, key) == index[term := {key}]
  {
    var none: set<K> := {};
    assert none + {key} == {key};
  }

  /** Indexing two terms is indexing one and then the other. */
  lemma IndexedTwo<K>(index: Index<K>, a: string, b: string, key: K)
    ensures Indexed(index, [a], key) == WithKey(index, a, key)
    ensures Indexed(index, [a, b], key) == WithKey(WithKey(index, a, key), b, key)
  {
    assert [a, b][..1] == [a] && [a][..0] == [];
  }

  /** Removing two terms is removing one and then the other. */
  lemma UnindexedTwo<K>(index: Index<K>, a: string, b: string)
    ensures Unindexed(index, [a]) == LegacyTries.RemoveContents(index, a)
    ensures Unindexed(index, [a, b]) == LegacyTries.RemoveContents(LegacyTries.RemoveContents(index, a), b)
  {
    assert [a, b][..1] == [a] && [a][..0] == [];
  }

  /** put(1, ["abc", "ghi"]) on an empty index, then the removal of those terms by the next put of 1. */
  lemma FirstValueReplaced()
    ensures Indexed(map[], ["abc", "ghi"], 1) == map["abc" := {1}, "ghi" := {1}]
    ensures Unindexed(map["abc" := {1}, "ghi" := {1}], ["abc", "ghi"]) == map[]
  {
    var abc, ghi := "abc", "ghi";
    assert abc[0] != ghi[0];
    var empty: Index<int> := map[];
    IndexedTwo(empty, abc, ghi, 1);
    WithKeyNew(empty, abc, 1);
    WithKeyNew(map[abc := {1}], ghi, 1);
    var first := map[abc := {1}, ghi := {1}];
    UnindexedTwo(first, abc, ghi);
    var mid := LegacyTries.RemoveContents(first, abc);
    assert mid == map[ghi := {1}] by {
      assert abc <= abc && !(abc <= ghi);
      assert forall t | t in mid :: t == ghi;
    }
    assert LegacyTries.RemoveContents(mid, ghi) == map[] by {
      assert ghi <= ghi;
    }
  }

  /** put(1, ["abc", "mno"]) and then put(2, ["abz", "abc"]) on an empty index. */
  lemma SecondAndThirdValues()
    ensures Indexed(Indexed(map[], ["abc", "mno"], 1), ["abz", "abc"], 2)
         == map["abc" := {1, 2}, "mno" := {1}, "abz" := {2}]
  {
    var abc, mno, abz := "abc", "mno", "abz";
    assert abc[0] != mno[0] && abc[2] != abz[2] && mno[0] != abz[0];
    var empty: Index<int> := map[];
    IndexedTwo(empty, abc, mno, 1);
    WithKeyNew(empty, abc, 1);
    WithKeyNew(map[abc := {1}], mno, 1);
    var second := map[abc := {1}, mno := {1}];
    IndexedTwo(second, abz, abc, 2);
    WithKeyNew(second, abz, 2);
    var third := map[abc := {1}, mno := {1}, abz := {2}];
    assert WithKey(third, abc, 2) == map[abc := {1, 2}, mno := {1}, abz := {2}] by {
      assert third[abc] + {2} == {1, 2};
    }
  }

  /**
   * The index as SearchableMapTest builds it: put(1, ["abc", "ghi"]), then put(1, ["abc", "mno"])
   * and put(2, ["abz", "abc"]). The terms of the replaced value are gone and "abc" holds both keys.
   */
  lemma RepeatedPuts()
    ensures var first := Indexed(map[], ["abc", "ghi"], 1);
            var second := Indexed(Unindexed(first, ["abc", "ghi"]), ["abc", "mno"], 1);
            Indexed(second, ["abz", "abc"], 2) == map["abc" := {1, 2}, "mno" := {1}, "abz" := {2}]
  {
    FirstValueReplaced();
    SecondAndThirdValues();
  }

  // ---------------------------------------------------------------------------------------------
  // Re-putting a key removes the terms of its old value for every key

  /** Every key of `entries` is indexed under every term of its value. */
  ghost predicate Covered<K, V>(index: Index<K>, entries: map<K, V>, extract: V -> seq<string>) {
    forall k, t | k in entries && t in extract(entries[k]) :: t in index && k in index[t]
  }

  /** A value that is its own list of terms. */
  function Terms(v: seq<string>): seq<string> {
    v
  }

  /** Indexing 1 and then 2 under single terms, on an empty index. */
  lemma TwoKeys(a: string, b: string)
    ensures Indexed(Indexed(map[], [a], 1), [b], 2) == WithKey(map[a := {1}], b, 2)
  {
    var empty: Index<int> := map[];
    IndexedTwo(empty, a, a, 1);
    WithKeyNew(empty, a, 1);
    IndexedTwo(map[a := {1}], b, b, 2);
  }

  /** Indexing 1 alone under "xyz". */
  lemma XyzAlone()
    ensures Indexed(map[], ["xyz"], 1) == map["xyz" := {1}]
  {
    var empty: Index<int> := map[];
    IndexedTwo(empty, "xyz", "xyz", 1);
    WithKeyNew(empty, "xyz", 1);
  }

  /** Key 2 under "abc" is not covered by an index holding only "xyz". */
  lemma LostAbc(entries: map<int, seq<string>>)
    requires 2 in entries && entries[2] == ["abc"]
    ensures !Covered(map["xyz" := {1}], entries, Terms)
  {
    var abc, xyz := "abc", "xyz";
    var index: Index<int> := map[xyz := {1}];
    assert abc !in index by {
      assert abc[0] != xyz[0];
    }
    assert abc in Terms(entries[2]);
  }

  /** 1 and 2 both under "abc": removing "abc" leaves nothing. */
  lemma SharedTerm()
    ensures Indexed(Indexed(map[], ["abc"], 1), ["abc"], 2) == map["abc" := {1, 2}]
    ensures Unindexed(map["abc" := {1, 2}], ["abc"]) == map[]
  {
    var abc := "abc";
    TwoKeys(abc, abc);
    var shared := map[abc := {1, 2}];
    assert WithKey(map[abc := {1}], abc, 2) == shared by {
      assert map[abc := {1}][abc] + {2} == {1, 2};
    }
    UnindexedTwo(shared, abc, abc);
    assert LegacyTries.RemoveContents(shared, abc) == map[] by {
      assert abc <= abc;
    }
  }

  /** 1 under "ab" and 2 under "abc": removing "ab" leaves nothing. */
  lemma ExtendedTerm()
    ensures Indexed(Indexed(map[], ["ab"], 1), ["abc"], 2) == map["ab" := {1}, "abc" := {2}]
    ensures Unindexed(map["ab" := {1}, "abc" := {2}], ["ab"]) == map[]
  {
    var ab, abc := "ab", "abc";
    assert |ab| != |abc|;
    TwoKeys(ab, abc);
    WithKeyNew(map[ab := {1}], abc, 2);
    var extended := map[ab := {1}, abc := {2}];
    UnindexedTwo(extended, ab, ab);
    var gone := LegacyTries.RemoveContents(extended, ab);
    assert gone == map[] by {
      assert ab <= ab && ab <= abc;
      assert forall t | t in gone :: false;
    }
  }

  /**
   * As written, `put` removes the old value's terms from the trie outright: with 1 and 2 both
   * indexed under "abc", putting a new value for 1 leaves 2 unreachable by "abc".
   */
  lemma RemoveIndexDropsOtherKeys()
    ensures var before := Indexed(Indexed(map[], ["abc"], 1), ["abc"], 2);
            && Covered(before, map[1 := ["abc"], 2 := ["abc"]], Terms)
            && !Covered(Indexed(Unindexed(before, ["abc"]), ["xyz"], 1), map[1 := ["xyz"], 2 := ["abc"]], Terms)
  {
    SharedTerm();
    XyzAlone();
    LostAbc(map[1 := ["xyz"], 2 := ["abc"]]);
  }

  /**
   * The same happens to a term that merely extends an old one: with 1 under "ab" and 2 under
   * "abc", re-putting 1 drops "abc" as well.
   */
  lemma RemoveIndexDropsExtensions()
    ensures var before := Indexed(Indexed(map[], ["ab"], 1), ["abc"], 2);
            && Covered(before, map[1 := ["ab"], 2 := ["abc"]], Terms)
            && !Covered(Indexed(Unindexed(before, ["ab"]), ["xyz"], 1), map[1 := ["xyz"], 2 := ["abc"]], Terms)
  {
    ExtendedTerm();
    XyzAlone();
    LostAbc(map[1 := ["xyz"], 2 := ["abc"]]);
  }

  /** The evident intent: each term of the old value loses only `key`, and stays in the trie. */
  ghost function UnindexKey<K>(index: Index<K>, terms: seq<string>, key: K): Index<K>
    decreases |terms|
  {
    if terms == [] then index
    else
      var rest := UnindexKey(index, terms[..|terms| - 1], key);
      var t := terms[|terms| - 1];
      if t in rest then rest[t := rest[t] - {key}] else rest
  }

  /** Removing `key` from some key sets keeps every term, and every other key, where it was. */
  lemma {:induction false} UnindexKeyKeeps<K>(index: Index<K>, terms: seq<string>, key: K)
    ensures var r := UnindexKey(index, terms, key);
            && r.Keys == index.Keys
            && forall t | t in index :: index[t] - {key} <= r[t] <= index[t]
    decreases |terms|
  {
    if terms != [] {
      UnindexKeyKeeps(index, terms[..|terms| - 1], key);
    }
  }

  /**
   * With the corrected removal, putting `value` under `key` keeps every key of the map indexed
   * under every term of its value.
   */
  lemma ReindexKeepsCovered<K, V>(index: Index<K>, entries: map<K, V>, extract: V -> seq<string>, key: K, value: V)
    requires Covered(index, entries, extract)
    ensures var removed := if key in entries then UnindexKey(index, extract(entries[key]), key) else index;
            Covered(Indexed(removed, extract(value), key), entries[key := value], extract)
  {
    var removed := if key in entries then UnindexKey(index, extract(entries[key]), key) else index;
    if key in entries {
      UnindexKeyKeeps(index, extract(entries[key]), key);
    }
    IndexedMerges(removed, extract(value), key);
    var entries' := entries[key := value];
    var r := Indexed(removed, extract(value), key);
    forall k, t | k in entries' && t in extract(entries'[k])
      ensures t in r && k in r[t]
    {
      if k != key {
        assert t in index && k in index[t];
        assert k in removed[t];
      }
    }
  }

  // ---------------------------------------------------------------------------------------------
  // Flattening the key sets of a search

  /** The union of `sets`. */
  ghost function Union<K>(sets: seq<set<K>>): (u: set<K>)
    ensures forall j | 0 <= j < |sets| :: sets[j] <= u
    ensures forall k | k in u :: exists j | 0 <= j < |sets| :: k in sets[j]
    decreases |sets|
  {
    if sets == [] then {}
    else
      var front := sets[..|sets| - 1];
      assert forall j | 0 <= j < |front| :: front[j] == sets[j];
      Union(front) + sets[|sets| - 1]
  }

  /** The first of `sets` that holds `k`. */
  ghost function FirstSet<K>(sets: seq<set<K>>, k: K): (i: nat)
    requires k in Union(sets)
    ensures i < |sets| && k in sets[i]
    ensures forall j | 0 <= j < i :: k !in sets[j]
  {
    var n := |sets| - 1;
    var front := sets[..n];
    assert forall j | 0 <= j < n :: front[j] == sets[j];
    if k in Union(front) then FirstSet(front, k) else n
  }

  /** A key in `sets[i]` and in none before it first appears in `sets[i]`. */
  lemma FirstSetAt<K>(sets: seq<set<K>>, i: int, k: K)
    requires 0 <= i < |sets| && k in sets[i] && forall j | 0 <= j < i :: k !in sets[j]
    ensures k in Union(sets) && FirstSet(sets, k) == i
  {
  }

  /** The union of the first `i + 1` sets is that of the first `i` and the next one. */
  lemma UnionStep<K>(sets: seq<set<K>>, i: int)
    requires 0 <= i < |sets|
    ensures Union(sets[..i + 1]) == Union(sets[..i]) + sets[i]
  {
    assert sets[..i + 1][..i] == sets[..i];
  }

  /** The key sets of the results, in order. */
  function KeySets<K>(found: Found<K>): (sets: seq<set<K>>)
    ensures |sets| == |found| && forall i | 0 <= i < |found| :: sets[i] == found[i].value
  {
    seq(|found|, i requires 0 <= i < |found| => found[i].value)
  }

  /** The keys listed after the keys in order of the first set holding each. */
  ghost predicate InFirstOrder<K>(sets: seq<set<K>>, keys: seq<K>) {
    && (forall x | 0 <= x < |keys| :: keys[x] in Union(sets))
    && (forall a, b | 0 <= a < b < |keys| :: FirstSet(sets, keys[a]) <= FirstSet(sets, keys[b]))
  }

  /**
   * `.flatMap(Collection::stream).distinct()`: every key of every set once, keys of earlier sets
   * before keys of later ones (each key where its first set puts it). A set is a hash set, so the
   * keys of one set come in no particular order.
   */
  method FlattenDistinct<K(==)>(sets: seq<set<K>>) returns (keys: seq<K>)
    ensures forall a, b | 0 <= a < b < |keys| :: keys[a] != keys[b]
    ensures forall k :: k in keys <==> k in Union(sets)
    ensures InFirstOrder(sets, keys)
  {
    keys := [];
    for i := 0 to |sets|
      invariant Listed(sets, keys, Union(sets[..i]), i)
    {
      keys := AppendNew(sets, i, keys);
    }
    assert sets[..|sets|] == sets;
  }

  /**
   * `keys` are pairwise different, are exactly `seen`, come in first-set order, and each first
   * appears in one of the sets before `bound`.
   */
  ghost predicate Listed<K>(sets: seq<set<K>>, keys: seq<K>, seen: set<K>, bound: int) {
    && (forall a, b | 0 <= a < b < |keys| :: keys[a] != keys[b])
    && (forall x | 0 <= x < |keys| :: keys[x] in seen)
    && (forall k | k in seen :: k in keys)
    && InFirstOrder(sets, keys)
    && (forall x | 0 <= x < |keys| :: FirstSet(sets, keys[x]) < bound)
  }

  /** The keys of `sets[i]` not listed yet, appended in the set's own order. */
  method AppendNew<K(==)>(sets: seq<set<K>>, i: int, keys0: seq<K>) returns (keys: seq<K>)
    requires 0 <= i < |sets| && Listed(sets, keys0, Union(sets[..i]), i)
    ensures Listed(sets, keys, Union(sets[..i + 1]), i + 1)
  {
    UnionStep(sets, i);
    keys := keys0;
    var rest := sets[i];
    while rest != {}
      invariant rest <= sets[i]
      invariant Listed(sets, keys, Union(sets[..i]) + (sets[i] - rest), i + 1)
      decreases |rest|
    {
      var k :| k in rest;
      if k !in keys {
        AppendOne(sets, i, keys, Union(sets[..i]) + (sets[i] - rest), k);
        keys := keys + [k];
      }
      rest := rest - {k};
    }
  }

  /** A key of `sets[i]` seen in none of the sets before it is listed next. */
  lemma AppendOne<K>(sets: seq<set<K>>, i: int, keys: seq<K>, seen: set<K>, k: K)
    requires 0 <= i < |sets| && Listed(sets, keys, seen, i + 1)
    requires k in sets[i] && k !in Union(sets[..i]) && k !in keys
    ensures Listed(sets, keys + [k], seen + {k}, i + 1)
  {
    assert forall j | 0 <= j < i :: sets[..i][j] == sets[j];
    FirstSetAt(sets, i, k);
  }

  /** `.map(map::get)`: the value of each key, in order. */
  function ValuesOf<K, V>(entries: map<K, V>, keys: seq<K>): (vs: seq<V>)
    requires forall k | k in keys :: k in entries
    ensures |vs| == |keys| && forall i | 0 <= i < |keys| :: vs[i] == entries[keys[i]]
  {
    seq(|keys|, i requires 0 <= i < |keys| => entries[keys[i]])
  }

  /** The keys found in an index whose keys are all known have values. */
  lemma FoundKeysKnown<K, V>(index: Index<K>, entries: map<K, V>, found: Found<K>, keys: seq<K>)
    requires KeysKnown(index, entries)
    requires forall e | e in found :: e.str in index && e.value == index[e.str]
    requires forall k | k in keys :: k in Union(KeySets(found))
    ensures forall k | k in keys :: k in entries
  {
    forall k | k in keys
      ensures k in entries
    {
      var j :| 0 <= j < |found| && k in KeySets(found)[j];
      assert found[j] in found;
    }
  }

  // ---------------------------------------------------------------------------------------------
  // The map

  class SearchableMap<K(==,!new), V(!new)> {
    var entries: map<K, V>
    const trie: Tapestrie.Trie<set<K>>
    const searchTermsExtractor: V -> seq<string>

    /** The trie is valid and every key it holds has a value in the map. */
    ghost predicate Valid()
      reads this, trie
    {
      trie.Valid() && KeysKnown(trie.Contents, entries)
    }

    /** `new SearchableMap<>(searchTermsExtractor)`: no entries and an empty trie. */
    constructor (searchTermsExtractor: V -> seq<string>)
      ensures Valid() && fresh(trie)
      ensures entries == map[] && trie.Contents == map[] && this.searchTermsExtractor == searchTermsExtractor
    {
      entries := map[];
      trie := new Tapestrie.Trie<set<K>>();
      this.searchTermsExtractor := searchTermsExtractor;
    }

    /**
     * `put(key, value)`: `key` maps to `value`, every other key keeps its value; the terms of the
     * previous value of `key` are removed from the trie outright, and `key` is added to the key set
     * of every term of `value`. An empty term stops the indexing with IllegalArgument, the terms
     * before it indexed already.
     */
    method Put(key: K, value: V) returns (r: Result<()>)
      requires Valid()
      modifies this, trie
      ensures Valid()
      ensures entries == old(entries)[key := value]
      ensures var terms := searchTermsExtractor(value);
              var removed := if key in old(entries) then Unindexed(old(trie.Contents), searchTermsExtractor(old(entries)[key]))
                             else old(trie.Contents);
              && (r.Ok? <==> FirstEmpty(terms) == |terms|)
              && (r.Err? ==> r.error == IllegalArgument)
              && trie.Contents == Indexed(removed, terms[..FirstEmpty(terms)], key)
    {
      var previousValue := if key in entries then Some(entries[key]) else None;
      entries := entries[key := value];
      RemoveIndex(previousValue);
      r := AddIndex(value, key);
    }

    /** `get(key)`: the value of `key`, or None when it has none. */
    method Get(key: K) returns (r: Option<V>)
      ensures r.Some? <==> key in entries
      ensures r.Some? ==> r.value == entries[key]
    {
      r := if key in entries then Some(entries[key]) else None;
    }

    /** `removeIndex(value)`: removes every term of `value` from the trie; nothing for no value. */
    method RemoveIndex(value: Option<V>)
      requires trie.Valid() && KeysKnown(trie.Contents, entries)
      modifies trie
      ensures trie.Valid() && KeysKnown(trie.Contents, entries)
      ensures value.None? ==> trie.Contents == old(trie.Contents)
      ensures value.Some? ==> trie.Contents == Unindexed(old(trie.Contents), searchTermsExtractor(value.value))
    {
      if value.None? {
        return;
      }
      var terms := searchTermsExtractor(value.value);
      ghost var index0 := trie.Contents;
      for i := 0 to |terms|
        invariant trie.Valid()
        invariant trie.Contents == Unindexed(index0, terms[..i])
      {
        var _ := trie.Remove(terms[i]);
        UnindexedStep(index0, terms, i);
      }
      assert terms[..|terms|] == terms;
      UnindexedKnown(index0, entries, terms);
    }

    /**
     * `addIndex(value, key)`: indexes `key` under each term of `value` in turn. The trie refuses
     * an empty term with IllegalArgument, which ends the indexing there.
     */
    method AddIndex(value: V, key: K) returns (r: Result<()>)
      requires trie.Valid() && KeysKnown(trie.Contents, entries) && key in entries
      modifies trie
      ensures trie.Valid() && KeysKnown(trie.Contents, entries)
      ensures var terms := searchTermsExtractor(value);
              && (r.Ok? <==> FirstEmpty(terms) == |terms|)
              && (r.Err? ==> r.error == IllegalArgument)
              && trie.Contents == Indexed(old(trie.Contents), terms[..FirstEmpty(terms)], key)
    {
      var terms := searchTermsExtractor(value);
      ghost var index0 := trie.Contents;
      ghost var n := FirstEmpty(terms);
      for i := 0 to |terms|
        invariant i <= n
        invariant trie.Valid()
        invariant trie.Contents == Indexed(index0, terms[..i], key)
      {
        r := IndexTerm(terms[i], key);
        StopsAtFirstEmpty(terms, i);
        if r.Err? {
          IndexedKnown(index0, entries, terms[..i], key);
          return;
        }
        IndexedStep(index0, terms, key, i);
      }
      assert terms[..|terms|] == terms;
      IndexedKnown(index0, entries, terms, key);
      r := Ok(());
    }

    /**
     * The body of the loop of `addIndex`: the key set stored under `term` (empty when `term` is
     * not indexed) with `key` added is put back under `term`; the trie refuses an empty term.
     */
    method IndexTerm(term: string, key: K) returns (r: Result<()>)
      requires trie.Valid()
      modifies trie
      ensures trie.Valid()
      ensures term == [] ==> r == Err(IllegalArgument) && trie.Contents == old(trie.Contents)
      ensures term != [] ==> r == Ok(()) && trie.Contents == WithKey(old(trie.Contents), term, key)
    {
      var existing := trie.GetExactly(term);
      var newKeys := if existing.Some? then existing.value else {};
      newKeys := newKeys + {key};
      var put := trie.Put(term, newKeys);
      r := if put.Ok? then Ok(()) else Err(put.error);
    }

    /**
     * `searchBySubstringFuzzy(search, errorTolerance)`: the Liberal fuzzy search of the trie (an
     * IllegalArgument for arguments it refuses); the key sets of its results are flattened in
     * ranking order, each key kept at its first place, and each key is mapped to its value.
     */
    method SearchBySubstringFuzzy(search: string, errorTolerance: int)
      returns (r: Result<seq<V>>, ghost found: Found<K>, ghost keys: seq<K>)
      requires Valid()
      ensures r.Err? <==> search == [] || errorTolerance < 0 || errorTolerance > |search|
      ensures r.Err? ==> r.error == IllegalArgument
      ensures r.Ok? ==> && Sorting.Sorted(TrieSearchResults.CompareResults, found)
                        && Sorting.DistinctKeys(FuzzySearcher.StrOf, found)
                        && FuzzySearcher.BestOf(FuzzySearcher.ByString(found),
                             FuzzySearcher.Found(trie.graph,
                               FuzzySearcher.SearchSpace(trie.graph, trie.paths, search, errorTolerance, FuzzySearch.Liberal)))
                        && (forall e | e in found :: e.str in trie.Contents && e.value == trie.Contents[e.str]
                                                     && 0 <= e.numberOfErrors <= errorTolerance)
                        && (forall a, b | 0 <= a < b < |keys| :: keys[a] != keys[b])
                        && (forall k :: k in keys <==> k in Union(KeySets(found)))
                        && InFirstOrder(KeySets(found), keys)
                        && (forall k | k in keys :: k in entries)
                        && |r.value| == |keys|
                        && (forall i | 0 <= i < |keys| :: r.value[i] == entries[keys[i]])
    {
      var results := trie.MatchBySubstringFuzzy(search, errorTolerance, FuzzySearch.Liberal);
      if results.Err? {
        return Err(results.error), [], [];
      }
      found := results.value;
      var flat := FlattenDistinct(KeySets(results.value));
      keys := flat;
      FoundKeysKnown(trie.Contents, entries, found, keys);
      r := Ok(ValuesOf(entries, flat));
    }
  }
}
