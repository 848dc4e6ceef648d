/**
 * The trie of the stock service (stock/utils/Trie.java) as an object: a root node with an empty
 * string, and nodes whose child sets are updated in place by `put` and `remove`.
 *
 * The nodes live in the table `table` (see LegacyTries), `nextId` hands out references for new
 * nodes, and the ghost fields `paths` and `names` name every node by its path from the root and
 * back. The ghost field `Contents` is the map of stored terms the trie represents.
 */
module StockTrie {
  import opened Wrappers
  import opened LegacyTries
  import LegacySearch
  import Sorting

  type SearchResult<V> = LegacySearch.SearchResult<V>

  /** The terms of `contents` whose scan starts a match of `search`. */
  ghost function Found<V>(contents: map<string, V>, search: string, minLength: int): set<string>
    requires 1 <= minLength <= |search|
  {
    set t | t in contents && LegacySearch.ScanOf(search, minLength, t).Started?
  }

  /** A record of the search is the record of a stored term, made with its value. */
  ghost predicate Reports<V>(contents: map<string, V>, search: string, minLength: int, x: SearchResult<V>)
    requires 1 <= minLength <= |search|
  {
    && x.str in contents
    && LegacySearch.ScanOf(search, minLength, x.str).Started?
    && x == LegacySearch.ResultFor(search, minLength, x.str, contents[x.str])
  }

  /**
   * What the traversal finds in a tree, stated on the stored terms: the records are those of
   * stored terms, and their strings are exactly the terms whose scan starts.
   */
  lemma FoundStored<V>(g: Table<V>, ps: map<string, NodeId>, names: map<NodeId, string>, contents: map<string, V>,
                       search: string, minLength: int, matches: seq<SearchResult<V>>)
    requires Tree(g, ps, names) && Stores(g, ps, contents) && 1 <= minLength <= |search|
    requires forall x | x in matches :: LegacySearch.Correct(g, ps, search, minLength, x)
    requires LegacySearch.Strs(matches) == LegacySearch.Hits(TermsFrom(g, ps, ""), search, minLength)
    ensures forall x | x in matches :: Reports(contents, search, minLength, x)
    ensures LegacySearch.Strs(matches) == Found(contents, search, minLength)
  {
    TermsFromStored(g, ps, names, contents, "");
    assert TermsFrom(g, ps, "") == contents;
  }

  /**
   * After `put(input, value)` with a non-empty `input`, `input` is stored; every term stored
   * before keeps its value, so a shorter term put after a longer one leaves both; `value` is
   * stored only when `input` was not; nothing else becomes a term, in particular no prefix of
   * `input` that was never put.
   */
  lemma PutStores<V>(contents: map<string, V>, input: string, value: V)
    ensures var c := PutContents(contents, input, value);
            && (input != [] ==> input in c)
            && (forall t | t in contents :: t in c && c[t] == contents[t])
            && (input != [] && input !in contents ==> c[input] == value)
            && (forall t | t in c :: t in contents || t == input)
  {
  }

  /**
   * After `remove(input)`: a term survives exactly when it was stored and, if `input` was stored,
   * does not start with `input`; survivors keep their values; a missing `input` changes nothing.
   */
  lemma RemoveDrops<V>(contents: map<string, V>, input: string)
    ensures var c := RemoveContents(contents, input);
            && (forall t :: t in c <==> t in contents && !(input in contents && input <= t))
            && (forall t | t in c :: c[t] == contents[t])
            && (input !in contents ==> c == contents)
  {
  }

  /** Putting shorter terms after a longer one keeps all of them, each with its own value. */
  lemma AddShorterAfter()
    ensures PutContents(PutContents(PutContents(map[], "123456", 1), "12345", 2), "1234", 3)
         == map["123456" := 1, "12345" := 2, "1234" := 3]
  {
    PutStores(map[], "123456", 1);
    PutStores(map["123456" := 1], "12345", 2);
    PutStores(map["123456" := 1, "12345" := 2], "1234", 3);
  }

  /** Removing one of two terms that share a prefix keeps the other. */
  lemma RemoveOneOfTwo()
    ensures RemoveContents(PutContents(PutContents(map[], "Hello, Nomads!", 1), "Hello, World!", 1), "Hello, Nomads!")
         == map["Hello, World!" := 1]
  {
    var nomads, world := "Hello, Nomads!", "Hello, World!";
    PutStores(map[], nomads, 1);
    assert nomads != world by {
      assert world[7] != nomads[7];
    }
    PutStores(map[nomads := 1], world, 1);
    assert !(nomads <= world) by {
      assert world[7] != nomads[7];
    }
    RemoveDrops(map[nomads := 1, world := 1], nomads);
  }

  class Trie<V(!new)> {
    var table: Table<V>
    var root: NodeId
    var nextId: NodeId
    ghost var paths: map<string, NodeId>
    ghost var names: map<NodeId, string>
    ghost var Contents: map<string, V>

    /**
     * The nodes form a tree rooted at `root` whose completing nodes are exactly the terms of
     * `Contents`; the root never completes and every reference in use is below `nextId`.
     */
    ghost predicate Valid()
      reads this
    {
      Inv(table, paths, names, root, nextId, Contents)
    }

    /** `new Trie<>()`: a root with no children, storing nothing. */
    constructor ()
      ensures Valid() && Contents == map[]
    {
      var g := map[0 := Node("", None, {})];
      RootOnly(g, 0);
      table, root, nextId := g, 0, 1;
      paths, names, Contents := map["" := 0], map[0 := ""], map[];
    }

    /**
     * `put(input, value)`: afterwards `input` is stored, with `value` unless it was stored
     * already, in which case it keeps its old value; the empty input changes nothing; no other
     * term is added, dropped or changed.
     */
    method Put(input: string, value: V)
      modifies this
      requires Valid()
      ensures Valid() && root == old(root)
      ensures Contents == PutContents(old(Contents), input, value)
    {
      var g, nid;
      ghost var ps, ns, c;
      g, ps, ns, nid, c := PutInto(table, paths, names, root, nextId, Contents, input, value);
      table, nextId := g, nid;
      paths, names, Contents := ps, ns, c;
    }

    /**
     * `remove(input)`: when `input` is stored, it and every stored term that extends it are
     * gone and every other term keeps its value; otherwise nothing changes.
     */
    method Remove(input: string)
      modifies this
      requires Valid()
      ensures Valid() && root == old(root) && nextId == old(nextId)
      ensures Contents == RemoveContents(old(Contents), input)
    {
      var g;
      ghost var ps, c;
      g, ps, c := RemoveFrom(table, paths, names, root, nextId, Contents, input);
      table := g;
      paths, Contents := ps, c;
    }

    /** `getExactly`: the value stored under `s`, or None when `s` is not a term. */
    method GetExactly(s: string) returns (r: Option<V>)
      requires Valid()
      ensures r.Some? <==> s in Contents
      ensures r.Some? ==> r.value == Contents[s]
    {
      var n := PrefixMatchUpTo(table, paths, names, root, s);
      if n.Some? && table[n.value].Completes() {
        r := Some(table[n.value].value.value);
      } else {
        r := None;
      }
    }

    /** `containsExactly`: whether `s` is a stored term. */
    method ContainsExactly(s: string) returns (b: bool)
      requires Valid()
      ensures b <==> s in Contents
    {
      var r := GetExactly(s);
      b := r.Some?;
    }

    /**
     * `matchByPrefix`: every stored term that starts with `prefix`, `prefix` itself included,
     * with its value; nothing when no term runs through `prefix`.
     */
    method MatchByPrefix(prefix: string) returns (m: map<string, V>)
      requires Valid()
      ensures m == map t | t in Contents && prefix <= t :: Contents[t]
    {
      var n := PrefixMatchUpTo(table, paths, names, root, prefix);
      TermsFromStored(table, paths, names, Contents, prefix);
      if n.None? {
        m := map[];
      } else {
        m := CollectTerms(table, paths, names, n.value, prefix, map[]);
        assert map[] + TermsFrom(table, paths, prefix) == TermsFrom(table, paths, prefix);
      }
    }

    /**
     * `matchBySubstring`: IllegalArgument for an empty `search` or a `minLength` outside
     * 1..|search|. Otherwise one record for each stored term whose scan starts a match, made from
     * its value, ranked longest run first and then whole words first.
     */
    method MatchBySubstring(search: string, minLength: int) returns (r: Result<seq<SearchResult<V>>>)
      requires Valid()
      ensures r.Err? <==> search == [] || minLength < 1 || minLength > |search|
      ensures r.Err? ==> r.error == IllegalArgument
      ensures r.Ok? ==> && Sorting.Sorted(LegacySearch.SortByBestMatchFirst(), r.value)
                        && Sorting.DistinctKeys(LegacySearch.StrOf, r.value)
                        && (forall x | x in r.value :: Reports(Contents, search, minLength, x))
                        && LegacySearch.Strs(r.value) == Found(Contents, search, minLength)
    {
      if search == [] || minLength < 1 || minLength > |search| {
        return Err(IllegalArgument);
      }
      var matches := LegacySearch.FindBySubstring(table, paths, names, root, search, minLength);
      FoundStored(table, paths, names, Contents, search, minLength, matches);
      var sorted := LegacySearch.SortByBestMatch(matches);
      forall x
        ensures x in sorted <==> x in matches
      {
        assert x in sorted <==> x in multiset(sorted);
      }
      assert LegacySearch.Strs(sorted) == LegacySearch.Strs(matches);
      r := Ok(sorted);
    }

    /**
     * `matchByExactSubstring`: the substring search for the whole of `search`, sorted best match
     * first like `matchBySubstring`; every record has a run as long as `search`, and every term
     * that starts with `search` is reported.
     */
    method MatchByExactSubstring(search: string) returns (r: Result<seq<SearchResult<V>>>)
      requires Valid()
      ensures r.Err? <==> search == []
      ensures r.Err? ==> r.error == IllegalArgument
      ensures r.Ok? ==> && Sorting.Sorted(LegacySearch.SortByBestMatchFirst(), r.value)
                        && Sorting.DistinctKeys(LegacySearch.StrOf, r.value)
                        && (forall x | x in r.value :: Reports(Contents, search, |search|, x))
                        && (forall x | x in r.value :: x.lengthOfMatch == |search|)
                        && LegacySearch.Strs(r.value) == Found(Contents, search, |search|)
      ensures r.Ok? ==> forall t | t in Contents && search <= t :: t in LegacySearch.Strs(r.value)
    {
      r := MatchBySubstring(search, |search|);
      if r.Ok? {
        forall t | t in Contents && search <= t
          ensures t in LegacySearch.Strs(r.value)
        {
          assert search[..|search|] == search;
          LegacySearch.PrefixStarts(search, |search|, t);
        }
      }
    }
  }
}
