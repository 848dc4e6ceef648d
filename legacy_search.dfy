/**
 * The ranked substring search of the Java trie (Trie.java, `matchBySubstring`). The traversal keeps,
 * along each path, a count of consecutive characters matching `search` from its start; the count
 * falls back to 0 on a mismatch without retrying the mismatching character. When the count
 * reaches `minLength` the path has started a match, and below it the match is extended for as long
 * as the following characters keep matching `search`. Every term at or below a started path is
 * recorded once, with the length of its run and whether the run sits between word separators.
 *
 * `Scan` replays that count along one string, so the terms the traversal records are exactly
 * the stored terms whose scan starts a match; `ResultFor` is the record made for such a term.
 */
module LegacySearch {
  import opened Wrappers
  import LegacyTries
  import Walks
  import Sorting
  import TrieSearchResults

  type NodeId = LegacyTries.NodeId

  /** `record SearchResult<T>(String string, T value, int lengthOfMatch, boolean matchedWholeWord)`. */
  datatype SearchResult<V> = SearchResult(str: string, value: V, lengthOfMatch: int, matchedWholeWord: bool)

  function StrOf<V>(r: SearchResult<V>): string {
    r.str
  }

  /** A letter, a digit or ':', the characters `[^a-zA-Z\d:]` excludes. */
  predicate IsWordChar(c: char) {
    'a' <= c <= 'z' || 'A' <= c <= 'Z' || '0' <= c <= '9' || c == ':'
  }

  /** `string.matches("[^a-zA-Z\\d:]")`: exactly one character, and not a word character. */
  predicate IsWholeWordSeparator(s: string) {
    |s| == 1 && !IsWordChar(s[0])
  }

  // ---------------------------------------------------------------------------------------------
  // The search along one string

  /** Where the traversal stands after a path: still counting matches, or started at `start`. */
  datatype Scan = Seeking(matched: int) | Started(start: int)

  /**
   * One character `x` further down, the path now `len` characters long: the count grows on a
   * character equal to `search[count]` and falls back to 0 otherwise; a count reaching `minLength`
   * starts a match `minLength` characters back; a started path stays started.
   */
  function ScanStep(search: string, minLength: int, r: Scan, x: char, len: int): Scan {
    match r
    case Started(_) => r
    case Seeking(c) =>
      if 0 <= c < |search| && x == search[c] then
        if c + 1 == minLength then Started(len - minLength) else Seeking(c + 1)
      else Seeking(0)
  }

  /** The state `findCompleteStringsBySubstring` reaches at the end of the path `s`. */
  function ScanOf(search: string, minLength: int, s: string): (r: Scan)
    requires 1 <= minLength <= |search|
    ensures r.Seeking? ==> 0 <= r.matched < minLength && r.matched <= |s|
    ensures r.Started? ==> 0 <= r.start && r.start + minLength <= |s|
    decreases |s|
  {
    if s == [] then Seeking(0)
    else ScanStep(search, minLength, ScanOf(search, minLength, s[..|s| - 1]), s[|s| - 1], |s|)
  }

  /**
   * What the scan has seen: while seeking, the path ends with the `matched` first characters of
   * `search`; once started at `i`, the path holds the first `minLength` characters of `search` at `i`.
   */
  lemma {:induction false} ScanMatches(search: string, minLength: int, s: string)
    requires 1 <= minLength <= |search|
    ensures Seen(search, minLength, s)
    decreases |s|
  {
    if s != [] {
      var before, x := s[..|s| - 1], s[|s| - 1];
      ScanMatches(search, minLength, before);
      assert s == before + [x];
      var r := ScanOf(search, minLength, before);
      if r.Started? {
        SeenStarted(search, minLength, before, x);
      } else if r.matched < |search| && x == search[r.matched] {
        SeenGrows(search, minLength, before, x, r.matched);
      }
    }
  }

  /** What the scan of `s` has seen is there in `s`. */
  ghost predicate Seen(search: string, minLength: int, s: string)
    requires 1 <= minLength <= |search|
  {
    var r := ScanOf(search, minLength, s);
    && (r.Seeking? ==> s[|s| - r.matched..] == search[..r.matched])
    && (r.Started? ==> s[r.start..r.start + minLength] == search[..minLength])
  }

  lemma SeenStarted(search: string, minLength: int, before: string, x: char)
    requires 1 <= minLength <= |search| && Seen(search, minLength, before)
    requires ScanOf(search, minLength, before).Started?
    ensures Seen(search, minLength, before + [x])
  {
    var s, i := before + [x], ScanOf(search, minLength, before).start;
    assert s[..|s| - 1] == before;
    assert s[i..i + minLength] == before[i..i + minLength];
  }

  lemma SeenGrows(search: string, minLength: int, before: string, x: char, c: int)
    requires 1 <= minLength <= |search| && Seen(search, minLength, before)
    requires ScanOf(search, minLength, before) == Seeking(c) && c < |search| && x == search[c]
    ensures Seen(search, minLength, before + [x])
  {
    var s := before + [x];
    assert s[..|s| - 1] == before;
    SeekStep(search, before, x, c);
    if c + 1 == minLength {
      SeenFirstStart(search, minLength, s);
    }
  }

  /** A scan that starts at the last character of `s` has seen `search[..minLength]` at the end. */
  lemma SeenFirstStart(search: string, minLength: int, s: string)
    requires 1 <= minLength <= |search| && minLength <= |s|
    requires ScanOf(search, minLength, s) == Started(|s| - minLength)
    requires s[|s| - minLength..] == search[..minLength]
    ensures Seen(search, minLength, s)
  {
    assert s[|s| - minLength..|s|] == s[|s| - minLength..];
  }

  /** A run of `c` matched characters at the end of `before` grows by a matching `x`. */
  lemma SeekStep(search: string, before: string, x: char, c: int)
    requires 0 <= c < |search| && c <= |before| && before[|before| - c..] == search[..c] && x == search[c]
    ensures (before + [x])[|before| + 1 - (c + 1)..] == search[..c + 1]
  {
    assert (before + [x])[|before| - c..] == before[|before| - c..] + [x];
    assert search[..c + 1] == search[..c] + [search[c]];
  }

  /** A started path stays started where it started, all the way down. */
  lemma {:induction false} ScanStaysStarted(search: string, minLength: int, p: string, t: string)
    requires 1 <= minLength <= |search| && p <= t && ScanOf(search, minLength, p).Started?
    ensures ScanOf(search, minLength, t) == ScanOf(search, minLength, p)
    decreases |t|
  {
    if |t| > |p| {
      assert p <= t[..|t| - 1];
      ScanStaysStarted(search, minLength, p, t[..|t| - 1]);
    } else {
      assert t == p;
    }
  }

  /**
   * The length of the run of `t` from `i` matching `search` from its start, extended past `n`
   * while the next character of `t` equals the next character of `search`.
   */
  function RunLength(search: string, t: string, i: int, n: int): (r: int)
    requires 0 <= i && 0 <= n
    ensures n <= r && (n <= |search| ==> r <= |search|) && (i + n <= |t| ==> i + r <= |t|)
    ensures i + n <= |t| && n <= |search| && t[i..i + n] == search[..n] ==>
              && t[i..i + r] == search[..r]
              && (r < |search| && i + r < |t| ==> t[i + r] != search[r])
    decreases |search| - n
  {
    if n < |search| && i + n < |t| && t[i + n] == search[n] then
      assert t[i..i + n + 1] == t[i..i + n] + [t[i + n]] && search[..n + 1] == search[..n] + [search[n]];
      RunLength(search, t, i, n + 1)
    else n
  }

  /** A run that stopped inside `p` stops there in every extension of `p`. */
  lemma {:induction false} RunStopped(search: string, p: string, t: string, i: int, n: int)
    requires 0 <= i && 0 <= n && p <= t && i + RunLength(search, p, i, n) < |p|
    ensures RunLength(search, t, i, n) == RunLength(search, p, i, n)
    decreases |search| - n
  {
    if n < |search| && i + n < |p| && p[i + n] == search[n] {
      RunStopped(search, p, t, i, n + 1);
    }
  }

  /** A run that reached the end of `p` grows by the next character exactly when it matches. */
  lemma {:induction false} RunNext(search: string, p: string, x: char, i: int, n: int)
    requires 0 <= i && 0 <= n && i + RunLength(search, p, i, n) == |p|
    ensures var r := RunLength(search, p, i, n);
            RunLength(search, p + [x], i, n) == if r < |search| && x == search[r] then r + 1 else r
    decreases |search| - n
  {
    if n < |search| && i + n < |p| && p[i + n] == search[n] {
      RunNext(search, p, x, i, n + 1);
    }
  }

  /**
   * The match of `t` starting at `i` and running `n` characters is a whole word: the characters
   * before and after it are separators, or absent.
   */
  predicate WholeWordAt(t: string, i: int, n: int)
    requires 0 <= i <= |t|
  {
    (i == 0 || IsWholeWordSeparator([t[i - 1]])) && (i + n >= |t| || i + n < 0 || IsWholeWordSeparator([t[i + n]]))
  }

  /** The record the search makes for a term `t` holding `v` whose scan starts a match. */
  function ResultFor<V>(search: string, minLength: int, t: string, v: V): (r: SearchResult<V>)
    requires 1 <= minLength <= |search| && ScanOf(search, minLength, t).Started?
    ensures r.str == t && r.value == v
    ensures minLength <= r.lengthOfMatch <= |search|
  {
    var i := ScanOf(search, minLength, t).start;
    var n := RunLength(search, t, i, minLength);
    SearchResult(t, v, n, WholeWordAt(t, i, n))
  }

  /**
   * What a record says about its term: the match starts at `i`, where `t` holds the first
   * `minLength` characters of `search`; the run there is `lengthOfMatch` long and cannot be
   * extended; and the whole-word flag is the separator test on both sides of the run.
   */
  lemma ResultSound<V>(search: string, minLength: int, t: string, v: V)
    requires 1 <= minLength <= |search| && ScanOf(search, minLength, t).Started?
    ensures var r := ResultFor(search, minLength, t, v);
            var i := ScanOf(search, minLength, t).start;
            && 0 <= i && i + r.lengthOfMatch <= |t|
            && t[i..i + minLength] == search[..minLength]
            && t[i..i + r.lengthOfMatch] == search[..r.lengthOfMatch]
            && (r.lengthOfMatch < |search| && i + r.lengthOfMatch < |t| ==> t[i + r.lengthOfMatch] != search[r.lengthOfMatch])
            && (r.matchedWholeWord <==>
                  && (i == 0 || !IsWordChar(t[i - 1]))
                  && (i + r.lengthOfMatch == |t| || !IsWordChar(t[i + r.lengthOfMatch])))
  {
    ResultRun(search, minLength, t, v);
    ResultWord(search, minLength, t, v);
  }

  /** The run of a record: where it starts, and that it cannot be extended. */
  lemma ResultRun<V>(search: string, minLength: int, t: string, v: V)
    requires 1 <= minLength <= |search| && ScanOf(search, minLength, t).Started?
    ensures var n := ResultFor(search, minLength, t, v).lengthOfMatch;
            var i := ScanOf(search, minLength, t).start;
            && 0 <= i && i + n <= |t|
            && t[i..i + minLength] == search[..minLength]
            && t[i..i + n] == search[..n]
            && (n < |search| && i + n < |t| ==> t[i + n] != search[n])
  {
    var i := ScanOf(search, minLength, t).start;
    var n := RunLength(search, t, i, minLength);
    assert ResultFor(search, minLength, t, v).lengthOfMatch == n;
    assert t[i..i + minLength] == search[..minLength] by {
      ScanMatches(search, minLength, t);
    }
    assert t[i..i + n] == search[..n] && (n < |search| && i + n < |t| ==> t[i + n] != search[n]) by {
      RunMatches(search, t, i, minLength);
    }
  }

  /** The whole-word flag of a record, stated on the characters around its run. */
  lemma ResultWord<V>(search: string, minLength: int, t: string, v: V)
    requires 1 <= minLength <= |search| && ScanOf(search, minLength, t).Started?
    ensures var r := ResultFor(search, minLength, t, v);
            var i := ScanOf(search, minLength, t).start;
            && i + r.lengthOfMatch <= |t|
            && (r.matchedWholeWord <==>
                  && (i == 0 || !IsWordChar(t[i - 1]))
                  && (i + r.lengthOfMatch == |t| || !IsWordChar(t[i + r.lengthOfMatch])))
  {
    var i := ScanOf(search, minLength, t).start;
    var n := RunLength(search, t, i, minLength);
    assert ResultFor(search, minLength, t, v) == SearchResult(t, v, n, WholeWordAt(t, i, n));
    assert i + n <= |t| by {
      ResultRun(search, minLength, t, v);
    }
    WholeWordChars(t, i, n);
  }

  /** The whole-word test on both sides of a run inside `t`, stated on characters. */
  lemma WholeWordChars(t: string, i: int, n: int)
    requires 0 <= i && 0 <= n && i + n <= |t|
    ensures WholeWordAt(t, i, n) <==> (i == 0 || !IsWordChar(t[i - 1])) && (i + n == |t| || !IsWordChar(t[i + n]))
  {
  }

  /** A run that begins matching stays matching for its whole length, and no further. */
  lemma RunMatches(search: string, t: string, i: int, n: int)
    requires 0 <= i && 0 <= n <= |search| && i + n <= |t| && t[i..i + n] == search[..n]
    ensures var r := RunLength(search, t, i, n);
            && t[i..i + r] == search[..r]
            && (r < |search| && i + r < |t| ==> t[i + r] != search[r])
  {
  }

  /** Every term that begins with the first `minLength` characters of `search` is found there. */
  lemma PrefixStarts(search: string, minLength: int, t: string)
    requires 1 <= minLength <= |search| && search[..minLength] <= t
    ensures ScanOf(search, minLength, t) == Started(0)
  {
    PrefixSeeking(search, minLength, minLength - 1);
    var p := search[..minLength];
    assert p[..|p| - 1] == search[..minLength - 1];
    assert ScanOf(search, minLength, p) == Started(0);
    ScanStaysStarted(search, minLength, p, t);
  }

  /** Along a prefix of `search` shorter than `minLength`, the count is the prefix's length. */
  lemma {:induction false} PrefixSeeking(search: string, minLength: int, k: int)
    requires 1 <= minLength <= |search| && 0 <= k < minLength
    ensures ScanOf(search, minLength, search[..k]) == Seeking(k)
  {
    if k > 0 {
      PrefixSeeking(search, minLength, k - 1);
      assert search[..k][..k - 1] == search[..k - 1];
    }
  }

  /**
   * The count falls back to 0 on a mismatch without testing the character against the start of
   * `search` again: "aaab" holds "aab" but its scan never starts.
   */
  lemma MissedAfterReset()
    ensures ScanOf("aab", 3, "aaab") == Seeking(0)
  {
    assert "aaab"[..3] == "aaa" && "aaa"[..2] == "aa" && "aa"[..1] == "a" && "a"[..0] == [];
  }

  /** The exact search for "def" finds "abcdef" at its end, not as a whole word. */
  lemma ExactSubstringAtEnd()
    ensures ScanOf("def", 3, "abcdef") == Started(3)
    ensures ResultFor("def", 3, "abcdef", 1) == SearchResult("abcdef", 1, 3, false)
  {
    var t := "abcdef";
    assert t[..5] == "abcde" && t[..4] == "abcd" && t[..3] == "abc";
    assert t[..2] == "ab" && t[..1] == "a" && t[..0] == [];
    assert "abcde"[..4] == "abcd" && "abcd"[..3] == "abc" && "abc"[..2] == "ab";
    assert "ab"[..1] == "a" && "a"[..0] == [];
  }

  /** The exact search for "def" finds "defghi" at its start, not as a whole word. */
  lemma ExactSubstringAtStart()
    ensures ScanOf("def", 3, "defghi") == Started(0)
    ensures ResultFor("def", 3, "defghi", 2) == SearchResult("defghi", 2, 3, false)
  {
    assert "def"[..3] == "def";
    PrefixStarts("def", 3, "defghi");
  }

  /** The exact search for "def" does not find "deghij". */
  lemma ExactSubstringMissing()
    ensures ScanOf("def", 3, "deghij").Seeking?
  {
    var u := "deghij";
    assert u[..3] == "deg" && "deg"[..2] == "de" && "de"[..1] == "d" && "d"[..0] == [];
    assert u[..4] == "degh" && u[..5] == "deghi" && u[..6] == u;
    assert u[..4][..3] == u[..3] && u[..5][..4] == u[..4] && u[..6][..5] == u[..5];
    assert ScanOf("def", 3, u[..2]) == Seeking(2);
    assert ScanOf("def", 3, u[..3]) == Seeking(0);
    assert ScanOf("def", 3, u[..4]) == Seeking(0);
    assert ScanOf("def", 3, u[..5]) == Seeking(0);
  }

  /** The exact search for "jklmno" finds "jklmno" as a whole word. */
  lemma ExactSubstringWholeWord()
    ensures ScanOf("jklmno", 6, "jklmno") == Started(0)
    ensures ResultFor("jklmno", 6, "jklmno", 4) == SearchResult("jklmno", 4, 6, true)
  {
    assert "jklmno"[..6] == "jklmno";
    PrefixStarts("jklmno", 6, "jklmno");
  }

  // ---------------------------------------------------------------------------------------------
  // The traversal

  /** The strings of the records in `acc`. */
  ghost function Strs<V>(acc: seq<SearchResult<V>>): set<string> {
    set r | r in acc :: r.str
  }

  /** The terms among `terms` whose scan starts a match. */
  ghost function Hits<V>(terms: map<string, V>, search: string, minLength: int): set<string>
    requires 1 <= minLength <= |search|
  {
    set t | t in terms && ScanOf(search, minLength, t).Started?
  }

  /** `r` is the record the search makes for the term at path `r.str` of the tree `ps` of `g`. */
  ghost predicate Correct<V>(g: LegacyTries.Table<V>, ps: map<string, NodeId>, search: string, minLength: int,
                             r: SearchResult<V>)
  {
    && 1 <= minLength <= |search|
    && r.str in ps && ps[r.str] in g && g[ps[r.str]].value.Some?
    && ScanOf(search, minLength, r.str).Started?
    && r == ResultFor(search, minLength, r.str, g[ps[r.str]].value.value)
  }

  /**
   * The accumulation of the search so far: records of the search, for pairwise different terms,
   * and `saved` holds exactly their terms.
   */
  ghost predicate Recorded<V>(g: LegacyTries.Table<V>, ps: map<string, NodeId>, search: string, minLength: int,
                              acc: seq<SearchResult<V>>, saved: set<string>)
  {
    && saved == Strs(acc)
    && Sorting.DistinctKeys(StrOf, acc)
    && forall r | r in acc :: Correct(g, ps, search, minLength, r)
  }

  /** Adding the record of a term not saved yet keeps the accumulation well formed. */
  lemma RecordOne<V>(g: LegacyTries.Table<V>, ps: map<string, NodeId>, search: string, minLength: int,
                     acc: seq<SearchResult<V>>, saved: set<string>, r: SearchResult<V>)
    requires Recorded(g, ps, search, minLength, acc, saved) && Correct(g, ps, search, minLength, r)
    requires r.str !in saved
    ensures Recorded(g, ps, search, minLength, acc + [r], saved + {r.str})
  {
    var acc' := acc + [r];
    forall i, j | 0 <= i < j < |acc'|
      ensures StrOf(acc'[i]) != StrOf(acc'[j])
    {
      if j == |acc| {
        assert acc[i] in acc;
      }
    }
  }

  /**
   * The whole-word test of `findCompleteStringsStartingAt`, on the nodes left of the match (the
   * root or a separator) and right of it (none or a separator), is `WholeWordAt` on the path.
   */
  lemma WholeWordOfNodes<V>(g: LegacyTries.Table<V>, ps: map<string, NodeId>, names: map<NodeId, string>,
                            root: NodeId, p: string, i: int, n: int, left: NodeId, right: Option<NodeId>)
    requires LegacyTries.Tree(g, ps, names) && ps[""] == root && p in ps
    requires 0 <= i && 0 <= n && i + n <= |p| && p[..i] in ps && left == ps[p[..i]]
    requires right.None? ==> i + n == |p|
    requires right.Some? ==> i + n < |p| && p[..i + n + 1] in ps && right.value == ps[p[..i + n + 1]]
    ensures ps[p[..i]] in g && (right.Some? ==> right.value in g)
    ensures ((left == root || IsWholeWordSeparator(g[left].str))
             && (right.None? || IsWholeWordSeparator(g[right.value].str))) == WholeWordAt(p, i, n)
  {
    if i == 0 {
      assert p[..i] == "";
    } else {
      assert p[..i] == p[..i - 1] + [p[i - 1]];
      assert names[left] == p[..i] && names[root] == "";
    }
    if right.Some? {
      assert p[..i + n + 1] == p[..i + n] + [p[i + n]];
    }
  }

  /** The terms hit through one more child `c` of the node at `p` add the hits at or below `c`. */
  lemma HitsThroughChild<V>(g: LegacyTries.Table<V>, ps: map<string, NodeId>, names: map<NodeId, string>,
                            search: string, minLength: int, p: string, kids: set<NodeId>, c: NodeId)
    requires LegacyTries.Tree(g, ps, names) && p in ps && c in g[ps[p]].next && 1 <= minLength <= |search|
    ensures Hits(LegacyTries.TermsThrough(g, ps, p, kids + {c}), search, minLength)
            == Hits(LegacyTries.TermsThrough(g, ps, p, kids), search, minLength)
               + Hits(LegacyTries.TermsFrom(g, ps, p + g[c].str), search, minLength)
  {
    LegacyTries.ThroughChild(g, ps, names, p, kids, c);
  }

  /** No term through the children `kids` of the node at `p` lies at or below another child `c`. */
  lemma NotThroughOther<V>(g: LegacyTries.Table<V>, ps: map<string, NodeId>, names: map<NodeId, string>,
                           p: string, kids: set<NodeId>, c: NodeId, t: string)
    requires LegacyTries.Tree(g, ps, names) && p in ps && c in g[ps[p]].next && c !in kids
    requires t in LegacyTries.TermsThrough(g, ps, p, kids)
    ensures !(p + g[c].str <= t)
  {
    var q := p + g[c].str;
    assert q in ps && ps[q] == c && |q| == |p| + 1;
    assert ps[t[..|p| + 1]] != ps[q];
    assert t[..|p| + 1] != q;
    NotPrefix(q, t);
  }

  lemma NotPrefix(q: string, t: string)
    requires |q| <= |t| && t[..|q|] != q
    ensures !(q <= t)
  {
  }

  /** The hits at or below `p` are `p` itself, when it completes and is hit, and the hits through its children. */
  lemma AllChildHits<V>(g: LegacyTries.Table<V>, ps: map<string, NodeId>, names: map<NodeId, string>,
                        search: string, minLength: int, p: string)
    requires LegacyTries.Tree(g, ps, names) && p in ps && 1 <= minLength <= |search|
    ensures Hits(LegacyTries.TermsFrom(g, ps, p), search, minLength)
            == (if g[ps[p]].value.Some? && ScanOf(search, minLength, p).Started? then {p} else {})
               + Hits(LegacyTries.TermsThrough(g, ps, p, g[ps[p]].next), search, minLength)
  {
    var own: map<string, V> := if g[ps[p]].value.Some? then map[p := g[ps[p]].value.value] else map[];
    LegacyTries.AllChildren(g, ps, names, p, map[], own);
    assert map[] + LegacyTries.TermsFrom(g, ps, p) == LegacyTries.TermsFrom(g, ps, p);
  }

  /**
   * The state of `findCompleteStringsStartingAt` at the path `p`: the scan of `p` started a match
   * at `i`, the run from `i` has length `cm`, `left` is the node before the match, and `right` is
   * the node after the run once the run has stopped inside `p`, absent while it reaches the end.
   */
  ghost predicate Extending<V>(g: LegacyTries.Table<V>, ps: map<string, NodeId>, names: map<NodeId, string>,
                               root: NodeId, search: string, minLength: int, p: string, i: int, cm: int,
                               left: Option<NodeId>, right: Option<NodeId>)
  {
    && LegacyTries.Tree(g, ps, names) && ps[""] == root && p in ps
    && RunState(search, minLength, p, i, cm, right.Some?)
    && p[..i] in ps && left == Some(ps[p[..i]])
    && (right.Some? ==> p[..i + cm + 1] in ps && right.value == ps[p[..i + cm + 1]])
  }

  /**
   * The run along the path `p`: its scan started a match at `i`, the run from `i` has length `cm`,
   * and it has `stopped` inside `p` or reaches its end.
   */
  ghost predicate RunState(search: string, minLength: int, p: string, i: int, cm: int, stopped: bool)
  {
    && 1 <= minLength <= |search| && ScanOf(search, minLength, p) == Started(i)
    && cm == RunLength(search, p, i, minLength)
    && (if stopped then i + cm < |p| else i + cm == |p|)
  }

  /** The record made at a completing node in the state `Extending` is the record of its term. */
  lemma RecordHere<V>(g: LegacyTries.Table<V>, ps: map<string, NodeId>, names: map<NodeId, string>,
                      root: NodeId, search: string, minLength: int, p: string, i: int, cm: int,
                      left: Option<NodeId>, right: Option<NodeId>)
    requires Extending(g, ps, names, root, search, minLength, p, i, cm, left, right)
    requires g[ps[p]].value.Some?
    ensures left.value in g && (right.Some? ==> right.value in g)
    ensures var whole := (left.value == root || IsWholeWordSeparator(g[left.value].str))
                         && (right.None? || IsWholeWordSeparator(g[right.value].str));
            Correct(g, ps, search, minLength, SearchResult(p, g[ps[p]].value.value, cm, whole))
  {
    WholeWordOfNodes(g, ps, names, root, p, i, cm, left.value, right);
  }

  /**
   * The state `Extending` carries over from `p` to the child path `q`, with the run and the node
   * after it as the loop over the children computes them.
   */
  lemma ExtendingChild<V>(g: LegacyTries.Table<V>, ps: map<string, NodeId>, names: map<NodeId, string>,
                          root: NodeId, search: string, minLength: int, p: string, i: int, cm: int,
                          left: Option<NodeId>, right: Option<NodeId>, c: NodeId, q: string,
                          cm': int, right': Option<NodeId>)
    requires Extending(g, ps, names, root, search, minLength, p, i, cm, left, right)
    requires c in g[ps[p]].next && q == p + g[c].str
    requires var matches := right.None? && cm < |search| && g[c].str == [search[cm]];
             && right' == (if right.None? && !matches then Some(c) else right)
             && cm' == (if right.None? && matches then cm + 1 else cm)
    ensures p < q && q in ps && ps[q] == c
    ensures Extending(g, ps, names, root, search, minLength, q, i, cm', left, right')
  {
    var x := q[|p|];
    assert q in ps && ps[q] == c && q == p + [x] && g[c].str == [x];
    RunOneMore(search, minLength, p, x, i, cm, right.Some?, cm', right'.Some?);
    if right.Some? {
      ExtendingStopped(g, ps, names, root, search, minLength, p, i, cm, left, right, q);
    } else if right'.Some? {
      ExtendingStops(g, ps, names, root, search, minLength, p, i, cm, left, c, q);
    } else {
      ExtendingGrows(g, ps, names, root, search, minLength, p, i, cm, left, q);
    }
  }

  /** Below a stopped run, the nodes before and after the match stay where they were. */
  lemma ExtendingStopped<V>(g: LegacyTries.Table<V>, ps: map<string, NodeId>, names: map<NodeId, string>,
                            root: NodeId, search: string, minLength: int, p: string, i: int, cm: int,
                            left: Option<NodeId>, right: Option<NodeId>, q: string)
    requires Extending(g, ps, names, root, search, minLength, p, i, cm, left, right) && right.Some?
    requires q in ps && p < q && q[..i] == p[..i] && q[..i + cm + 1] == p[..i + cm + 1]
    requires RunState(search, minLength, q, i, cm, true)
    ensures Extending(g, ps, names, root, search, minLength, q, i, cm, left, right)
  {
  }

  /** A character that does not extend the run stops it, and its node is the one after the match. */
  lemma ExtendingStops<V>(g: LegacyTries.Table<V>, ps: map<string, NodeId>, names: map<NodeId, string>,
                          root: NodeId, search: string, minLength: int, p: string, i: int, cm: int,
                          left: Option<NodeId>, c: NodeId, q: string)
    requires Extending(g, ps, names, root, search, minLength, p, i, cm, left, None)
    requires q in ps && ps[q] == c && p < q && |q| == |p| + 1 && q[..i] == p[..i]
    requires RunState(search, minLength, q, i, cm, true)
    ensures Extending(g, ps, names, root, search, minLength, q, i, cm, left, Some(c))
  {
    assert q[..i + cm + 1] == q;
  }

  /** A character that extends the run keeps it reaching the end. */
  lemma ExtendingGrows<V>(g: LegacyTries.Table<V>, ps: map<string, NodeId>, names: map<NodeId, string>,
                          root: NodeId, search: string, minLength: int, p: string, i: int, cm: int,
                          left: Option<NodeId>, q: string)
    requires Extending(g, ps, names, root, search, minLength, p, i, cm, left, None)
    requires q in ps && p < q && q[..i] == p[..i]
    requires RunState(search, minLength, q, i, cm + 1, false)
    ensures Extending(g, ps, names, root, search, minLength, q, i, cm + 1, left, None)
  {
  }

  /**
   * The run one character further down: it stays as it was once stopped, and otherwise grows
   * when the character matches the next one of `search` and stops when it does not.
   */
  lemma RunOneMore(search: string, minLength: int, p: string, x: char, i: int, cm: int, stopped: bool,
                   cm': int, stopped': bool)
    requires RunState(search, minLength, p, i, cm, stopped)
    requires var matches := !stopped && cm < |search| && x == search[cm];
             && stopped' == (stopped || !matches)
             && cm' == (if matches then cm + 1 else cm)
    ensures RunState(search, minLength, p + [x], i, cm', stopped')
    ensures (p + [x])[..i] == p[..i]
    ensures stopped ==> (p + [x])[..i + cm + 1] == p[..i + cm + 1]
  {
    var q := p + [x];
    ScanStaysStarted(search, minLength, p, q);
    if stopped {
      RunStopped(search, p, q, i, minLength);
      assert q[..i + cm + 1] == p[..i + cm + 1];
    } else {
      RunNext(search, p, x, i, minLength);
    }
    assert q[..i] == p[..i];
  }

  /**
   * Terms already saved by the loop over the children of the node at `p` do not lie at or below
   * the child `c` not visited yet.
   */
  lemma SavedElsewhere<V>(g: LegacyTries.Table<V>, ps: map<string, NodeId>, names: map<NodeId, string>,
                          search: string, minLength: int, p: string, own: set<string>, kids: set<NodeId>,
                          c: NodeId, saved: set<string>)
    requires LegacyTries.Tree(g, ps, names) && p in ps && 1 <= minLength <= |search|
    requires c in g[ps[p]].next && c !in kids
    requires forall s | s in own :: !(p < s)
    requires saved == own + Hits(LegacyTries.TermsThrough(g, ps, p, kids), search, minLength)
    ensures forall s | s in saved :: !(p + g[c].str <= s)
  {
    var q := p + g[c].str;
    assert q in ps && |q| == |p| + 1;
    forall s | s in saved
      ensures !(q <= s)
    {
      if s in own {
        assert !(p < s);
      } else {
        NotThroughOther(g, ps, names, p, kids, c, s);
      }
    }
  }

  /**
   * `findCompleteStringsStartingAt` with eight arguments: at the node `current`, at path
   * `matchUpToHere` below the start `i` of a match, records every term at or below it. The match
   * has run `consecutiveMatches` characters; `rightOfLastMatchingCharacter` is the node after the
   * run once a character has failed to extend it, and absent while the run reaches `current`.
   */
  method StartingAt<V>(g: LegacyTries.Table<V>, ghost ps: map<string, NodeId>, ghost names: map<NodeId, string>,
                       root: NodeId, current: NodeId, leftOfFirstMatchingCharacter: Option<NodeId>,
                       rightOfLastMatchingCharacter: Option<NodeId>, search: string, consecutiveMatches: int,
                       matchUpToHere: string, acc0: seq<SearchResult<V>>, saved0: set<string>,
                       ghost i: int, ghost minLength: int)
    returns (acc: seq<SearchResult<V>>, saved: set<string>)
    requires Extending(g, ps, names, root, search, minLength, matchUpToHere, i, consecutiveMatches,
                       leftOfFirstMatchingCharacter, rightOfLastMatchingCharacter)
    requires ps[matchUpToHere] == current
    requires Recorded(g, ps, search, minLength, acc0, saved0) && forall s | s in saved0 :: !(matchUpToHere <= s)
    ensures Recorded(g, ps, search, minLength, acc, saved)
    ensures saved == saved0 + Hits(LegacyTries.TermsFrom(g, ps, matchUpToHere), search, minLength)
    decreases |Walks.Extensions(ps, matchUpToHere)|, 1
  {
    acc, saved := RecordIfComplete(g, ps, names, root, current, leftOfFirstMatchingCharacter,
                                   rightOfLastMatchingCharacter, search, consecutiveMatches, matchUpToHere,
                                   acc0, saved0, i, minLength);
    ghost var own := saved;
    LegacyTries.ChildrenInTable(g, ps, names, matchUpToHere);
    var nextNodes := g[current].next;
    var rest := nextNodes;
    assert nextNodes - rest == {};
    while rest != {}
      invariant rest <= nextNodes
      invariant Recorded(g, ps, search, minLength, acc, saved)
      invariant saved == own + Hits(LegacyTries.TermsThrough(g, ps, matchUpToHere, nextNodes - rest), search, minLength)
      decreases |rest|
    {
      acc, saved, rest := StartingAtChild(g, ps, names, root, current, leftOfFirstMatchingCharacter,
                                          rightOfLastMatchingCharacter, search, consecutiveMatches, matchUpToHere,
                                          i, minLength, own, rest, acc, saved);
    }
    assert nextNodes - rest == nextNodes;
    OwnAndChildHits(g, ps, names, search, minLength, matchUpToHere, saved0, own);
  }

  /** The first step of `findCompleteStringsStartingAt`: records the term at `current`, if any, once. */
  method RecordIfComplete<V>(g: LegacyTries.Table<V>, ghost ps: map<string, NodeId>, ghost names: map<NodeId, string>,
                             root: NodeId, current: NodeId, leftOfFirstMatchingCharacter: Option<NodeId>,
                             rightOfLastMatchingCharacter: Option<NodeId>, search: string, consecutiveMatches: int,
                             matchUpToHere: string, acc0: seq<SearchResult<V>>, saved0: set<string>,
                             ghost i: int, ghost minLength: int)
    returns (acc: seq<SearchResult<V>>, saved: set<string>)
    requires Extending(g, ps, names, root, search, minLength, matchUpToHere, i, consecutiveMatches,
                       leftOfFirstMatchingCharacter, rightOfLastMatchingCharacter)
    requires ps[matchUpToHere] == current
    requires Recorded(g, ps, search, minLength, acc0, saved0) && forall s | s in saved0 :: !(matchUpToHere <= s)
    ensures Recorded(g, ps, search, minLength, acc, saved)
    ensures saved == if g[current].value.Some? && ScanOf(search, minLength, matchUpToHere).Started?
                     then saved0 + {matchUpToHere} else saved0
    ensures forall s | s in saved :: !(matchUpToHere < s)
  {
    acc, saved := acc0, saved0;
    assert matchUpToHere !in saved0;
    if g[current].Completes() && matchUpToHere !in saved {
      var left, right := leftOfFirstMatchingCharacter.value, rightOfLastMatchingCharacter;
      RecordHere(g, ps, names, root, search, minLength, matchUpToHere, i, consecutiveMatches,
                 leftOfFirstMatchingCharacter, right);
      var matchedWholeWord := (left == root || IsWholeWordSeparator(g[left].str))
                              && (right.None? || IsWholeWordSeparator(g[right.value].str));
      var newSearchResult := SearchResult(matchUpToHere, g[current].value.value, consecutiveMatches, matchedWholeWord);
      RecordOne(g, ps, search, minLength, acc, saved, newSearchResult);
      acc, saved := acc + [newSearchResult], saved + {matchUpToHere};
    }
  }

  /** The hits at or below a started path are its own term, when it completes, and the hits through its children. */
  lemma OwnAndChildHits<V>(g: LegacyTries.Table<V>, ps: map<string, NodeId>, names: map<NodeId, string>,
                           search: string, minLength: int, p: string, saved0: set<string>, own: set<string>)
    requires LegacyTries.Tree(g, ps, names) && p in ps && 1 <= minLength <= |search|
    requires own == if g[ps[p]].value.Some? && ScanOf(search, minLength, p).Started? then saved0 + {p} else saved0
    ensures own + Hits(LegacyTries.TermsThrough(g, ps, p, g[ps[p]].next), search, minLength)
            == saved0 + Hits(LegacyTries.TermsFrom(g, ps, p), search, minLength)
  {
    AllChildHits(g, ps, names, search, minLength, p);
  }

  /** One turn of the loop over the children in `findCompleteStringsStartingAt`. */
  method StartingAtChild<V>(g: LegacyTries.Table<V>, ghost ps: map<string, NodeId>, ghost names: map<NodeId, string>,
                            root: NodeId, current: NodeId, leftOfFirstMatchingCharacter: Option<NodeId>,
                            rightOfLastMatchingCharacter: Option<NodeId>, search: string, consecutiveMatches: int,
                            matchUpToHere: string, ghost i: int, ghost minLength: int, ghost own: set<string>,
                            rest: set<NodeId>, acc0: seq<SearchResult<V>>, saved0: set<string>)
    returns (acc: seq<SearchResult<V>>, saved: set<string>, rest': set<NodeId>)
    requires Extending(g, ps, names, root, search, minLength, matchUpToHere, i, consecutiveMatches,
                       leftOfFirstMatchingCharacter, rightOfLastMatchingCharacter)
    requires ps[matchUpToHere] == current
    requires forall s | s in own :: !(matchUpToHere < s)
    requires rest != {} && rest <= g[current].next
    requires Recorded(g, ps, search, minLength, acc0, saved0)
    requires saved0 == own + Hits(LegacyTries.TermsThrough(g, ps, matchUpToHere, g[current].next - rest), search, minLength)
    ensures rest' < rest && |rest'| < |rest|
    ensures Recorded(g, ps, search, minLength, acc, saved)
    ensures saved == own + Hits(LegacyTries.TermsThrough(g, ps, matchUpToHere, g[current].next - rest'), search, minLength)
    decreases |Walks.Extensions(ps, matchUpToHere)|, 0
  {
    var nextNode :| nextNode in rest;
    ghost var kids := g[current].next - rest;
    var endMatch := rightOfLastMatchingCharacter.Some?;
    var nextNodeMatches := !endMatch && consecutiveMatches < |search|
                           && g[nextNode].str == [search[consecutiveMatches]];
    var nextRightOfLastMatchingCharacter := if !endMatch && !nextNodeMatches then Some(nextNode)
                                            else rightOfLastMatchingCharacter;
    var newConsecutiveMatches := if !endMatch && nextNodeMatches then consecutiveMatches + 1 else consecutiveMatches;
    var q := matchUpToHere + g[nextNode].str;
    ExtendingChild(g, ps, names, root, search, minLength, matchUpToHere, i, consecutiveMatches,
                   leftOfFirstMatchingCharacter, rightOfLastMatchingCharacter, nextNode, q,
                   newConsecutiveMatches, nextRightOfLastMatchingCharacter);
    SavedElsewhere(g, ps, names, search, minLength, matchUpToHere, own, kids, nextNode, saved0);
    Walks.ExtensionsShrink(ps, matchUpToHere, q);
    acc, saved := StartingAt(g, ps, names, root, nextNode, leftOfFirstMatchingCharacter,
                             nextRightOfLastMatchingCharacter, search, newConsecutiveMatches, q, acc0, saved0,
                             i, minLength);
    AfterChild(g, ps, names, search, minLength, matchUpToHere, kids, nextNode, own, saved0, saved);
    rest' := rest - {nextNode};
    OneMoreVisited(g[current].next, rest, nextNode);
  }

  /** The children visited and one more child `c`: the hits at or below `c` join the saved terms. */
  lemma AfterChild<V>(g: LegacyTries.Table<V>, ps: map<string, NodeId>, names: map<NodeId, string>,
                      search: string, minLength: int, p: string, kids: set<NodeId>, c: NodeId,
                      own: set<string>, saved0: set<string>, saved: set<string>)
    requires LegacyTries.Tree(g, ps, names) && p in ps && c in g[ps[p]].next && 1 <= minLength <= |search|
    requires saved0 == own + Hits(LegacyTries.TermsThrough(g, ps, p, kids), search, minLength)
    requires saved == saved0 + Hits(LegacyTries.TermsFrom(g, ps, p + g[c].str), search, minLength)
    ensures saved == own + Hits(LegacyTries.TermsThrough(g, ps, p, kids + {c}), search, minLength)
  {
    HitsThroughChild(g, ps, names, search, minLength, p, kids, c);
  }

  /** Taking `x` out of the children still to visit adds it to those visited. */
  lemma OneMoreVisited<T>(all: set<T>, rest: set<T>, x: T)
    requires x in rest && rest <= all
    ensures all - (rest - {x}) == (all - rest) + {x}
  {
  }

  /**
   * The state of `findCompleteStringsBySubstring` at the path `p`: `cm` characters matched so far,
   * the scan of `p` seeking with that count or, once it reaches `minLength`, started `minLength`
   * characters back; while counting, `left` is the node before the first matching character.
   */
  ghost predicate Counting<V>(g: LegacyTries.Table<V>, ps: map<string, NodeId>, names: map<NodeId, string>,
                              root: NodeId, search: string, minLength: int, p: string, cm: int,
                              left: Option<NodeId>)
  {
    && LegacyTries.Tree(g, ps, names) && ps[""] == root && p in ps
    && 1 <= minLength <= |search| && 0 <= cm <= minLength && cm <= |p|
    && ScanOf(search, minLength, p) == (if cm == minLength then Started(|p| - minLength) else Seeking(cm))
    && (cm > 0 ==> p[..|p| - cm] in ps && left == Some(ps[p[..|p| - cm]]))
  }

  /** The count carries over to the child path `q` as the loop over the children computes it. */
  lemma CountingChild<V>(g: LegacyTries.Table<V>, ps: map<string, NodeId>, names: map<NodeId, string>,
                         root: NodeId, search: string, minLength: int, p: string, cm: int, left: Option<NodeId>,
                         c: NodeId, q: string, cm': int, left': Option<NodeId>)
    requires Counting(g, ps, names, root, search, minLength, p, cm, left) && cm < minLength
    requires c in g[ps[p]].next && q == p + g[c].str
    requires var matches := g[c].str == [search[cm]];
             && left' == (if cm == 0 && matches then Some(ps[p]) else left)
             && cm' == (if matches then cm + 1 else 0)
    ensures p < q && q in ps && ps[q] == c
    ensures Counting(g, ps, names, root, search, minLength, q, cm', left')
  {
    var x := q[|p|];
    assert q in ps && ps[q] == c && q == p + [x] && g[c].str == [x];
    assert q[..|q| - 1] == p;
    if cm' > 0 {
      assert q[..|q| - cm'] == p[..|p| - cm];
    }
  }

  /** A count reaching `minLength` is the start of the extension, with a run of `minLength`. */
  lemma CountingStarts<V>(g: LegacyTries.Table<V>, ps: map<string, NodeId>, names: map<NodeId, string>,
                          root: NodeId, search: string, minLength: int, p: string, left: Option<NodeId>)
    requires Counting(g, ps, names, root, search, minLength, p, minLength, left)
    ensures Extending(g, ps, names, root, search, minLength, p, |p| - minLength, minLength, left, None)
  {
    assert RunLength(search, p, |p| - minLength, minLength) == minLength;
  }

  /**
   * `findCompleteStringsBySubstring`: at the node `current`, at path `matchUpToHere`, with
   * `consecutiveMatches` characters of `search` matched so far, records every term at or below it
   * whose scan starts a match.
   */
  method BySubstring<V>(g: LegacyTries.Table<V>, ghost ps: map<string, NodeId>, ghost names: map<NodeId, string>,
                        root: NodeId, current: NodeId, leftOfFirstMatchingCharacter: Option<NodeId>, search: string,
                        consecutiveMatches: int, minLength: int, matchUpToHere: string,
                        acc0: seq<SearchResult<V>>, saved0: set<string>)
    returns (acc: seq<SearchResult<V>>, saved: set<string>)
    requires Counting(g, ps, names, root, search, minLength, matchUpToHere, consecutiveMatches,
                      leftOfFirstMatchingCharacter)
    requires ps[matchUpToHere] == current
    requires Recorded(g, ps, search, minLength, acc0, saved0) && forall s | s in saved0 :: !(matchUpToHere <= s)
    ensures Recorded(g, ps, search, minLength, acc, saved)
    ensures saved == saved0 + Hits(LegacyTries.TermsFrom(g, ps, matchUpToHere), search, minLength)
    decreases |Walks.Extensions(ps, matchUpToHere)|, 3
  {
    if consecutiveMatches == minLength {
      CountingStarts(g, ps, names, root, search, minLength, matchUpToHere, leftOfFirstMatchingCharacter);
      acc, saved := StartingAt(g, ps, names, root, current, leftOfFirstMatchingCharacter, None, search,
                               consecutiveMatches, matchUpToHere, acc0, saved0, |matchUpToHere| - minLength,
                               minLength);
      return;
    }
    var thisNodeMatches := consecutiveMatches > 0;
    acc, saved := acc0, saved0;
    LegacyTries.ChildrenInTable(g, ps, names, matchUpToHere);
    var nextNodes := g[current].next;
    var rest := nextNodes;
    assert nextNodes - rest == {};
    assert forall s | s in saved0 :: !(matchUpToHere < s);
    while rest != {}
      invariant rest <= nextNodes
      invariant Recorded(g, ps, search, minLength, acc, saved)
      invariant saved == saved0 + Hits(LegacyTries.TermsThrough(g, ps, matchUpToHere, nextNodes - rest), search, minLength)
      decreases |rest|
    {
      acc, saved, rest := BySubstringChild(g, ps, names, root, current, leftOfFirstMatchingCharacter, search,
                                           consecutiveMatches, minLength, matchUpToHere, thisNodeMatches,
                                           saved0, rest, acc, saved);
    }
    assert nextNodes - rest == nextNodes;
    OwnAndChildHits(g, ps, names, search, minLength, matchUpToHere, saved0, saved0);
  }

  /** One turn of the loop over the children in `findCompleteStringsBySubstring`. */
  method BySubstringChild<V>(g: LegacyTries.Table<V>, ghost ps: map<string, NodeId>, ghost names: map<NodeId, string>,
                             root: NodeId, current: NodeId, leftOfFirstMatchingCharacter: Option<NodeId>,
                             search: string, consecutiveMatches: int, minLength: int, matchUpToHere: string,
                             thisNodeMatches: bool, ghost own: set<string>, rest: set<NodeId>,
                             acc0: seq<SearchResult<V>>, saved0: set<string>)
    returns (acc: seq<SearchResult<V>>, saved: set<string>, rest': set<NodeId>)
    requires Counting(g, ps, names, root, search, minLength, matchUpToHere, consecutiveMatches,
                      leftOfFirstMatchingCharacter)
    requires consecutiveMatches < minLength && thisNodeMatches == (consecutiveMatches > 0)
    requires ps[matchUpToHere] == current
    requires forall s | s in own :: !(matchUpToHere < s)
    requires rest != {} && rest <= g[current].next
    requires Recorded(g, ps, search, minLength, acc0, saved0)
    requires saved0 == own + Hits(LegacyTries.TermsThrough(g, ps, matchUpToHere, g[current].next - rest), search, minLength)
    ensures rest' < rest && |rest'| < |rest|
    ensures Recorded(g, ps, search, minLength, acc, saved)
    ensures saved == own + Hits(LegacyTries.TermsThrough(g, ps, matchUpToHere, g[current].next - rest'), search, minLength)
    decreases |Walks.Extensions(ps, matchUpToHere)|, 2
  {
    var nextNode :| nextNode in rest;
    ghost var kids := g[current].next - rest;
    var nextNodeMatches := g[nextNode].str == [search[consecutiveMatches]];
    var newLeft := if !thisNodeMatches && nextNodeMatches then Some(current) else leftOfFirstMatchingCharacter;
    var newConsecutiveMatches := if nextNodeMatches then consecutiveMatches + 1 else 0;
    var q := matchUpToHere + g[nextNode].str;
    CountingChild(g, ps, names, root, search, minLength, matchUpToHere, consecutiveMatches,
                  leftOfFirstMatchingCharacter, nextNode, q, newConsecutiveMatches, newLeft);
    SavedElsewhere(g, ps, names, search, minLength, matchUpToHere, own, kids, nextNode, saved0);
    Walks.ExtensionsShrink(ps, matchUpToHere, q);
    acc, saved := BySubstring(g, ps, names, root, nextNode, newLeft, search, newConsecutiveMatches, minLength, q,
                              acc0, saved0);
    AfterChild(g, ps, names, search, minLength, matchUpToHere, kids, nextNode, own, saved0, saved);
    rest' := rest - {nextNode};
    OneMoreVisited(g[current].next, rest, nextNode);
  }

  /**
   * The traversal `matchBySubstring` starts at the root with nothing matched: it records, once
   * each, exactly the terms whose scan starts a match, each with its record.
   */
  method FindBySubstring<V>(g: LegacyTries.Table<V>, ghost ps: map<string, NodeId>, ghost names: map<NodeId, string>,
                            root: NodeId, search: string, minLength: int)
    returns (matches: seq<SearchResult<V>>)
    requires LegacyTries.Tree(g, ps, names) && ps[""] == root && 1 <= minLength <= |search|
    ensures forall r | r in matches :: Correct(g, ps, search, minLength, r)
    ensures Sorting.DistinctKeys(StrOf, matches)
    ensures Strs(matches) == Hits(LegacyTries.TermsFrom(g, ps, ""), search, minLength)
  {
    var alreadySaved;
    assert ps[""] == root && ScanOf(search, minLength, "") == Seeking(0);
    matches, alreadySaved := BySubstring(g, ps, names, root, root, None, search, 0, minLength, "", [], {});
  }

  // ---------------------------------------------------------------------------------------------
  // Ranking

  type Comparator<!T> = TrieSearchResults.Comparator<T>

  /** `comparingInt(SearchResult::lengthOfMatch).reversed()`. */
  function SortByLengthOfMatchLongestFirst<V>(): Comparator<SearchResult<V>> {
    TrieSearchResults.Reversed(TrieSearchResults.CompareBy((r: SearchResult<V>) => r.lengthOfMatch))
  }

  /** The flag comparison `bool1 == bool2 ? 0 : bool1 ? -1 : 1`: true sorts first. */
  function TrueFirst(b1: bool, b2: bool): int {
    if b1 == b2 then 0 else if b1 then -1 else 1
  }

  function SortByMatchedWholeWordTrueFirst<V>(): Comparator<SearchResult<V>> {
    (a: SearchResult<V>, b: SearchResult<V>) => TrueFirst(a.matchedWholeWord, b.matchedWholeWord)
  }

  /** `sortByBestMatchFirst`: longer run first, then whole-word matches first. */
  function SortByBestMatchFirst<V>(): Comparator<SearchResult<V>> {
    TrieSearchResults.ThenComparing(SortByLengthOfMatchLongestFirst(), SortByMatchedWholeWordTrueFirst())
  }

  /** `a` may come before `b` exactly when its run is longer, or as long and not a worse whole-word match. */
  lemma BestMatchFirstOrder<V>(a: SearchResult<V>, b: SearchResult<V>)
    ensures SortByBestMatchFirst()(a, b) <= 0 <==>
              a.lengthOfMatch > b.lengthOfMatch
              || (a.lengthOfMatch == b.lengthOfMatch && (a.matchedWholeWord || !b.matchedWholeWord))
    ensures SortByBestMatchFirst()(a, b) == -SortByBestMatchFirst()(b, a)
  {
    var byLength := SortByLengthOfMatchLongestFirst<V>();
    var byWhole := SortByMatchedWholeWordTrueFirst<V>();
    assert byLength(a, b) == TrieSearchResults.CompareInts(b.lengthOfMatch, a.lengthOfMatch);
    assert byLength(b, a) == TrieSearchResults.CompareInts(a.lengthOfMatch, b.lengthOfMatch);
    assert byWhole(a, b) == TrueFirst(a.matchedWholeWord, b.matchedWholeWord);
    assert byWhole(b, a) == TrueFirst(b.matchedWholeWord, a.matchedWholeWord);
  }

  /** The ranking orders any two results, transitively. */
  lemma BestMatchFirstTotal<V(!new)>()
    ensures Sorting.TotalPreorder(SortByBestMatchFirst<V>())
  {
    var cmp := SortByBestMatchFirst<V>();
    forall a, b
      ensures cmp(a, b) <= 0 || cmp(b, a) <= 0
    {
      BestMatchFirstOrder(a, b);
    }
    forall a, b, c | cmp(a, b) <= 0 && cmp(b, c) <= 0
      ensures cmp(a, c) <= 0
    {
      BestMatchFirstOrder(a, b);
      BestMatchFirstOrder(b, c);
      BestMatchFirstOrder(a, c);
    }
  }

  /**
   * `stream().sorted(sortByBestMatchFirst)`: a stable sort, here by insertion. The result is
   * ranked, holds the same records, and keeps their strings pairwise different.
   */
  method SortByBestMatch<V(!new)>(matches: seq<SearchResult<V>>) returns (sorted: seq<SearchResult<V>>)
    requires Sorting.DistinctKeys(StrOf, matches)
    ensures Sorting.Sorted(SortByBestMatchFirst(), sorted)
    ensures multiset(sorted) == multiset(matches)
    ensures Sorting.DistinctKeys(StrOf, sorted)
  {
    BestMatchFirstTotal<V>();
    sorted := [];
    for k := 0 to |matches|
      invariant Ranked(matches, k, sorted)
    {
      sorted := RankOneMore(matches, k, sorted);
    }
    assert matches[..|matches|] == matches;
  }

  /** After `k` insertions: the first `k` records, ranked, with pairwise different strings. */
  ghost predicate Ranked<V(!new)>(matches: seq<SearchResult<V>>, k: int, sorted: seq<SearchResult<V>>)
    requires 0 <= k <= |matches|
  {
    && Sorting.Sorted(SortByBestMatchFirst(), sorted)
    && Sorting.DistinctKeys(StrOf, sorted)
    && multiset(sorted) == multiset(matches[..k])
  }

  /** One insertion step of the ranking sort. */
  function RankOneMore<V(!new)>(matches: seq<SearchResult<V>>, k: int, sorted: seq<SearchResult<V>>): (r: seq<SearchResult<V>>)
    requires Sorting.DistinctKeys(StrOf, matches)
    requires 0 <= k < |matches| && Ranked(matches, k, sorted)
    requires Sorting.TotalPreorder(SortByBestMatchFirst<V>())
    ensures Ranked(matches, k + 1, r)
  {
    var cmp := SortByBestMatchFirst<V>();
    assert forall e | e in sorted :: StrOf(e) != StrOf(matches[k]) by {
      forall e | e in sorted
        ensures StrOf(e) != StrOf(matches[k])
      {
        assert e in multiset(matches[..k]);
        var j :| 0 <= j < k && matches[j] == e;
      }
    }
    Sorting.InsertDistinct(cmp, StrOf, sorted, matches[k]);
    assert matches[..k + 1] == matches[..k] + [matches[k]];
    Sorting.Insert(cmp, sorted, matches[k])
  }
}
