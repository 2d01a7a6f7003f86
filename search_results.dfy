/**
 * The records that the search-results list of the Tribler web UI holds, the
 * `type` tag the service stamps on them, and the order by descending
 * `relevance_score` that the list is put in after each torrent result.
 */
module SearchResults {
  import opened Wrappers

  /**
   * A torrent or channel record as the backend sends it. `key` stands for the
   * attributes the web UI passes through untouched (infohash or id, name,
   * ...); `tag` is the synthetic `type` field, absent until a tag is stamped.
   */
  datatype Entry = Entry(key: string, relevanceScore: int, torrents: int, tag: Option<string>)

  /** The record with its `type` field set to `t`, whatever it held before. */
  function Tag(e: Entry, t: string): Entry
  {
    e.(tag := Some(t))
  }

  /** Every record of `s`, in order, with its `type` field set to `t`. */
  function Tagged(s: seq<Entry>, t: string): seq<Entry>
  {
    if s == [] then [] else [Tag(s[0], t)] + Tagged(s[1..], t)
  }

  /** Tagging keeps the length and the order, and changes nothing but the tag. */
  lemma {:induction false} TaggedAt(s: seq<Entry>, t: string, i: nat)
    requires i < |s|
    ensures |Tagged(s, t)| == |s|
    ensures Tagged(s, t)[i] == s[i].(tag := Some(t))
  {
    if i > 0 {
      TaggedAt(s[1..], t, i - 1);
    } else {
      TaggedLength(s[1..], t);
    }
  }

  lemma {:induction false} TaggedLength(s: seq<Entry>, t: string)
    ensures |Tagged(s, t)| == |s|
  {
    if s != [] {
      TaggedLength(s[1..], t);
    }
  }

  /** Only the last tag stamped on a list survives; in particular tagging twice with the same tag is tagging once. */
  lemma {:induction false} TaggedTwice(s: seq<Entry>, t1: string, t2: string)
    ensures Tagged(Tagged(s, t1), t2) == Tagged(s, t2)
  {
    if s != [] {
      TaggedTwice(s[1..], t1, t2);
    }
  }

  /** Non-increasing by relevance score: what the comparator of the torrent-result sort asks for. */
  predicate SortedByRelevance(s: seq<Entry>)
  {
    forall i, j :: 0 <= i < j < |s| ==> s[i].relevanceScore >= s[j].relevanceScore
  }

  /** No two records of `s` share a relevance score. */
  predicate DistinctScores(s: seq<Entry>)
  {
    forall i, j :: 0 <= i < j < |s| ==> s[i].relevanceScore != s[j].relevanceScore
  }

  /**
   * Two orderings of the same records by non-increasing relevance coincide
   * when the scores are distinct: the sort's outcome is then determined,
   * whatever the sort does with equal scores.
   */
  lemma {:induction false} SortedPermutationUnique(s: seq<Entry>, t: seq<Entry>)
    requires SortedByRelevance(s) && SortedByRelevance(t)
    requires multiset(s) == multiset(t)
    requires DistinctScores(t)
    ensures s == t
  {
    assert |s| == |multiset(s)| == |multiset(t)| == |t|;
    if s != [] {
      SortedHeadsAgree(s, t);
      assert s == [s[0]] + s[1..];
      assert t == [t[0]] + t[1..];
      assert multiset(s[1..]) == multiset(s) - multiset{s[0]};
      assert multiset(t[1..]) == multiset(t) - multiset{t[0]};
      SortedPermutationUnique(s[1..], t[1..]);
    }
  }

  /** The first record of each ordering has the top score, which only one record of `t` carries. */
  lemma SortedHeadsAgree(s: seq<Entry>, t: seq<Entry>)
    requires SortedByRelevance(s) && SortedByRelevance(t)
    requires multiset(s) == multiset(t) && s != [] && t != []
    requires DistinctScores(t)
    ensures s[0] == t[0]
  {
    assert s[0] in multiset(t);
    var k :| 0 <= k < |t| && t[k] == s[0];
    assert t[0] in multiset(s);
    var m :| 0 <= m < |s| && s[m] == t[0];
    assert t[k].relevanceScore == t[0].relevanceScore;
    assert k == 0;
  }

  /**
   * Inserts `x` into the list `s`, sorted by relevance, after the records
   * whose score is at least that of `x`.
   */
  method InsertByRelevance(s: seq<Entry>, x: Entry) returns (r: seq<Entry>)
    requires SortedByRelevance(s)
    ensures SortedByRelevance(r)
    ensures multiset(r) == multiset(s) + multiset{x}
  {
    var k := 0;
    while k < |s| && s[k].relevanceScore >= x.relevanceScore
      invariant 0 <= k <= |s|
      invariant forall i :: 0 <= i < k ==> s[i].relevanceScore >= x.relevanceScore
    {
      k := k + 1;
    }
    r := s[..k] + [x] + s[k..];
    assert s == s[..k] + s[k..];
  }

  /**
   * The re-sort after a torrent result: the same records, ordered by
   * non-increasing relevance score. Nothing is promised about the relative
   * order of records with equal scores.
   */
  method SortByRelevance(s: seq<Entry>) returns (r: seq<Entry>)
    ensures SortedByRelevance(r)
    ensures multiset(r) == multiset(s)
  {
    r := [];
    var i := 0;
    while i < |s|
      invariant 0 <= i <= |s|
      invariant SortedByRelevance(r)
      invariant multiset(r) == multiset(s[..i])
    {
      r := InsertByRelevance(r, s[i]);
      assert s[..i + 1] == s[..i] + [s[i]];
      i := i + 1;
    }
    assert s[..i] == s;
  }
}
