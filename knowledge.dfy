/** The knowledge base and its keyword matcher (`KnowledgeBase.search`).
    The knowledge base is an ordered table of entries, in the insertion
    order of the dictionary it was loaded from; a query is answered with the
    answer of the entry whose keywords occur most often in the lowered query,
    the earliest such entry on a tie, or with a fixed fallback message. */
module Knowledge {
  import opened Text

  datatype Option<T> = None | Some(value: T)

  /** One knowledge-base record: the dictionary key and its `question`
      (a ", "-separated keyword list) and `answer` fields. */
  datatype Entry = Entry(key: string, question: string, answer: string)

  /** The reply when no entry scores above zero. */
  const Fallback: string := "I'm a KFC assistant. Ask me about menu, prices, or deals!"

  /** Dictionary keys are unique. */
  predicate DistinctKeys(kb: seq<Entry>) {
    forall i, j :: 0 <= i < j < |kb| ==> kb[i].key != kb[j].key
  }

  /** The keywords of an entry: its lowered question split on ", ". They are
      exactly the separator-free pieces that join back to the lowered question. */
  function Keywords(e: Entry): (ks: seq<string>)
    ensures |ks| >= 1 && Join(ks) == Lower(e.question)
    ensures forall k :: k in ks ==> !HasSeparator(k)
  {
    JoinSplit(Lower(e.question));
    SplitPiecesHaveNoSeparator(Lower(e.question));
    Split(Lower(e.question))
  }

  /** The score of an entry against an already lowered query: at most its
      number of keywords. */
  function EntryScore(e: Entry, ql: string): (n: nat)
    ensures n <= |Keywords(e)|
  {
    Score(Keywords(e), ql)
  }

  /** An entry scores between 0 and its number of keywords, and it scores 0
      exactly when none of its keywords occurs in the query. */
  lemma {:induction false} EntryScoreBounds(e: Entry, ql: string)
    ensures EntryScore(e, ql) <= |Keywords(e)|
    ensures EntryScore(e, ql) == |Hits(Keywords(e), ql)|
    ensures EntryScore(e, ql) == 0 <==> forall k :: k in Keywords(e) ==> !OccursIn(k, ql)
  {
    ScoreCountsHits(Keywords(e), ql);
    forall k | k in Keywords(e) {
      ContainsIffOccurs(ql, k);
    }
  }

  /** `max` with a key: scans left to right and replaces the current best only
      on a strictly larger value, so the result is the first maximum. */
  function FirstMax(s: seq<nat>): (i: nat)
    requires |s| > 0
    ensures i < |s|
    ensures forall j :: 0 <= j < |s| ==> s[j] <= s[i]
    ensures forall j :: 0 <= j < i ==> s[j] < s[i]
    decreases |s|
  {
    if |s| == 1 then 0
    else
      var j := FirstMax(s[..|s| - 1]);
      if s[|s| - 1] > s[j] then |s| - 1 else j
  }

  /** Entry `i` wins for the lowered query `ql`: it scores at least 1, no
      entry scores more, and every earlier entry scores strictly less. */
  ghost predicate IsWinner(kb: seq<Entry>, ql: string, i: int) {
    && 0 <= i < |kb|
    && EntryScore(kb[i], ql) >= 1
    && (forall j :: 0 <= j < |kb| ==> EntryScore(kb[j], ql) <= EntryScore(kb[i], ql))
    && (forall j :: 0 <= j < i ==> EntryScore(kb[j], ql) < EntryScore(kb[i], ql))
  }

  /** The index of the entry that answers `query`, or None for the fallback. */
  function Match(kb: seq<Entry>, query: string): (m: Option<nat>)
    ensures m.Some? ==> IsWinner(kb, Lower(query), m.value)
    ensures m.None? ==> forall i :: 0 <= i < |kb| ==> EntryScore(kb[i], Lower(query)) == 0
  {
    var ql := Lower(query);
    var s: seq<nat> := seq(|kb|, i requires 0 <= i < |kb| => EntryScore(kb[i], ql));
    assert forall j :: 0 <= j < |kb| ==> s[j] == EntryScore(kb[j], ql);
    if |s| == 0 then None
    else
      var i := FirstMax(s);
      if s[i] == 0 then None else Some(i)
  }

  /** The reply to `query`: the winner's answer, or the fallback message; so
      always the fallback text or the answer of some entry. */
  function Respond(kb: seq<Entry>, query: string): (r: string)
    ensures r == Fallback || exists i :: 0 <= i < |kb| && r == kb[i].answer
  {
    match Match(kb, query)
    case None => Fallback
    case Some(i) => kb[i].answer
  }

  /** There is at most one winner, so Match is exactly the winner. */
  lemma {:induction false} MatchIsTheWinner(kb: seq<Entry>, query: string, i: int)
    ensures Match(kb, query) == Some(i) <==> IsWinner(kb, Lower(query), i)
  {
    var ql := Lower(query);
    if IsWinner(kb, ql, i) {
      var m := Match(kb, query);
      assert m.Some? by {
        assert EntryScore(kb[i], ql) != 0;
      }
      var w := m.value;
      assert IsWinner(kb, ql, w);
      assert w == i;
    }
  }

  /** The fallback is chosen if and only if no keyword of any entry occurs in
      the lowered query; when no answer is the fallback text itself, this is
      also when the reply equals the fallback. */
  lemma {:induction false} FallbackIffNoKeywordOccurs(kb: seq<Entry>, query: string)
    ensures Match(kb, query) == None
        <==> forall i, k :: 0 <= i < |kb| && k in Keywords(kb[i]) ==> !OccursIn(k, Lower(query))
    ensures (forall i :: 0 <= i < |kb| ==> kb[i].answer != Fallback) ==>
              (Respond(kb, query) == Fallback <==>
               forall i, k :: 0 <= i < |kb| && k in Keywords(kb[i]) ==> !OccursIn(k, Lower(query)))
  {
    var ql := Lower(query);
    forall i | 0 <= i < |kb|
      ensures EntryScore(kb[i], ql) == 0 <==> forall k :: k in Keywords(kb[i]) ==> !OccursIn(k, ql)
    {
      EntryScoreBounds(kb[i], ql);
    }
    if Match(kb, query).Some? {
      var w := Match(kb, query).value;
      assert EntryScore(kb[w], ql) != 0;
    }
  }

  /** Queries that lower to the same string get the same reply; in
      particular the reply to `query` and to its lowered form agree. */
  lemma {:induction false} RespondIgnoresCase(kb: seq<Entry>, q1: string, q2: string)
    requires Lower(q1) == Lower(q2)
    ensures Match(kb, q1) == Match(kb, q2)
    ensures Respond(kb, q1) == Respond(kb, q2)
  {
  }

  /** The reply to a query and to its lowered form agree. */
  lemma {:induction false} RespondLowered(kb: seq<Entry>, query: string)
    ensures Respond(kb, Lower(query)) == Respond(kb, query)
  {
    LowerIdempotent(query);
    RespondIgnoresCase(kb, Lower(query), query);
  }

  /** An empty keyword occurs in every query, so an entry that has one always
      scores; an empty question is such an entry. */
  lemma {:induction false} EmptyKeywordAlwaysScores(e: Entry, ql: string)
    requires "" in Keywords(e)
    ensures EntryScore(e, ql) >= 1
  {
    EmptyOccursEverywhere(ql);
  }

  /** An empty question yields exactly one keyword, the empty one, so its
      entry scores 1 against every query. */
  lemma {:induction false} EmptyQuestionScoresOne(e: Entry, ql: string)
    requires e.question == ""
    ensures Keywords(e) == [""]
    ensures EntryScore(e, ql) == 1
  {
    assert Lower(e.question) == "";
    EmptyOccursEverywhere(ql);
  }

  /** The empty query gets the fallback exactly when no entry has an empty keyword. */
  lemma {:induction false} EmptyQueryFallback(kb: seq<Entry>)
    ensures Match(kb, "") == None <==> forall i :: 0 <= i < |kb| ==> "" !in Keywords(kb[i])
  {
    assert Lower("") == "";
    forall i | 0 <= i < |kb|
      ensures EntryScore(kb[i], "") == 0 <==> "" !in Keywords(kb[i])
    {
      forall k | k in Keywords(kb[i]) {
        OccursInEmpty(k);
      }
    }
    if Match(kb, "").Some? {
      var w := Match(kb, "").value;
      assert EntryScore(kb[w], "") != 0;
    }
  }

  /** When a later entry ties with an earlier one at the top score, the later
      one never answers: the winner is the earlier entry or one before it. */
  lemma {:induction false} TieGoesToEarlierEntry(kb: seq<Entry>, query: string, i: int, j: int)
    requires 0 <= i < j < |kb|
    requires EntryScore(kb[i], Lower(query)) == EntryScore(kb[j], Lower(query)) >= 1
    requires forall k :: 0 <= k < |kb| ==> EntryScore(kb[k], Lower(query)) <= EntryScore(kb[j], Lower(query))
    ensures Match(kb, query).Some? && Match(kb, query).value <= i
  {
    var ql := Lower(query);
    var m := Match(kb, query);
    assert m.Some? by {
      assert EntryScore(kb[i], ql) != 0;
    }
    assert m.value <= i by {
      assert EntryScore(kb[m.value], ql) == EntryScore(kb[i], ql);
    }
  }

  /** An entry that is the only one to score wins. */
  lemma {:induction false} SoleScorerWins(kb: seq<Entry>, query: string, i: int)
    requires 0 <= i < |kb| && EntryScore(kb[i], Lower(query)) >= 1
    requires forall j :: 0 <= j < |kb| && j != i ==> EntryScore(kb[j], Lower(query)) == 0
    ensures Respond(kb, query) == kb[i].answer
  {
    MatchIsTheWinner(kb, query, i);
  }

  /** `scores` lists, in knowledge-base order, the key and score of every entry
      before position `done` that scores above zero; `from` holds their positions. */
  ghost predicate ScoredUpTo(kb: seq<Entry>, ql: string, scores: seq<(string, nat)>,
                             from: seq<nat>, done: nat) {
    && done <= |kb| && |from| == |scores|
    && (forall m :: 0 <= m < |from| ==>
          from[m] < done && scores[m] == (kb[from[m]].key, EntryScore(kb[from[m]], ql))
          && scores[m].1 > 0)
    && (forall m, n :: 0 <= m < n < |from| ==> from[m] < from[n])
    && (forall j :: 0 <= j < done && EntryScore(kb[j], ql) > 0 ==> j in from)
  }

  /** Scoring entry `i` extends the list by that entry when it scores. */
  lemma {:induction false} ScoredUpToStep(kb: seq<Entry>, ql: string, scores: seq<(string, nat)>,
                       from: seq<nat>, i: nat)
    requires ScoredUpTo(kb, ql, scores, from, i) && i < |kb|
    ensures EntryScore(kb[i], ql) > 0 ==>
      ScoredUpTo(kb, ql, scores + [(kb[i].key, EntryScore(kb[i], ql))], from + [i], i + 1)
    ensures EntryScore(kb[i], ql) == 0 ==> ScoredUpTo(kb, ql, scores, from, i + 1)
  {
  }

  /** When no entry scores, Match chooses the fallback. */
  lemma {:induction false} NothingScoredIsFallback(kb: seq<Entry>, query: string, scores: seq<(string, nat)>,
                                from: seq<nat>)
    requires ScoredUpTo(kb, Lower(query), scores, from, |kb|) && scores == []
    ensures Match(kb, query) == None
  {
    assert from == [];
    assert forall j :: 0 <= j < |kb| ==> EntryScore(kb[j], Lower(query)) == 0;
  }

  /** The first maximum of the positive scores, listed in knowledge-base order,
      is the winner over all entries. */
  lemma {:induction false} FirstMaxOfPositivesWins(kb: seq<Entry>, ql: string, scores: seq<(string, nat)>,
                                from: seq<nat>, best: nat)
    requires ScoredUpTo(kb, ql, scores, from, |kb|) && best < |scores|
    requires forall n :: 0 <= n < |scores| ==> scores[n].1 <= scores[best].1
    requires forall n :: 0 <= n < best ==> scores[n].1 < scores[best].1
    ensures IsWinner(kb, ql, from[best])
  {
    var w := from[best];
    forall j | 0 <= j < |kb| && EntryScore(kb[j], ql) > 0
      ensures EntryScore(kb[j], ql) <= EntryScore(kb[w], ql)
      ensures j < w ==> EntryScore(kb[j], ql) < EntryScore(kb[w], ql)
    {
      var n :| 0 <= n < |from| && from[n] == j;
      if j < w {
        assert n < best;
      }
    }
  }

  /** `max(d, key=d.get)` over an insertion-ordered dictionary given as its
      list of (key, value) pairs: the position of the first largest value. */
  method MaxByValue<K>(d: seq<(K, nat)>) returns (best: nat)
    requires |d| > 0
    ensures best < |d|
    ensures forall n :: 0 <= n < |d| ==> d[n].1 <= d[best].1
    ensures forall n :: 0 <= n < best ==> d[n].1 < d[best].1
  {
    best := 0;
    for m := 1 to |d|
      invariant best < m
      invariant forall n :: 0 <= n < m ==> d[n].1 <= d[best].1
      invariant forall n :: 0 <= n < best ==> d[n].1 < d[best].1
    {
      if d[m].1 > d[best].1 {
        best := m;
      }
    }
  }

  /** The entry for a key: `kb[key]`. */
  function Lookup(kb: seq<Entry>, key: string): (e: Entry)
    requires exists i :: 0 <= i < |kb| && kb[i].key == key
    ensures e in kb && e.key == key
    decreases |kb|
  {
    if kb[0].key == key then kb[0]
    else
      assert exists i :: 0 <= i < |kb[1..]| && kb[1..][i].key == key by {
        var i :| 0 <= i < |kb| && kb[i].key == key;
        assert kb[1..][i - 1].key == key;
      }
      Lookup(kb[1..], key)
  }

  /** The knowledge base, loaded once and only read afterwards. */
  class KnowledgeBase {
    const kb: seq<Entry>

    constructor (entries: seq<Entry>)
      requires DistinctKeys(entries)
      ensures kb == entries
    {
      kb := entries;
    }

    /** Answers `query`. `scores` is an insertion-ordered dictionary from the
        keys of the entries that score to their scores; since the keys of
        `kb` are distinct, each insertion appends. */
    method Search(query: string) returns (r: string)
      requires DistinctKeys(kb)
      ensures r == Respond(kb, query)
      ensures r == Fallback || exists i :: 0 <= i < |kb| && r == kb[i].answer
    {
      var queryLower := Lower(query);
      var scores: seq<(string, nat)> := [];
      ghost var from: seq<nat> := [];  // the position in kb of each entry of scores
      for i := 0 to |kb|
        invariant ScoredUpTo(kb, queryLower, scores, from, i)
      {
        var keywords := Keywords(kb[i]);
        var score := Score(keywords, queryLower);
        ScoredUpToStep(kb, queryLower, scores, from, i);
        if score > 0 {
          scores := scores + [(kb[i].key, score)];
          from := from + [i];
        }
      }

      if |scores| == 0 {
        NothingScoredIsFallback(kb, query, scores, from);
        return Fallback;
      }

      var best := MaxByValue(scores);
      var bestKey := scores[best].0;
      var entry := Lookup(kb, bestKey);
      r := entry.answer;

      ghost var w := from[best];
      assert entry == kb[w] by {
        var j :| 0 <= j < |kb| && kb[j] == entry;
        assert kb[j].key == kb[w].key;
      }
      FirstMaxOfPositivesWins(kb, queryLower, scores, from, best);
      MatchIsTheWinner(kb, query, w);
    }
  }
}
