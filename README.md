# Keyword matcher of the voice FAQ assistant

This project models the query-matching core of a voice-driven FAQ assistant:
`KnowledgeBase.search` in `render_app.py`. The knowledge base is a dictionary
from entry key to a record with a `question` field (a `", "`-separated list of
trigger keywords) and an `answer` field. A query is lowered; every entry's
question is lowered and split on `", "`; an entry scores one point for every
keyword, counted with multiplicity, that occurs as a substring of the lowered
query; entries scoring 0 are dropped; if none remain the fixed fallback
"I'm a KFC assistant. Ask me about menu, prices, or deals!" is returned,
otherwise the answer of the entry with the highest score, the earliest entry
in dictionary order on a tie (Python's `max` keeps the first maximum).

Files:

- `text.dfy`, module `Text`: the string operations the matcher uses. `Lower`
  is `str.lower` over ASCII; `Contains` is the substring test `k in s`, proved
  equal to the declarative `OccursIn`; `Split` is `str.split(", ")`, proved to
  be the unique cut into separator-free pieces that `Join` reassembles; `Score`
  is the keyword count of line 37.
- `knowledge.dfy`, module `Knowledge`: the `Entry` record, the fallback text,
  the pure specification of the matcher (`Match` gives the winning position or
  `None`, `Respond` the reply; `IsWinner` states what winning means), and the
  class `KnowledgeBase` whose `kb` field is set once by the constructor and
  whose `Search` method follows the source loop by loop: it builds the
  insertion-ordered `scores` dictionary, takes `max` by value (`MaxByValue`),
  and looks the winning key up in `kb` (`Lookup`). `Search` is proved to return
  exactly `Respond(kb, query)`.

The dictionary is modelled as a sequence of `Entry(key, question, answer)` in
its insertion order, with distinct keys (`DistinctKeys`) as the constructor's
and `Search`'s precondition, since a Python dictionary cannot hold a key
twice. Because of that, every insertion into `scores` appends.

`kb` is a `const` field and `Search` has no `modifies` clause, so the model
states by construction that searching never changes the knowledge base.

Behaviour of render_app.py worth noting:

- An empty keyword occurs in every string (`"" in s` is true in Python), so
  an entry whose question is empty, or has an empty piece such as the middle
  one of `"a, , b"`, scores against every query, the empty query included.
  The empty query therefore gets the fallback only when no entry has an empty
  keyword (`EmptyQueryFallback`).
- The question field need not be lower-case: `search` lowers it before
  splitting, and the model does the same.
- Keywords are matched as substrings, not words: the keyword `deals` does not
  occur in "any deal today", while `deal` occurs in "any deals".

## Model

| member | source | states |
|---|---|---|
| Text.Lower | render_app.py:32-36 | `str.lower` over ASCII keeps the length and leaves no upper-case letter |
| Text.LowerIdempotent | render_app.py:32 | lowering a lowered string changes nothing |
| Text.Contains | render_app.py:37 | the scan for `kw in query_lower`; its own contract states nothing, its meaning is given by `ContainsIffOccurs` |
| Text.ContainsIffOccurs | render_app.py:37 | the left-to-right scan for `kw in query_lower` is true exactly when the keyword is a prefix of some suffix of the query (both directions) |
| Text.OccursTransitive | render_app.py:37 | a keyword occurring in `q` occurs in every string containing `q` |
| Text.EmptyOccursEverywhere | render_app.py:37 | the empty keyword occurs in every query, the empty one included |
| Text.OccursInEmpty | render_app.py:37 | only the empty keyword occurs in the empty query |
| Text.Split | render_app.py:36 | `split(", ")` returns at least one piece; `JoinSplit`, `SplitPiecesHaveNoSeparator` and `SplitUnique` give its meaning |
| Text.JoinSplit | render_app.py:36 | joining the pieces of `split(", ")` back with `", "` gives the original string |
| Text.SplitPiecesHaveNoSeparator | render_app.py:36 | no piece of the split contains a comma followed by a space |
| Text.SplitWithoutSeparator | render_app.py:36 | a string without `", "` is a single keyword, so a comma not followed by a space does not split |
| Text.SplitUnique | render_app.py:36 | any list of separator-free pieces that joins back to `s` is exactly the split of `s` |
| Text.Score | render_app.py:37 | the score is at most the number of keywords and is 0 exactly when no keyword occurs in the query |
| Text.ScoreCountsHits | render_app.py:37 | the score is the number of keyword positions that occur in the query, so a repeated keyword counts each time |
| Text.ScoreMonotone | render_app.py:37 | extending the query (any string containing it) never lowers an entry's score |
| Knowledge.Keywords | render_app.py:36 | an entry's keywords are at least one separator-free piece and join back to its lowered question |
| Knowledge.EntryScore | render_app.py:36-37 | an entry's score against the lowered query is at most its number of keywords |
| Knowledge.EntryScoreBounds | render_app.py:36-37 | an entry's score lies between 0 and its keyword count, equals its number of hits, and is 0 exactly when none of its keywords occurs in the lowered query |
| Knowledge.FirstMax | render_app.py:44 | `max` by value returns a position holding the largest value with every earlier value strictly smaller |
| Knowledge.Match | render_app.py:35-45 | a chosen entry scores at least 1, no entry scores more and every earlier entry scores less; no entry is chosen only when every entry scores 0 |
| Knowledge.MatchIsTheWinner | render_app.py:35-45 | the chosen entry is exactly the unique entry meeting the winning condition (both directions), so ties go to the earliest entry |
| Knowledge.Respond | render_app.py:41-45 | the reply is the fallback text or the answer of some entry; which one is given by `Match` and `MatchIsTheWinner` |
| Knowledge.FallbackIffNoKeywordOccurs | render_app.py:36-42 | the fallback is chosen if and only if no keyword of any entry occurs in the lowered query; when no answer equals the fallback text, the reply is the fallback under the same condition |
| Knowledge.RespondIgnoresCase | render_app.py:32-37 | two queries that lower to the same string get the same choice and the same reply |
| Knowledge.RespondLowered | render_app.py:32 | a query and its lowered form get the same reply |
| Knowledge.EmptyKeywordAlwaysScores | render_app.py:36-37 | an entry with an empty keyword scores at least 1 against every query |
| Knowledge.EmptyQuestionScoresOne | render_app.py:36-37 | an empty question splits into the single empty keyword and scores exactly 1 against every query |
| Knowledge.EmptyQueryFallback | render_app.py:32-42 | the empty query gets the fallback if and only if no entry has an empty keyword |
| Knowledge.TieGoesToEarlierEntry | render_app.py:35-45 | when a later entry ties with an earlier one at the top score, some entry is chosen and it is the earlier one or one before it, never the later one |
| Knowledge.SoleScorerWins | render_app.py:38-45 | when exactly one entry scores, its answer is returned |
| Knowledge.ScoredUpToStep | render_app.py:35-39 | scoring the next entry appends its key and score to `scores` when the score is positive and leaves `scores` alone otherwise |
| Knowledge.NothingScoredIsFallback | render_app.py:41-42 | an empty `scores` dictionary after the loop means the specification chooses the fallback |
| Knowledge.FirstMaxOfPositivesWins | render_app.py:44 | the first maximum among the positive scores, in dictionary order, is the winner over all entries |
| Knowledge.MaxByValue | render_app.py:44 | `max(scores, key=scores.get)` returns the position of the first largest value |
| Knowledge.Lookup | render_app.py:45 | `self.kb[best_key]` returns an entry of the knowledge base with that key |
| Knowledge.KnowledgeBase.constructor | render_app.py:26-28 | the knowledge base holds the given entries, whose keys are distinct |
| Knowledge.KnowledgeBase.Search | render_app.py:31-45 | the reply equals the specification `Respond`: the earliest highest-scoring entry's answer, or the fallback when nothing scores |

## Left out

- The Flask application, CORS and the routes `index`, `status`, `process` and `serve_audio` (render_app.py:13-14, 93-148): HTTP plumbing and file serving.
- `SpeechProcessor` (render_app.py:48-86): wraps audio conversion, speech recognition and speech synthesis services whose code is not part of this model.
- Reading and parsing the JSON file in `KnowledgeBase.__init__`, the `Config` paths and the temporary directory (render_app.py:17-29): I/O; the constructor takes the already loaded entries.
- Entries with a missing or non-string `question`/`answer` field: a missing field raises `KeyError` at render_app.py:36 or :45, a non-string `question` raises `AttributeError` on `.lower()` at :36, and a non-string `answer` would be returned unchanged at :45; the `Entry` datatype always has both fields as strings.
- Python's full Unicode `str.lower`: `Lower` maps only the ASCII letters A-Z.
- The `print` calls (render_app.py:29, 123, 127, 138-139): logging only.
- Knowledge.MaxByValue: requires a non-empty dictionary, where Python's `max` would raise `ValueError`; `search` only calls it after returning early on an empty `scores`.
