/** The three string operations the keyword matcher relies on: `str.lower`
    (restricted to ASCII), the substring test `k in s`, and `str.split(", ")`,
    together with the keyword score built from them. */
module Text {

  /** ASCII case mapping: 'A'..'Z' become 'a'..'z', every other character is kept. */
  function LowerChar(c: char): (d: char)
    ensures 'A' <= c <= 'Z' ==> 'a' <= d <= 'z' && d as int - c as int == 32
    ensures !('A' <= c <= 'Z') ==> d == c
    ensures !('A' <= d <= 'Z')
  {
    if 'A' <= c <= 'Z' then (c as int + 32) as char else c
  }

  /** `s.lower()`, character by character: the result has the same length and
      no upper-case ASCII letter left. */
  function Lower(s: string): (r: string)
    ensures |r| == |s|
    ensures IsLower(r)
  {
    seq(|s|, i requires 0 <= i < |s| => LowerChar(s[i]))
  }

  /** A lowered string has no upper-case letter left. */
  predicate IsLower(s: string) {
    forall i :: 0 <= i < |s| ==> !('A' <= s[i] <= 'Z')
  }

  /** Lowering twice is lowering once. */
  lemma {:induction false} LowerIdempotent(s: string)
    ensures Lower(Lower(s)) == Lower(s)
  {
    var l := Lower(s);
    assert forall i :: 0 <= i < |l| ==> Lower(l)[i] == LowerChar(l[i]) == l[i];
  }

  // ---------------------------------------------------------------------
  // Substring test: `k in s`

  /** Declarative meaning of `k in s`: `k` is a prefix of some suffix of `s`. */
  ghost predicate OccursIn(k: string, s: string) {
    exists i :: 0 <= i <= |s| && k <= s[i..]
  }

  /** `k in s`, computed by trying every start position from left to right. */
  function Contains(s: string, k: string): bool
    decreases |s|
  {
    if k <= s then true
    else if |s| <= |k| then false
    else Contains(s[1..], k)
  }

  /** The scan agrees with the declarative definition, both directions. */
  lemma {:induction false} ContainsIffOccurs(s: string, k: string)
    ensures Contains(s, k) <==> OccursIn(k, s)
    decreases |s|
  {
    if k <= s {
      assert s[0..] == s;
    } else if |s| <= |k| {
      forall i | 0 <= i <= |s| ensures !(k <= s[i..]) {
        if i > 0 { assert |s[i..]| < |k|; }
      }
    } else {
      ContainsIffOccurs(s[1..], k);
      if OccursIn(k, s[1..]) {
        var i :| 0 <= i <= |s| - 1 && k <= s[1..][i..];
        assert s[1..][i..] == s[i + 1..];
      }
      forall i | 1 <= i <= |s| && k <= s[i..] ensures OccursIn(k, s[1..]) {
        assert s[1..][i - 1..] == s[i..];
      }
      assert s[0..] == s;
    }
  }

  /** Occurrence is transitive: what occurs in `q` occurs in every string `q` occurs in. */
  lemma {:induction false} OccursTransitive(k: string, q: string, s: string)
    requires OccursIn(k, q) && OccursIn(q, s)
    ensures OccursIn(k, s)
  {
    var i :| 0 <= i <= |q| && k <= q[i..];
    var j :| 0 <= j <= |s| && q <= s[j..];
    forall t | 0 <= t < |k| ensures s[j + i..][t] == k[t] {
      assert k[t] == q[i + t] == s[j + i + t];
    }
  }

  /** The empty keyword occurs in every string, including the empty one. */
  lemma {:induction false} EmptyOccursEverywhere(s: string)
    ensures Contains(s, "")
  {
  }

  /** Only the empty keyword occurs in the empty string. */
  lemma {:induction false} OccursInEmpty(k: string)
    ensures Contains("", k) <==> k == ""
  {
  }

  // ---------------------------------------------------------------------
  // Splitting on the exact two-character separator ", "

  /** True when `s` has a comma immediately followed by a space. */
  predicate HasSeparator(s: string) {
    exists i :: 0 <= i < |s| - 1 && s[i] == ',' && s[i + 1] == ' '
  }

  /** `s.split(", ")`: pieces between the leftmost non-overlapping separators. */
  function Split(s: string): (parts: seq<string>)
    ensures |parts| >= 1
    decreases |s|
  {
    if |s| < 2 then [s]
    else if s[0] == ',' && s[1] == ' ' then [""] + Split(s[2..])
    else
      var rest := Split(s[1..]);
      [[s[0]] + rest[0]] + rest[1..]
  }

  /** `", ".join(parts)`. */
  function Join(parts: seq<string>): (s: string)
    requires |parts| >= 1
    decreases |parts|
  {
    if |parts| == 1 then parts[0] else parts[0] + ", " + Join(parts[1..])
  }

  /** Putting a character in front of the first piece puts it in front of the join. */
  lemma {:induction false} JoinConsFirst(c: char, parts: seq<string>)
    requires |parts| >= 1
    ensures Join([[c] + parts[0]] + parts[1..]) == [c] + Join(parts)
  {
    var moved := [[c] + parts[0]] + parts[1..];
    if |parts| > 1 {
      assert moved[1..] == parts[1..];
      assert Join(moved) == ([c] + parts[0]) + ", " + Join(parts[1..]);
      assert Join(parts) == parts[0] + ", " + Join(parts[1..]);
    }
  }

  /** Joining the pieces back with the separator gives the original string. */
  lemma {:induction false} JoinSplit(s: string)
    ensures Join(Split(s)) == s
    decreases |s|
  {
    if |s| < 2 {
    } else if s[0] == ',' && s[1] == ' ' {
      var rest := Split(s[2..]);
      JoinSplit(s[2..]);
      assert ([""] + rest)[1..] == rest;
      assert s == ", " + s[2..];
    } else {
      JoinSplit(s[1..]);
      JoinConsFirst(s[0], Split(s[1..]));
      assert s == [s[0]] + s[1..];
    }
  }

  /** Dropping the first character cannot create a separator. */
  lemma {:induction false} NoSeparatorInTail(s: string)
    requires |s| >= 1 && !HasSeparator(s)
    ensures !HasSeparator(s[1..])
  {
    assert forall i :: 0 <= i < |s| - 1 ==> s[1..][i] == s[i + 1];
  }

  /** Prepending a character creates a separator only when a comma lands
      right before a leading space. */
  lemma {:induction false} NoSeparatorCons(c: char, t: string)
    requires !HasSeparator(t)
    requires !(c == ',' && |t| >= 1 && t[0] == ' ')
    ensures !HasSeparator([c] + t)
  {
    var s := [c] + t;
    assert forall i :: 1 <= i < |s| ==> s[i] == t[i - 1];
  }

  /** The first piece is a prefix of the joined string. */
  lemma {:induction false} PrefixOfJoin(parts: seq<string>)
    requires |parts| >= 1
    ensures parts[0] <= Join(parts)
  {
  }

  /** No piece still holds a separator: every ", " was split on. */
  lemma {:induction false} SplitPiecesHaveNoSeparator(s: string)
    ensures forall p :: p in Split(s) ==> !HasSeparator(p)
    decreases |s|
  {
    if |s| < 2 {
      assert !HasSeparator(s);
    } else if s[0] == ',' && s[1] == ' ' {
      SplitPiecesHaveNoSeparator(s[2..]);
    } else {
      var rest := Split(s[1..]);
      SplitPiecesHaveNoSeparator(s[1..]);
      assert rest[0] in rest;
      if |rest[0]| >= 1 {
        // the first piece of s[1..] starts with s[1], which is not a space
        // when s[0] is a comma
        JoinSplit(s[1..]);
        PrefixOfJoin(rest);
        assert rest[0][0] == s[1];
      }
      NoSeparatorCons(s[0], rest[0]);
      forall p | p in rest[1..] ensures !HasSeparator(p) {
        assert p in rest;
      }
    }
  }

  /** A string without a separator is not split, so a comma that is not
      followed by a space stays inside its keyword. */
  lemma {:induction false} SplitWithoutSeparator(s: string)
    requires !HasSeparator(s)
    ensures Split(s) == [s]
    decreases |s|
  {
    if |s| >= 2 {
      assert !(s[0] == ',' && s[1] == ' ');
      NoSeparatorInTail(s);
      SplitWithoutSeparator(s[1..]);
      assert s == [s[0]] + s[1..];
    }
  }

  /** Split is the only way to cut `s` into separator-free pieces that join back to `s`. */
  lemma {:induction false} SplitUnique(s: string, parts: seq<string>)
    requires |parts| >= 1 && Join(parts) == s
    requires forall p :: p in parts ==> !HasSeparator(p)
    ensures parts == Split(s)
    decreases |s|
  {
    assert parts[0] in parts;
    if |parts| == 1 {
      SplitWithoutSeparator(s);
    } else if parts[0] == "" {
      assert s == ", " + Join(parts[1..]);
      assert s[2..] == Join(parts[1..]);
      forall p | p in parts[1..] ensures !HasSeparator(p) {
        assert p in parts;
      }
      SplitUnique(s[2..], parts[1..]);
      assert parts == [""] + parts[1..];
    } else {
      var p0 := parts[0];
      var tail := [p0[1..]] + parts[1..];
      assert Join(tail) == p0[1..] + ", " + Join(parts[1..]);
      assert s == p0 + ", " + Join(parts[1..]);
      assert s[1..] == Join(tail);
      NoSeparatorInTail(p0);
      forall p | p in tail ensures !HasSeparator(p) {
        if p != p0[1..] {
          assert p in parts[1..];
          assert p in parts;
        }
      }
      SplitUnique(s[1..], tail);
      // s cannot begin with a separator: either its first two characters lie
      // inside p0, or p0 is one character long and a comma follows it
      assert s[0] == p0[0];
      assert s[1] == if |p0| >= 2 then p0[1] else ',';
      assert !(s[0] == ',' && s[1] == ' ');
      assert p0 == [p0[0]] + p0[1..];
    }
  }

  // ---------------------------------------------------------------------
  // Score: how many keywords occur in the query

  /** `sum(1 for kw in keywords if kw in query)`: the keywords that occur in
      `query`, counted with multiplicity. */
  function Score(keywords: seq<string>, query: string): (n: nat)
    ensures n <= |keywords|
    ensures n == 0 ==> forall k :: k in keywords ==> !Contains(query, k)
    ensures (forall k :: k in keywords ==> !Contains(query, k)) ==> n == 0
    decreases |keywords|
  {
    if keywords == [] then 0
    else
      var init, last := keywords[..|keywords| - 1], keywords[|keywords| - 1];
      assert keywords == init + [last];
      assert last in keywords;
      Score(init, query) + (if Contains(query, last) then 1 else 0)
  }

  /** The positions of the keywords that occur in `query`. */
  ghost function Hits(keywords: seq<string>, query: string): set<nat> {
    set i: nat | i < |keywords| && Contains(query, keywords[i])
  }

  /** The score is the number of keyword positions that hit, so duplicated
      keywords each count. */
  lemma {:induction false} ScoreCountsHits(keywords: seq<string>, query: string)
    ensures Score(keywords, query) == |Hits(keywords, query)|
    decreases |keywords|
  {
    if keywords != [] {
      var n := |keywords| - 1;
      var init := keywords[..n];
      ScoreCountsHits(init, query);
      if Contains(query, keywords[n]) {
        assert Hits(keywords, query) == Hits(init, query) + {n};
      } else {
        assert Hits(keywords, query) == Hits(init, query);
      }
    } else {
      assert Hits(keywords, query) == {};
    }
  }

  /** Extending the query keeps every hit: if `q` occurs in `s`, the keywords
      score at least as much against `s` as against `q`. */
  lemma {:induction false} ScoreMonotone(keywords: seq<string>, q: string, s: string)
    requires OccursIn(q, s)
    ensures Score(keywords, q) <= Score(keywords, s)
    decreases |keywords|
  {
    if keywords != [] {
      var last := keywords[|keywords| - 1];
      ScoreMonotone(keywords[..|keywords| - 1], q, s);
      if Contains(q, last) {
        ContainsIffOccurs(q, last);
        OccursTransitive(last, q, s);
        ContainsIffOccurs(s, last);
      }
    }
  }
}
