/** The page-level helpers of `scraper.py`: tokenizing, counting words, merging
    word counts, the scope filter for URLs, and the filter over a page's links. */
module Scraper {
  import opened Common
  import opened Dicts

  /** A word-frequency dictionary: token -> number of occurrences. */
  type Freqs = Dict<string, int>

  predicate Unique<T(==)>(s: seq<T>)
  {
    forall i, j :: 0 <= i < j < |s| ==> s[i] != s[j]
  }

  // ---------------------------------------------------------------- tokenize

  /** `tokenize(text)`: one lower-cased token per match of the word pattern, in
      match order. The matcher `re.findall(r"\b\S+\b", ·)` is a parameter. */
  method Tokenize(text: string, findall: string -> seq<string>) returns (tokens: seq<string>)
    ensures |tokens| == |findall(text)|
    ensures forall i :: 0 <= i < |tokens| ==> tokens[i] == Lower(findall(text)[i])
  {
    tokens := [];
    var words := findall(text);
    for i := 0 to |words|
      invariant |tokens| == i
      invariant forall j :: 0 <= j < i ==> tokens[j] == Lower(words[j])
    {
      tokens := tokens + [Lower(words[i])];
    }
  }

  // ------------------------------------------------ compute_word_frequencies

  /** The distinct elements of `s`, in the order of their first occurrence. */
  function FirstOccurrences(s: seq<string>): (r: seq<string>)
    ensures forall t :: t in r <==> t in s
  {
    if s == [] then []
    else
      var p := FirstOccurrences(s[..|s| - 1]);
      var t := s[|s| - 1];
      assert s == s[..|s| - 1] + [t];
      if t in p then p else p + [t]
  }

  /** Reference definition of the counts of `tokens`: one item per distinct
      token, in first-occurrence order, holding its number of occurrences. */
  function FrequencyDict(tokens: seq<string>): Freqs
  {
    var ks := FirstOccurrences(tokens);
    seq(|ks|, i requires 0 <= i < |ks| => (ks[i], multiset(tokens)[ks[i]]))
  }

  lemma FrequencyDictFacts(tokens: seq<string>)
    ensures IsDict(FrequencyDict(tokens))
    ensures Keys(FrequencyDict(tokens)) == FirstOccurrences(tokens)
    ensures forall t :: Get(FrequencyDict(tokens), t, 0) == multiset(tokens)[t]
  {
    var d := FrequencyDict(tokens);
    assert Keys(d) == FirstOccurrences(tokens);
    forall t
      ensures Get(d, t, 0) == multiset(tokens)[t]
    {
      FrequencyDictGet(tokens, t);
    }
  }

  lemma FrequencyDictGet(tokens: seq<string>, t: string)
    requires IsDict(FrequencyDict(tokens)) && Keys(FrequencyDict(tokens)) == FirstOccurrences(tokens)
    ensures Get(FrequencyDict(tokens), t, 0) == multiset(tokens)[t]
  {
    var d := FrequencyDict(tokens);
    if t in Keys(d) {
      var i :| 0 <= i < |d| && Keys(d)[i] == t;
      LookupAt(d, i);
    }
  }

  /** Counting one more token updates its entry in place or appends it. */
  lemma FrequencyDictSnoc(s: seq<string>, t: string)
    ensures FrequencyDict(s + [t]) == Put(FrequencyDict(s), t, Get(FrequencyDict(s), t, 0) + 1)
  {
    var s' := s + [t];
    assert s'[..|s'| - 1] == s;
    assert multiset(s') == multiset(s) + multiset{t};
    FrequencyDictFacts(s);
    var d := FrequencyDict(s);
    if t in FirstOccurrences(s) {
      assert FirstOccurrences(s') == FirstOccurrences(s);
      var at := IndexOf(d, t);
      LookupAt(d, at);
      PutExisting(d, t, multiset(s)[t] + 1);
      RecountSeen(s, t, at);
    } else {
      assert FirstOccurrences(s') == FirstOccurrences(s) + [t];
      PutNew(d, t, 1);
      RecountNew(s, t);
    }
  }

  lemma FirstOccurrencesUnique(s: seq<string>)
    ensures Unique(FirstOccurrences(s))
  {
    if s != [] {
      FirstOccurrencesUnique(s[..|s| - 1]);
    }
  }

  lemma RecountSeen(s: seq<string>, t: string, at: nat)
    requires FirstOccurrences(s + [t]) == FirstOccurrences(s)
    requires at < |FirstOccurrences(s)| && FirstOccurrences(s)[at] == t
    ensures FrequencyDict(s + [t]) == FrequencyDict(s)[at := (t, multiset(s)[t] + 1)]
  {
    var ks := FirstOccurrences(s);
    FirstOccurrencesUnique(s);
    var e := FrequencyDict(s + [t]);
    var r := FrequencyDict(s)[at := (t, multiset(s)[t] + 1)];
    forall i | 0 <= i < |ks|
      ensures e[i] == r[i]
    {
      RecountItem(s, t, i);
    }
  }

  lemma RecountNew(s: seq<string>, t: string)
    requires t !in s && FirstOccurrences(s + [t]) == FirstOccurrences(s) + [t]
    ensures FrequencyDict(s + [t]) == FrequencyDict(s) + [(t, 1)]
  {
    var ks := FirstOccurrences(s);
    var e := FrequencyDict(s + [t]);
    var r := FrequencyDict(s) + [(t, 1)];
    forall i | 0 <= i < |ks| + 1
      ensures e[i] == r[i]
    {
      RecountItem(s, t, i);
    }
  }

  /** One item of the recount: the new token's count goes up by one, every
      other key keeps its count. */
  lemma RecountItem(s: seq<string>, t: string, i: nat)
    requires i < |FirstOccurrences(s + [t])|
    ensures var k := FirstOccurrences(s + [t])[i];
      FrequencyDict(s + [t])[i] == (k, multiset(s)[k] + if k == t then 1 else 0)
  {
    var k := FirstOccurrences(s + [t])[i];
    assert FrequencyDict(s + [t])[i] == (k, multiset(s + [t])[k]);
    CountSnoc(s, t, k);
  }

  lemma CountSnoc(s: seq<string>, t: string, k: string)
    ensures multiset(s + [t])[k] == multiset(s)[k] + if k == t then 1 else 0
  {
    assert multiset(s + [t]) == multiset(s) + multiset{t};
  }

  /** `compute_word_frequencies(tokens)`. */
  method ComputeWordFrequencies(tokens: seq<string>) returns (count: Freqs)
    ensures count == FrequencyDict(tokens)
    ensures IsDict(count)
    ensures forall t :: t in Keys(count) <==> t in tokens
    ensures forall t :: Get(count, t, 0) == multiset(tokens)[t]
  {
    count := [];
    CountEnds(tokens);
    for i := 0 to |tokens|
      invariant count == FrequencyDict(tokens[..i])
    {
      var t := tokens[i];
      CountStep(tokens, i, count);
      if t !in Keys(count) {
        count := Put(count, t, 1);
      } else {
        count := Put(count, t, Get(count, t, 0) + 1);
      }
    }
  }

  lemma CountEnds(tokens: seq<string>)
    ensures FrequencyDict(tokens[..0]) == []
    ensures FrequencyDict(tokens[..|tokens|]) == FrequencyDict(tokens)
    ensures IsDict(FrequencyDict(tokens))
    ensures forall t :: t in Keys(FrequencyDict(tokens)) <==> t in tokens
    ensures forall t :: Get(FrequencyDict(tokens), t, 0) == multiset(tokens)[t]
  {
    assert tokens[..0] == [];
    assert tokens[..|tokens|] == tokens;
    FrequencyDictFacts(tokens);
  }

  /** One iteration of the counting loop. */
  lemma CountStep(tokens: seq<string>, i: nat, count: Freqs)
    requires i < |tokens| && count == FrequencyDict(tokens[..i])
    ensures var t := tokens[i];
      (if t !in Keys(count) then Put(count, t, 1) else Put(count, t, Get(count, t, 0) + 1))
        == FrequencyDict(tokens[..i + 1])
  {
    assert tokens[..i + 1] == tokens[..i] + [tokens[i]];
    FrequencyDictSnoc(tokens[..i], tokens[i]);
  }

  /** Sum of the values of a dictionary. */
  function Total(d: Freqs): int
  {
    if d == [] then 0 else Total(d[..|d| - 1]) + d[|d| - 1].1
  }

  lemma {:induction false} TotalUpdate(d: Freqs, i: nat, x: (string, int))
    requires i < |d|
    ensures Total(d[i := x]) == Total(d) - d[i].1 + x.1
    decreases |d|
  {
    var n := |d| - 1;
    var d' := d[i := x];
    assert d'[..n] == if i == n then d[..n] else d[..n][i := x];
    if i < n {
      TotalUpdate(d[..n], i, x);
    }
  }

  lemma TotalPut(d: Freqs, k: string, v: int)
    ensures Total(Put(d, k, v)) == Total(d) - Get(d, k, 0) + v
  {
    if k in Keys(d) {
      PutExisting(d, k, v);
      TotalUpdate(d, IndexOf(d, k), (k, v));
    } else {
      PutNew(d, k, v);
      assert (d + [(k, v)])[..|d|] == d;
    }
  }

  /** The counts add up to the number of tokens. */
  lemma {:induction false} CountsSumToLength(tokens: seq<string>)
    ensures Total(FrequencyDict(tokens)) == |tokens|
    decreases |tokens|
  {
    if tokens == [] {
    } else {
      var n := |tokens| - 1;
      var s := tokens[..n];
      assert tokens == s + [tokens[n]];
      CountsSumToLength(s);
      FrequencyDictSnoc(s, tokens[n]);
      TotalPut(FrequencyDict(s), tokens[n], Get(FrequencyDict(s), tokens[n], 0) + 1);
    }
  }

  // ---------------------------------------------------------- add_word_freqs

  /** The items of `s` whose keys `big` does not have, in their order. */
  function Extra(big: Freqs, s: Freqs): (r: Freqs)
    ensures forall k :: k in Keys(r) <==> k in Keys(s) && k !in Keys(big)
  {
    if s == [] then []
    else
      var n := |s| - 1;
      var p := Extra(big, s[..n]);
      assert Keys(s) == Keys(s[..n]) + [s[n].0];
      if s[n].0 in Keys(big) then p
      else
        assert Keys(p + [s[n]]) == Keys(p) + [s[n].0];
        p + [s[n]]
  }

  /** Reference definition of `freq_count1` after the loop: the items of the
      larger dict `big` in their places with the smaller dict's counts added,
      followed by the items of `small` that were new to `big`. */
  function Combine(big: Freqs, small: Freqs): Freqs
  {
    seq(|big|, i requires 0 <= i < |big| => (big[i].0, big[i].1 + Get(small, big[i].0, 0))) + Extra(big, small)
  }

  /** `add_word_freqs(f1, f2)` as a value: the smaller dict is added into (a copy
      of) the larger one, `f1` counting as the larger on a tie. */
  function Merged(f1: Freqs, f2: Freqs): Freqs
  {
    if |f1| < |f2| then Combine(f2, f1) else Combine(f1, f2)
  }

  lemma KeysOfCombine(big: Freqs, small: Freqs)
    ensures Keys(Combine(big, small)) == Keys(big) + Keys(Extra(big, small))
  {
  }

  /** Adding one more item of the smaller dict. */
  lemma CombineSnoc(big: Freqs, s: Freqs, x: (string, int))
    requires IsDict(big) && x.0 !in Keys(s)
    ensures Combine(big, s + [x]) == Put(Combine(big, s), x.0, Get(Combine(big, s), x.0, 0) + x.1)
  {
    var c := Combine(big, s);
    if x.0 in Keys(big) {
      var at := IndexOf(big, x.0);
      CombineSeen(big, s, x, at);
      PutExisting(c, x.0, big[at].1 + x.1);
    } else {
      CombineFresh(big, s, x);
      PutNew(c, x.0, x.1);
    }
  }

  lemma CombineItem(big: Freqs, s: Freqs, x: (string, int), i: nat)
    requires x.0 !in Keys(s) && i < |big|
    ensures Combine(big, s + [x])[i] == (big[i].0, Combine(big, s)[i].1 + if big[i].0 == x.0 then x.1 else 0)
    ensures Combine(big, s)[i] == (big[i].0, big[i].1 + Get(s, big[i].0, 0))
  {
    GetSnoc(s, x, big[i].0);
  }

  lemma CombineSeen(big: Freqs, s: Freqs, x: (string, int), at: nat)
    requires IsDict(big) && x.0 !in Keys(s) && at < |big| && big[at].0 == x.0
    ensures x.0 in Keys(Combine(big, s)) && IndexOf(Combine(big, s), x.0) == at && Get(Combine(big, s), x.0, 0) == big[at].1
    ensures Combine(big, s + [x]) == Combine(big, s)[at := (x.0, big[at].1 + x.1)]
  {
    var c := Combine(big, s);
    var c' := Combine(big, s + [x]);
    assert (s + [x])[..|s|] == s;
    assert Extra(big, s + [x]) == Extra(big, s) by {
      assert Keys(big)[at] == x.0;
    }
    forall i | 0 <= i < |big| && i != at
      ensures c'[i] == c[i]
    {
      CombineItem(big, s, x, i);
    }
    CombineItem(big, s, x, at);
    forall i | 0 <= i < at
      ensures c[i].0 != x.0
    {
      CombineItem(big, s, x, i);
    }
    IndexOfFirst(c, x.0, at);
    assert Get(s, x.0, 0) == 0;
  }

  lemma CombineFresh(big: Freqs, s: Freqs, x: (string, int))
    requires x.0 !in Keys(s) && x.0 !in Keys(big)
    ensures x.0 !in Keys(Combine(big, s))
    ensures Get(Combine(big, s), x.0, 0) == 0
    ensures Combine(big, s + [x]) == Combine(big, s) + [x]
  {
    var c := Combine(big, s);
    var c' := Combine(big, s + [x]);
    assert (s + [x])[..|s|] == s;
    assert Extra(big, s + [x]) == Extra(big, s) + [x];
    KeysOfCombine(big, s);
    forall i | 0 <= i < |big|
      ensures c'[i] == c[i]
    {
      assert Keys(big)[i] == big[i].0;
      CombineItem(big, s, x, i);
    }
  }

  lemma GetSnoc(s: Freqs, x: (string, int), k: string)
    requires x.0 !in Keys(s)
    ensures Get(s + [x], k, 0) == Get(s, k, 0) + if k == x.0 then x.1 else 0
  {
    var s' := s + [x];
    assert Keys(s') == Keys(s) + [x.0];
    if k in Keys(s) {
      var i := IndexOf(s, k);
      assert s'[i] == s[i];
      IndexOfFirst(s', k, i);
    } else if k == x.0 {
      forall j | 0 <= j < |s|
        ensures s'[j].0 != k
      {
        assert Keys(s)[j] == s[j].0;
      }
      IndexOfFirst(s', k, |s|);
    }
  }

  lemma CombineEmpty(big: Freqs)
    ensures Combine(big, []) == big
  {
  }

  /** One iteration of the loop in `add_word_freqs`. */
  lemma CombineStep(big: Freqs, small: Freqs, i: nat, r: Freqs)
    requires IsDict(big) && IsDict(small) && i < |small| && r == Combine(big, small[..i])
    ensures small[i].0 in Keys(small)
    ensures Put(r, small[i].0, Get(r, small[i].0, 0) + Lookup(small, small[i].0)) == Combine(big, small[..i + 1])
  {
    var p, x := small[..i], small[i];
    assert small[..i + 1] == p + [x];
    KeyNotInPrefix(small, i);
    CombineSnoc(big, p, x);
    LookupAt(small, i);
  }

  /** `add_word_freqs(freq_count1, freq_count2)`: copies both dicts, makes the
      first one the larger, and adds the smaller one into it. Both arguments
      are values here, so neither caller's dict can change. */
  method AddWordFreqs(f1: Freqs, f2: Freqs) returns (r: Freqs)
    requires IsDict(f1) && IsDict(f2)
    ensures r == Merged(f1, f2)
  {
    var big, small := f1, f2;
    if |big| < |small| {
      big, small := small, big;
    }
    r := AddInto(big, small);
  }

  /** The loop of `add_word_freqs`: `big[token] = big.get(token, 0) +
      small[token]` for every key of `small`, in order. */
  method AddInto(big: Freqs, small: Freqs) returns (r: Freqs)
    requires IsDict(big) && IsDict(small)
    ensures r == Combine(big, small)
  {
    r := big;
    CombineEnds(big, small);
    for i := 0 to |small|
      invariant r == Combine(big, small[..i])
    {
      var token := small[i].0;
      CombineStep(big, small, i, r);
      r := Put(r, token, Get(r, token, 0) + Lookup(small, token));
    }
  }

  lemma CombineEnds(big: Freqs, small: Freqs)
    ensures Combine(big, small[..0]) == big
    ensures Combine(big, small[..|small|]) == Combine(big, small)
  {
    assert small[..0] == [];
    assert small[..|small|] == small;
  }

  lemma {:induction false} ExtraFacts(big: Freqs, s: Freqs)
    requires IsDict(s)
    ensures IsDict(Extra(big, s))
    ensures forall k :: k !in Keys(big) ==> Get(Extra(big, s), k, 0) == Get(s, k, 0)
  {
    if s != [] {
      var n := |s| - 1;
      var p, x := s[..n], s[n];
      assert s == p + [x];
      forall j | 0 <= j < n
        ensures Keys(p)[j] != x.0
      {
        assert p[j] == s[j];
      }
      assert IsDict(p) by {
        forall a, b | 0 <= a < b < n
          ensures p[a].0 != p[b].0
        {
          assert p[a] == s[a] && p[b] == s[b];
        }
      }
      ExtraFacts(big, p);
      var e := Extra(big, p);
      forall k | k !in Keys(big)
        ensures Get(Extra(big, s), k, 0) == Get(s, k, 0)
      {
        GetSnoc(p, x, k);
        if x.0 !in Keys(big) {
          GetSnoc(e, x, k);
        }
      }
      if x.0 !in Keys(big) {
        AppendKeepsDict(e, x);
      }
    }
  }

  /** What the merge of a larger and a smaller dict holds. */
  lemma CombineContents(big: Freqs, small: Freqs)
    requires IsDict(big) && IsDict(small)
    ensures IsDict(Combine(big, small))
    ensures forall k :: k in Keys(Combine(big, small)) <==> k in Keys(big) || k in Keys(small)
    ensures forall k :: Get(Combine(big, small), k, 0) == Get(big, k, 0) + Get(small, k, 0)
  {
    ExtraFacts(big, small);
    KeysOfCombine(big, small);
    CombineIsDict(big, small);
    forall k
      ensures Get(Combine(big, small), k, 0) == Get(big, k, 0) + Get(small, k, 0)
    {
      CombineGet(big, small, k);
    }
  }

  lemma CombineIsDict(big: Freqs, small: Freqs)
    requires IsDict(big) && IsDict(Extra(big, small))
    ensures IsDict(Combine(big, small))
  {
    var c := Combine(big, small);
    var e := Extra(big, small);
    var n := |big|;
    KeysOfCombine(big, small);
    forall a, b | 0 <= a < b < |c|
      ensures c[a].0 != c[b].0
    {
      if b >= n {
        assert c[b] == e[b - n];
        assert Keys(e)[b - n] == c[b].0;
        if a < n {
          assert Keys(big)[a] == c[a].0;
        } else {
          assert c[a] == e[a - n];
        }
      }
    }
  }

  lemma CombineGet(big: Freqs, small: Freqs, k: string)
    requires IsDict(big) && IsDict(Extra(big, small)) && IsDict(Combine(big, small))
    requires k !in Keys(big) ==> Get(Extra(big, small), k, 0) == Get(small, k, 0)
    ensures Get(Combine(big, small), k, 0) == Get(big, k, 0) + Get(small, k, 0)
  {
    var c := Combine(big, small);
    var e := Extra(big, small);
    var n := |big|;
    KeysOfCombine(big, small);
    if k in Keys(big) {
      var i := IndexOf(big, k);
      LookupAt(big, i);
      LookupAt(c, i);
    } else if k in Keys(e) {
      var i := IndexOf(e, k);
      LookupAt(e, i);
      assert c[n + i] == e[i];
      LookupAt(c, n + i);
    }
  }

  /** `add_word_freqs` is the pointwise sum over the union of the keys. */
  lemma MergedContents(f1: Freqs, f2: Freqs)
    requires IsDict(f1) && IsDict(f2)
    ensures IsDict(Merged(f1, f2))
    ensures forall k :: k in Keys(Merged(f1, f2)) <==> k in Keys(f1) || k in Keys(f2)
    ensures forall k :: Get(Merged(f1, f2), k, 0) == Get(f1, k, 0) + Get(f2, k, 0)
  {
    if |f1| < |f2| {
      CombineContents(f2, f1);
    } else {
      CombineContents(f1, f2);
    }
  }

  /** The swap does not change the contents; when the sizes differ it does not
      change the order either. */
  lemma MergeCommutes(f1: Freqs, f2: Freqs)
    requires IsDict(f1) && IsDict(f2)
    ensures ToMap(Merged(f1, f2)) == ToMap(Merged(f2, f1))
    ensures |f1| != |f2| ==> Merged(f1, f2) == Merged(f2, f1)
  {
    MergedContents(f1, f2);
    MergedContents(f2, f1);
    ToMapByGet(Merged(f1, f2), Merged(f2, f1), 0);
  }

  /** The empty dict is an identity on either side, order included. */
  lemma MergeIdentity(f: Freqs)
    ensures Merged(f, []) == f && Merged([], f) == f
  {
    CombineEmpty(f);
  }

  lemma MergeAssociates(f1: Freqs, f2: Freqs, f3: Freqs)
    requires IsDict(f1) && IsDict(f2) && IsDict(f3)
    ensures ToMap(Merged(Merged(f1, f2), f3)) == ToMap(Merged(f1, Merged(f2, f3)))
  {
    var l, r := Merged(Merged(f1, f2), f3), Merged(f1, Merged(f2, f3));
    forall t
      ensures (t in Keys(l) <==> t in Keys(r)) && Get(l, t, 0) == Get(r, t, 0)
    {
      MergeAssociatesAt(f1, f2, f3, t);
    }
    ToMapByGet(l, r, 0);
  }

  lemma MergeAssociatesAt(f1: Freqs, f2: Freqs, f3: Freqs, t: string)
    requires IsDict(f1) && IsDict(f2) && IsDict(f3)
    ensures IsDict(Merged(f1, f2)) && IsDict(Merged(f2, f3))
    ensures t in Keys(Merged(Merged(f1, f2), f3)) <==> t in Keys(Merged(f1, Merged(f2, f3)))
    ensures Get(Merged(Merged(f1, f2), f3), t, 0) == Get(Merged(f1, Merged(f2, f3)), t, 0)
  {
    MergedContents(f1, f2);
    MergedContents(f2, f3);
    MergedContents(Merged(f1, f2), f3);
    MergedContents(f1, Merged(f2, f3));
  }

  /** Counting two texts separately and merging the counts gives the counts
      of the concatenated text. */
  lemma FrequenciesAccumulate(a: seq<string>, b: seq<string>)
    ensures ToMap(FrequencyDict(a + b)) == ToMap(Merged(FrequencyDict(a), FrequencyDict(b)))
  {
    var fa, fb, fab := FrequencyDict(a), FrequencyDict(b), FrequencyDict(a + b);
    FrequencyDictFacts(a);
    FrequencyDictFacts(b);
    MergedContents(fa, fb);
    var m := Merged(fa, fb);
    forall t
      ensures (t in Keys(fab) <==> t in Keys(m)) && Get(fab, t, 0) == Get(m, t, 0)
    {
      CountAppend(a, b, t);
    }
    ToMapByGet(fab, m, 0);
  }

  lemma CountAppend(a: seq<string>, b: seq<string>, t: string)
    ensures t in Keys(FrequencyDict(a + b)) <==> t in Keys(FrequencyDict(a)) || t in Keys(FrequencyDict(b))
    ensures Get(FrequencyDict(a + b), t, 0) == Get(FrequencyDict(a), t, 0) + Get(FrequencyDict(b), t, 0)
  {
    FrequencyDictFacts(a);
    FrequencyDictFacts(b);
    FrequencyDictFacts(a + b);
    assert multiset(a + b) == multiset(a) + multiset(b);
  }

  // ---------------------------------------------------------------- is_valid

  /** The allowed domains. Each is used as a regular expression in which `.`
      matches any character except a newline. */
  const Domains: seq<string> := ["ics.uci.edu", "cs.uci.edu", "informatics.uci.edu", "stat.uci.edu", "today.uci.edu"]

  const TodayDomain: string := "today.uci.edu"

  /** The path a `today.uci.edu` page must contain. */
  const TodayPath: string := "department/information_computer_sciences"

  /** The alternatives of the blocked-extension pattern, with `jpe?g` and
      `tiff?` written out. */
  const BlockedExtensions: seq<string> := [
    "css", "js", "bmp", "gif", "jpg", "jpeg", "ico",
    "png", "tif", "tiff", "mid", "mp2", "mp3", "mp4",
    "wav", "avi", "mov", "mpeg", "ram", "m4v", "mkv", "ogg", "ogv", "pdf",
    "ps", "eps", "tex", "ppt", "pptx", "doc", "docx", "xls", "xlsx", "names",
    "data", "dat", "exe", "bz2", "tar", "msi", "bin", "7z", "psd", "dmg", "iso",
    "epub", "dll", "cnf", "tgz", "sha1",
    "thmx", "mso", "arff", "rtf", "jar", "csv",
    "rm", "smil", "wmv", "swf", "wma", "zip", "rar", "gz"]

  /** No character of `s` is a newline, so the regex `.*` can span all of it. */
  predicate NoNewline(s: string)
  {
    forall i :: 0 <= i < |s| ==> s[i] != '\n'
  }

  /** A pattern character against a text character: `.` is a wildcard that
      does not match a newline, any other character matches itself. */
  predicate CharFits(c: char, p: char)
  {
    if p == '.' then c != '\n' else c == p
  }

  /** Pattern `pat` (literal characters and `.`) matches `s` at offset `at`. */
  predicate FitsAt(s: string, pat: string, at: nat)
  {
    at + |pat| <= |s| && forall j :: 0 <= j < |pat| ==> CharFits(s[at + j], pat[j])
  }

  /** Python's `$` without MULTILINE: the end of the text, or just before a
      final newline. */
  predicate AtEnd(s: string, e: nat)
  {
    e == |s| || (e + 1 == |s| && s[e] == '\n')
  }

  /** `re.match(".*" + pat + "$", s) is not None`. */
  predicate MatchesDomain(s: string, pat: string)
  {
    exists at :: 0 <= at <= |s| && FitsAt(s, pat, at) && NoNewline(s[..at]) && AtEnd(s, at + |pat|)
  }

  predicate LiteralAt(s: string, w: string, at: nat)
  {
    at + |w| <= |s| && s[at..at + |w|] == w
  }

  /** `re.match(r".*\.(css|js|...)$", s) is not None`. */
  predicate HasBlockedExtension(s: string)
  {
    HasExtension(s, BlockedExtensions)
  }

  /** `re.match(r".*\.(e1|e2|...)$", s) is not None` for the alternatives `exts`. */
  predicate HasExtension(s: string, exts: seq<string>)
  {
    exists at, e :: 0 <= at < |s| && e in exts && s[at] == '.' && NoNewline(s[..at]) &&
      LiteralAt(s, e, at + 1) && AtEnd(s, at + 1 + |e|)
  }

  /** `is_valid(url)`: whether the crawler follows `url`. A URL with an http(s)
      scheme but no host name makes the regex match raise `TypeError`, which
      `is_valid` re-raises. */
  function IsValid(url: string, urlparse: UrlParser): (r: Result<bool>)
    ensures r.Err? <==> urlparse(url).scheme in {"http", "https"} && urlparse(url).hostname.None?
    ensures r.Err? ==> r.error == TypeError
    ensures urlparse(url).scheme !in {"http", "https"} ==> r == Ok(false)
    ensures r == Ok(true) <==>
      var p := urlparse(url);
      p.scheme in {"http", "https"} && p.hostname.Some? &&
      (exists d :: d in Domains && MatchesDomain(p.hostname.value, d)) &&
      (MatchesDomain(p.hostname.value, TodayDomain) ==> Contains(p.path, TodayPath)) &&
      !HasBlockedExtension(Lower(p.path))
  {
    var parsed := urlparse(url);
    if parsed.scheme !in {"http", "https"} then Ok(false)
    else if parsed.hostname.None? then Err(TypeError)
    else
      var host := parsed.hostname.value;
      if forall d | d in Domains :: !MatchesDomain(host, d) then Ok(false)
      else if MatchesDomain(host, TodayDomain) && !Contains(parsed.path, TodayPath) then Ok(false)
      else Ok(!HasBlockedExtension(Lower(parsed.path)))
  }

  predicate EndsWith(s: string, w: string)
  {
    |w| <= |s| && s[|s| - |w|..] == w
  }

  /** On a host name without newlines, the domain pattern is a suffix test in
      which each `.` of the pattern stands for any character. */
  lemma MatchesDomainIsSuffix(s: string, pat: string)
    requires NoNewline(s)
    ensures MatchesDomain(s, pat) <==> |pat| <= |s| && FitsAt(s, pat, |s| - |pat|)
  {
    if MatchesDomain(s, pat) {
      var at :| 0 <= at <= |s| && FitsAt(s, pat, at) && NoNewline(s[..at]) && AtEnd(s, at + |pat|);
      assert at + |pat| == |s|;
    }
    if |pat| <= |s| && FitsAt(s, pat, |s| - |pat|) {
      var at := |s| - |pat|;
      assert NoNewline(s[..at]) by {
        forall i | 0 <= i < at
          ensures s[..at][i] != '\n'
        {
          assert s[..at][i] == s[i];
        }
      }
    }
  }

  /** In particular a host ending in an allowed domain is in scope. */
  lemma EndsWithDomainMatches(s: string, d: string)
    requires NoNewline(s) && EndsWith(s, d)
    ensures MatchesDomain(s, d)
  {
    var at := |s| - |d|;
    forall j | 0 <= j < |d|
      ensures CharFits(s[at + j], d[j])
    {
      assert s[at..][j] == s[at + j];
    }
    MatchesDomainIsSuffix(s, d);
  }

  /** On a path without newlines, the extension pattern asks whether the path
      ends in `.` followed by one of the blocked extensions. */
  lemma ExtensionIsSuffix(s: string, exts: seq<string>)
    requires NoNewline(s)
    ensures HasExtension(s, exts) <==> exists e :: e in exts && EndsWith(s, "." + e)
  {
    if HasExtension(s, exts) {
      var at, e :| 0 <= at < |s| && e in exts && s[at] == '.' && NoNewline(s[..at]) &&
        LiteralAt(s, e, at + 1) && AtEnd(s, at + 1 + |e|);
      ExtensionMatchEndsWith(s, e, at);
    }
    if e :| e in exts && EndsWith(s, "." + e) {
      EndsWithExtensionMatches(s, e);
    }
  }

  lemma ExtensionMatchEndsWith(s: string, e: string, at: nat)
    requires NoNewline(s) && at < |s| && s[at] == '.' && LiteralAt(s, e, at + 1) && AtEnd(s, at + 1 + |e|)
    ensures EndsWith(s, "." + e)
  {
    assert at + 1 + |e| == |s|;
    assert s[at..] == [s[at]] + s[at + 1..at + 1 + |e|];
  }

  lemma EndsWithExtensionMatches(s: string, e: string)
    requires NoNewline(s) && EndsWith(s, "." + e)
    ensures var at := |s| - |e| - 1;
      0 <= at < |s| && s[at] == '.' && NoNewline(s[..at]) && LiteralAt(s, e, at + 1) && AtEnd(s, at + 1 + |e|)
  {
    var at := |s| - |e| - 1;
    assert s[at] == ("." + e)[0];
    assert s[at + 1..at + 1 + |e|] == s[at..][1..];
    forall i | 0 <= i < at
      ensures s[..at][i] != '\n'
    {
      assert s[..at][i] == s[i];
    }
  }

  /** A path without a `.` has no blocked extension. */
  lemma NoDotNoExtension(s: string, exts: seq<string>)
    requires forall i :: 0 <= i < |s| ==> s[i] != '.'
    ensures !HasExtension(s, exts)
  {
  }

  /** The domain test has no label boundary: any http(s) URL whose host name
      ends in `cs.uci.edu`, such as `www.physics.uci.edu`, is in scope unless
      its path has a blocked extension. */
  lemma EndsInCsIsInScope(url: string, urlparse: UrlParser, scheme: string, prefix: string, path: string)
    requires scheme in {"http", "https"} && NoNewline(prefix)
    requires urlparse(url) == ParsedUrl(scheme, Some(prefix + "cs.uci.edu"), path)
    requires !HasBlockedExtension(Lower(path))
    ensures IsValid(url, urlparse) == Ok(true)
  {
    CsHostMatches(prefix);
    assert "cs.uci.edu" in Domains;
  }

  lemma CsHostMatches(prefix: string)
    requires NoNewline(prefix)
    ensures MatchesDomain(prefix + "cs.uci.edu", "cs.uci.edu")
    ensures !MatchesDomain(prefix + "cs.uci.edu", TodayDomain)
  {
    var d := "cs.uci.edu";
    var host := prefix + d;
    assert NoNewline(d);
    assert NoNewline(host) by {
      forall i | 0 <= i < |host|
        ensures host[i] != '\n'
      {
        if i >= |prefix| {
          assert host[i] == d[i - |prefix|];
        }
      }
    }
    assert host[|host| - |d|..] == d;
    EndsWithDomainMatches(host, d);
    MatchesDomainIsSuffix(host, TodayDomain);
    if |TodayDomain| <= |host| {
      var at := |host| - |TodayDomain|;
      assert host[at + 3] == d[0] == 'c' && TodayDomain[3] == 'a';
    }
  }

  lemma PhysicsIsInScope(url: string, urlparse: UrlParser)
    requires urlparse(url) == ParsedUrl("https", Some("www.physics.uci.edu"), "/people")
    ensures IsValid(url, urlparse) == Ok(true)
  {
    var prefix := "www.physi";
    assert NoNewline(prefix);
    assert prefix + "cs.uci.edu" == "www.physics.uci.edu";
    PlainPathIsAllowed("/people");
    EndsInCsIsInScope(url, urlparse, "https", prefix, "/people");
  }

  /** A path without a `.` is never blocked. */
  lemma PlainPathIsAllowed(path: string)
    requires forall i :: 0 <= i < |path| ==> path[i] != '.'
    ensures !HasBlockedExtension(Lower(path))
  {
    NoDotNoExtension(Lower(path), BlockedExtensions);
  }

  /** The `.` of a domain matches any character: `statxuci.edu` is in scope. */
  lemma WildcardDotIsInScope(url: string, urlparse: UrlParser)
    requires urlparse(url) == ParsedUrl("http", Some("statxuci.edu"), "/")
    ensures IsValid(url, urlparse) == Ok(true)
  {
    var host := "statxuci.edu";
    MatchesDomainIsSuffix(host, "stat.uci.edu");
    assert FitsAt(host, "stat.uci.edu", 0);
    MatchesDomainIsSuffix(host, TodayDomain);
    NoDotNoExtension(Lower("/"), BlockedExtensions);
  }

  /** A host outside the domains is rejected. */
  lemma ForeignHostIsOutOfScope(url: string, urlparse: UrlParser)
    requires urlparse(url) == ParsedUrl("https", Some("evil.com"), "/")
    ensures IsValid(url, urlparse) == Ok(false)
  {
    forall d | d in Domains
      ensures !MatchesDomain("evil.com", d)
    {
      MatchesDomainIsSuffix("evil.com", d);
    }
  }

  /** The extension test is applied to the lower-cased path. */
  lemma UpperCaseExtensionIsBlocked(url: string, urlparse: UrlParser)
    requires urlparse(url) == ParsedUrl("https", Some("www.ics.uci.edu"), "/papers/Report.PDF")
    ensures IsValid(url, urlparse) == Ok(false)
  {
    var host := "www.ics.uci.edu";
    assert host[|host| - 11..] == "ics.uci.edu";
    EndsWithDomainMatches(host, "ics.uci.edu");
    PdfIsBlocked();
  }

  lemma PdfIsBlocked()
    ensures HasBlockedExtension(Lower("/papers/Report.PDF"))
  {
    var prefix := "/papers/Report";
    assert NoNewline(prefix);
    assert prefix + ".PDF" == "/papers/Report.PDF";
    UpperPdfIsBlocked(prefix);
  }

  /** Whatever comes before it, a path ending in `.PDF` is blocked. */
  lemma UpperPdfIsBlocked(prefix: string)
    requires NoNewline(prefix)
    ensures HasBlockedExtension(Lower(prefix + ".PDF"))
  {
    var path := Lower(prefix + ".PDF");
    var n := |path|;
    assert path[n - 4..] == "." + "pdf" by {
      assert (prefix + ".PDF")[n - 4..] == ".PDF";
    }
    assert NoNewline(path) by {
      forall i | 0 <= i < n
        ensures path[i] != '\n'
      {
        if i < |prefix| {
          assert (prefix + ".PDF")[i] == prefix[i];
        }
      }
    }
    assert "pdf" in BlockedExtensions;
    ExtensionBlocked(path, "pdf");
  }

  /** A path that ends in `.` and a blocked extension is blocked. */
  lemma ExtensionBlocked(path: string, e: string)
    requires NoNewline(path) && e in BlockedExtensions && EndsWith(path, "." + e)
    ensures HasBlockedExtension(path)
  {
    ExtensionIsSuffix(path, BlockedExtensions);
  }

  /** A `today.uci.edu` page outside the ICS department is rejected. */
  lemma TodayOutsideDepartmentIsOutOfScope(url: string, urlparse: UrlParser)
    requires urlparse(url) == ParsedUrl("https", Some("today.uci.edu"), "/events")
    ensures IsValid(url, urlparse) == Ok(false)
  {
    EndsWithDomainMatches("today.uci.edu", TodayDomain);
    assert !Contains("/events", TodayPath);
  }

  // ----------------------------------------------------------------- scraper

  /** `a` is `b` with some elements left out, the rest kept in order. */
  predicate IsSubsequence<T(==)>(a: seq<T>, b: seq<T>)
    decreases |b|
  {
    if a == [] then true
    else if b == [] then false
    else (a[0] == b[0] && IsSubsequence(a[1..], b[1..])) || IsSubsequence(a, b[1..])
  }

  /** `scraper(url, resp)` over the links `extract_next_links` returned: the
      list comprehension keeps the links `is_valid` accepts, in order, and the
      first link that makes `is_valid` raise makes the whole call raise. */
  function Scraper(links: seq<string>, urlparse: UrlParser): (r: Result<seq<string>>)
    ensures r.Err? <==> exists i :: 0 <= i < |links| && IsValid(links[i], urlparse).Err?
    ensures r.Ok? ==> IsSubsequence(r.value, links)
  {
    if links == [] then Ok([])
    else
      var rest := Scraper(links[1..], urlparse);
      assert links == [links[0]] + links[1..];
      assert forall i :: 0 < i < |links| ==> links[i] == links[1..][i - 1];
      match IsValid(links[0], urlparse)
      case Err(e) => Err(e)
      case Ok(keep) =>
        if rest.Err? then rest
        else if keep then
          assert ([links[0]] + rest.value)[1..] == rest.value;
          Ok([links[0]] + rest.value)
        else Ok(rest.value)
  }

  /** Each accepted link is returned as often as it was extracted, and no
      other link is returned. */
  lemma {:induction false} ScraperCounts(links: seq<string>, urlparse: UrlParser)
    requires Scraper(links, urlparse).Ok?
    ensures forall l :: multiset(Scraper(links, urlparse).value)[l] ==
                        (if IsValid(l, urlparse) == Ok(true) then multiset(links)[l] else 0)
  {
    if links != [] {
      ScraperCounts(links[1..], urlparse);
      assert links == [links[0]] + links[1..];
    }
  }
}
