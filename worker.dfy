/** The per-worker statistics of `crawler/worker.py`: the shard of crawl
    statistics every worker keeps, its update after each page, and the report
    computed from it. */
module Workers {
  import opened Common
  import opened Dicts
  import Scraper

  /** `Worker.stopwords`: the English stopwords left out of the report. */
  const Stopwords: set<string> := {
    "a", "about", "above", "after", "again", "against", "all", "am", "an", "and", "any", "are",
    "aren't", "as", "at", "be", "because", "been", "before", "being", "below", "between", "both",
    "but", "by", "can't", "cannot", "could", "couldn't", "did", "didn't", "do", "does", "doesn't",
    "doing", "don't", "down", "during", "each", "few", "for", "from", "further", "had", "hadn't",
    "has", "hasn't", "have", "haven't", "having", "he", "he'd", "he'll", "he's", "her", "here",
    "here's", "hers", "herself", "him", "himself", "his", "how", "how's", "i", "i'd", "i'll",
    "i'm", "i've", "if", "in", "into", "is", "isn't", "it", "it's", "its", "itself", "let's", "me",
    "more", "most", "mustn't", "my", "myself", "no", "nor", "not", "of", "off", "on", "once",
    "only", "or", "other", "ought", "our", "ours", "ourselves", "out", "over", "own", "same",
    "shan't", "she", "she'd", "she'll", "she's", "should", "shouldn't", "so", "some", "such",
    "than", "that", "that's", "the", "their", "theirs", "them", "themselves", "then", "there",
    "there's", "these", "they", "they'd", "they'll", "they're", "they've", "this", "those",
    "through", "to", "too", "under", "until", "up", "very", "was", "wasn't", "we", "we'd", "we'll",
    "we're", "we've", "were", "weren't", "what", "what's", "when", "when's", "where", "where's",
    "which", "while", "who", "who's", "whom", "why", "why's", "with", "won't", "would", "wouldn't",
    "you", "you'd", "you'll", "you're", "you've", "your", "yours", "yourself", "yourselves"
  }

  /** How many words the report lists. */
  const K: nat := 50

  /** The host names counted as ICS subdomains contain this string. */
  const IcsDomain: string := ".ics.uci.edu"

  type Item = (string, int)

  // --------------------------------------- sorted(items, key=freq, reverse=True)

  predicate NonIncreasing(s: seq<Item>)
  {
    forall i, j :: 0 <= i < j < |s| ==> s[i].1 >= s[j].1
  }

  /** The items of frequency `v`, in their order in `s`. */
  function Level(s: seq<Item>, v: int): seq<Item>
  {
    if s == [] then []
    else (if s[0].1 == v then [s[0]] else []) + Level(s[1..], v)
  }

  lemma {:induction false} LevelAppend(a: seq<Item>, b: seq<Item>, v: int)
    ensures Level(a + b, v) == Level(a, v) + Level(b, v)
  {
    if a == [] {
      assert a + b == b;
    } else {
      assert (a + b)[0] == a[0] && (a + b)[1..] == a[1..] + b;
      LevelAppend(a[1..], b, v);
      var h := if a[0].1 == v then [a[0]] else [];
      calc {
        Level(a + b, v);
        h + Level(a[1..] + b, v);
        h + (Level(a[1..], v) + Level(b, v));
        (h + Level(a[1..], v)) + Level(b, v);
      }
    }
  }

  /** Inserts `x` after every item whose frequency is at least its own. */
  function Insert(s: seq<Item>, x: Item): (r: seq<Item>)
    requires NonIncreasing(s)
    ensures NonIncreasing(r)
    ensures multiset(r) == multiset(s) + multiset{x}
  {
    if s == [] then [x]
    else if s[0].1 < x.1 then [x] + s
    else
      var t := Insert(s[1..], x);
      assert s == [s[0]] + s[1..];
      assert forall y :: y in t ==> y.1 <= s[0].1 by {
        forall y | y in t
          ensures y.1 <= s[0].1
        {
          assert y in multiset(t);
        }
      }
      [s[0]] + t
  }

  /** Insertion keeps the order among items of each frequency, with `x` last
      among its own. */
  lemma {:induction false} InsertLevel(s: seq<Item>, x: Item, v: int)
    requires NonIncreasing(s)
    ensures Level(Insert(s, x), v) == Level(s, v) + if x.1 == v then [x] else []
  {
    if s == [] {
    } else if s[0].1 < x.1 {
      if x.1 == v {
        NoLevelAbove(s, v);
      }
    } else {
      InsertLevel(s[1..], x, v);
    }
  }

  /** In a non-increasing list nothing has a frequency above the first. */
  lemma {:induction false} NoLevelAbove(s: seq<Item>, v: int)
    requires NonIncreasing(s) && s != [] && s[0].1 < v
    ensures Level(s, v) == []
    decreases |s|
  {
    if |s| > 1 {
      NoLevelAbove(s[1..], v);
    }
  }

  /** Python's `sorted(..., reverse=True)` by frequency: in non-increasing
      order, a permutation of the items. */
  function SortByFreqDesc(s: seq<Item>): (r: seq<Item>)
    ensures NonIncreasing(r)
    ensures multiset(r) == multiset(s)
  {
    if s == [] then []
    else
      var n := |s| - 1;
      assert s == s[..n] + [s[n]];
      Insert(SortByFreqDesc(s[..n]), s[n])
  }

  /** The sort is stable: items of equal frequency keep their order in the
      dict. */
  lemma {:induction false} SortIsStable(s: seq<Item>, v: int)
    ensures Level(SortByFreqDesc(s), v) == Level(s, v)
  {
    if s != [] {
      var n := |s| - 1;
      assert s == s[..n] + [s[n]];
      SortIsStable(s[..n], v);
      InsertLevel(SortByFreqDesc(s[..n]), s[n], v);
      LevelAppend(s[..n], [s[n]], v);
    }
  }

  // -------------------------------------------------------------- top words

  /** The items whose word is not a stopword, in order. */
  function NonStop(s: seq<Item>, stop: set<string>): (r: seq<Item>)
    ensures |r| <= |s|
  {
    if s == [] then []
    else (if s[0].0 !in stop then [s[0]] else []) + NonStop(s[1..], stop)
  }

  lemma {:induction false} NonStopMembers(s: seq<Item>, stop: set<string>)
    ensures forall x :: x in NonStop(s, stop) <==> x in s && x.0 !in stop
  {
    if s != [] {
      NonStopMembers(s[1..], stop);
      assert s == [s[0]] + s[1..];
    }
  }

  lemma {:induction false} NonStopAppend(a: seq<Item>, b: seq<Item>, stop: set<string>)
    ensures NonStop(a + b, stop) == NonStop(a, stop) + NonStop(b, stop)
  {
    if a == [] {
      assert a + b == b;
    } else {
      assert (a + b)[1..] == a[1..] + b;
      NonStopAppend(a[1..], b, stop);
    }
  }

  lemma {:induction false} NonStopKeepsOrder(s: seq<Item>, stop: set<string>)
    requires NonIncreasing(s)
    ensures NonIncreasing(NonStop(s, stop))
  {
    if s != [] {
      NonStopKeepsOrder(s[1..], stop);
      NonStopMembers(s[1..], stop);
      var t := NonStop(s[1..], stop);
      forall y | y in t
        ensures y.1 <= s[0].1
      {
        var k :| 0 <= k < |s[1..]| && s[1..][k] == y;
      }
    }
  }

  /** Filtering by word and by frequency commute. */
  lemma {:induction false} NonStopLevel(s: seq<Item>, v: int, stop: set<string>)
    ensures Level(NonStop(s, stop), v) == NonStop(Level(s, v), stop)
  {
    if s != [] {
      NonStopLevel(s[1..], v, stop);
      var h := if s[0].0 !in stop then [s[0]] else [];
      LevelAppend(h, NonStop(s[1..], stop), v);
      NonStopAppend(if s[0].1 == v then [s[0]] else [], Level(s[1..], v), stop);
    }
  }

  /** The report's word list: the first `K` non-stopwords of the frequency
      order. */
  function TopWords(freqs: Dict<string, int>, stop: set<string>): seq<Item>
  {
    var ns := NonStop(SortByFreqDesc(freqs), stop);
    if |ns| <= K then ns else ns[..K]
  }

  /** At most 50 entries, in non-increasing order of frequency. */
  lemma TopWordsShape(freqs: Dict<string, int>, stop: set<string>)
    ensures |TopWords(freqs, stop)| <= K
    ensures NonIncreasing(TopWords(freqs, stop))
  {
    NonStopKeepsOrder(SortByFreqDesc(freqs), stop);
  }

  /** Every listed entry is an entry of the dict and not a stopword. */
  lemma TopWordsMembers(freqs: Dict<string, int>, stop: set<string>)
    ensures forall x :: x in TopWords(freqs, stop) ==> x in freqs && x.0 !in stop
  {
    var sorted := SortByFreqDesc(freqs);
    var ns := NonStop(sorted, stop);
    NonStopMembers(sorted, stop);
    SortedMembers(freqs);
    assert forall x :: x in TopWords(freqs, stop) ==> x in ns;
  }

  lemma SortedMembers(s: seq<Item>)
    ensures forall x :: x in SortByFreqDesc(s) <==> x in s
  {
    var r := SortByFreqDesc(s);
    assert forall x :: x in r <==> x in multiset(r);
  }

  /** Every item left out that is not a stopword is no more frequent than
      any listed item. */
  lemma TopWordsComplete(freqs: Dict<string, int>, x: Item, stop: set<string>)
    requires x in freqs && x.0 !in stop && x !in TopWords(freqs, stop)
    ensures forall y :: y in TopWords(freqs, stop) ==> y.1 >= x.1
  {
    var sorted := SortByFreqDesc(freqs);
    var ns := NonStop(sorted, stop);
    NonStopKeepsOrder(sorted, stop);
    NonStopMembers(sorted, stop);
    SortedMembers(freqs);
    assert x in ns;
    var q :| 0 <= q < |ns| && ns[q] == x;
    if |ns| > K {
      forall k | 0 <= k < K
        ensures ns[k] != x
      {
        assert ns[k] == ns[..K][k];
      }
      forall y | y in TopWords(freqs, stop)
        ensures y.1 >= x.1
      {
        var k :| 0 <= k < K && ns[..K][k] == y;
      }
    }
  }

  /** With at most 50 non-stopwords the report lists every one of them;
      otherwise it lists exactly 50. */
  lemma TopWordsLength(freqs: Dict<string, int>, stop: set<string>)
    ensures var n := |NonStop(freqs, stop)|;
      |TopWords(freqs, stop)| == if n <= K then n else K
    ensures |NonStop(freqs, stop)| <= K ==> multiset(TopWords(freqs, stop)) == multiset(NonStop(freqs, stop))
  {
    NonStopOfPermutation(SortByFreqDesc(freqs), freqs, stop);
  }

  /** Filtering a permutation gives a permutation of the filtered list. */
  lemma NonStopOfPermutation(a: seq<Item>, b: seq<Item>, stop: set<string>)
    requires multiset(a) == multiset(b)
    ensures multiset(NonStop(a, stop)) == multiset(NonStop(b, stop))
    ensures |NonStop(a, stop)| == |NonStop(b, stop)|
  {
    NonStopCount(a, stop);
    NonStopCount(b, stop);
    var ma, mb := multiset(NonStop(a, stop)), multiset(NonStop(b, stop));
    forall x
      ensures ma[x] == mb[x]
    {
    }
    assert ma == mb;
    assert |NonStop(a, stop)| == |ma| && |NonStop(b, stop)| == |mb|;
  }

  /** The filter keeps every occurrence of a non-stopword item and no other. */
  lemma {:induction false} NonStopCount(s: seq<Item>, stop: set<string>)
    ensures forall x :: multiset(NonStop(s, stop))[x] == if x.0 in stop then 0 else multiset(s)[x]
  {
    if s != [] {
      NonStopCount(s[1..], stop);
      assert s == [s[0]] + s[1..];
    }
  }

  predicate IsPrefix(a: seq<Item>, b: seq<Item>)
  {
    |a| <= |b| && b[..|a|] == a
  }

  /** Among words of equal frequency the report lists the first ones in the
      order of the dict. */
  lemma TopWordsTies(freqs: Dict<string, int>, v: int, stop: set<string>)
    ensures IsPrefix(Level(TopWords(freqs, stop), v), Level(NonStop(freqs, stop), v))
  {
    var ns := NonStop(SortByFreqDesc(freqs), stop);
    SortedLevel(freqs, v, stop);
    if |ns| > K {
      assert ns == ns[..K] + ns[K..];
      LevelAppend(ns[..K], ns[K..], v);
      PrefixOfAppend(Level(ns[..K], v), Level(ns[K..], v));
    }
  }

  lemma PrefixOfAppend(a: seq<Item>, b: seq<Item>)
    ensures IsPrefix(a, a + b)
  {
    assert (a + b)[..|a|] == a;
  }

  lemma SortedLevel(freqs: Dict<string, int>, v: int, stop: set<string>)
    ensures Level(NonStop(SortByFreqDesc(freqs), stop), v) == Level(NonStop(freqs, stop), v)
  {
    NonStopLevel(SortByFreqDesc(freqs), v, stop);
    SortIsStable(freqs, v);
    NonStopLevel(freqs, v, stop);
  }

  // ----------------------------------------------------- sorted(ics_subdomains)

  /** Python's `<` on strings: lexicographic by code point. */
  predicate StrLt(a: string, b: string)
  {
    if a == [] then b != []
    else if b == [] then false
    else if a[0] != b[0] then a[0] < b[0]
    else StrLt(a[1..], b[1..])
  }

  lemma {:induction false} StrLtIrreflexive(a: string)
    ensures !StrLt(a, a)
  {
    if a != [] {
      StrLtIrreflexive(a[1..]);
    }
  }

  lemma {:induction false} StrLtTransitive(a: string, b: string, c: string)
    requires StrLt(a, b) && StrLt(b, c)
    ensures StrLt(a, c)
  {
    if a != [] && b != [] && c != [] && a[0] == b[0] == c[0] {
      StrLtTransitive(a[1..], b[1..], c[1..]);
    }
  }

  lemma {:induction false} StrLtTotal(a: string, b: string)
    ensures a == b || StrLt(a, b) || StrLt(b, a)
    ensures !(StrLt(a, b) && StrLt(b, a))
  {
    if a != [] && b != [] && a[0] == b[0] {
      StrLtTotal(a[1..], b[1..]);
      if a[1..] == b[1..] {
        assert a == [a[0]] + a[1..] && b == [b[0]] + b[1..];
      }
    }
  }

  predicate IsLeast(m: string, s: set<string>)
  {
    m in s && forall x :: x in s ==> x == m || StrLt(m, x)
  }

  lemma LeastExists(s: set<string>)
    requires s != {}
    ensures exists m :: IsLeast(m, s)
    decreases |s|
  {
    var y :| y in s;
    if s != {y} {
      LeastExists(s - {y});
      var m :| IsLeast(m, s - {y});
      StrLtTotal(m, y);
      if StrLt(y, m) {
        forall x | x in s
          ensures x == y || StrLt(y, x)
        {
          if x != y && x != m {
            StrLtTransitive(y, m, x);
          }
        }
        assert IsLeast(y, s);
      } else {
        assert IsLeast(m, s);
      }
    } else {
      assert IsLeast(y, s);
    }
  }

  lemma LeastUnique(m1: string, m2: string, s: set<string>)
    requires IsLeast(m1, s) && IsLeast(m2, s)
    ensures m1 == m2
  {
    StrLtTotal(m1, m2);
  }

  /** `sorted(ics_subdomains)`: the strings of the set in ascending order. */
  function SortedStrings(s: set<string>): (r: seq<string>)
    ensures |r| == |s|
    ensures forall x :: x in r <==> x in s
    ensures forall i, j :: 0 <= i < j < |r| ==> StrLt(r[i], r[j])
    decreases |s|
  {
    if s == {} then []
    else
      LeastExists(s);
      assert forall m1, m2 :: IsLeast(m1, s) && IsLeast(m2, s) ==> m1 == m2 by {
        forall m1, m2 | IsLeast(m1, s) && IsLeast(m2, s)
          ensures m1 == m2
        {
          LeastUnique(m1, m2, s);
        }
      }
      var m :| IsLeast(m, s);
      var rest := SortedStrings(s - {m});
      assert forall x :: x in rest ==> StrLt(m, x);
      [m] + rest
  }

  /** The report as a value; the text it is printed as is not modelled. */
  datatype Report = Report(pages: nat, topWords: seq<Item>, maxUrl: Option<string>, maxWordNum: int,
                           subdomains: seq<string>)

  /** The statistics shard a worker keeps in its pickle file. */
  class Worker {
    const stopwords: set<string>
    var crawledUrls: set<string>
    var maxUrl: Option<string>
    var maxWordNum: int
    var totalWordFreq: Dict<string, int>
    var icsSubdomains: set<string>

    /** What every update keeps: the longest page is a crawled page, the
        word counts form a dict, and every listed subdomain is under ICS. */
    ghost predicate Valid()
      reads this
    {
      IsDict(totalWordFreq) && maxWordNum >= 0 &&
      (maxUrl.None? <==> maxWordNum == 0) &&
      (maxUrl.Some? ==> maxUrl.value in crawledUrls) &&
      (forall h :: h in icsSubdomains ==> Contains(h, IcsDomain))
    }

    /** `pickle_init` on a new file: nothing crawled yet. */
    constructor ()
      ensures Valid() && stopwords == Stopwords
      ensures crawledUrls == {} && maxUrl == None && maxWordNum == 0
      ensures totalWordFreq == [] && icsSubdomains == {}
    {
      stopwords := Stopwords;
      crawledUrls, maxUrl, maxWordNum := {}, None, 0;
      totalWordFreq, icsSubdomains := [], {};
    }

    /** `Worker.add_word_freqs`, the same merge as `scraper.add_word_freqs`. */
    static method AddWordFreqs(f1: Dict<string, int>, f2: Dict<string, int>) returns (r: Dict<string, int>)
      requires IsDict(f1) && IsDict(f2)
      ensures r == Scraper.Merged(f1, f2) && IsDict(r)
      ensures forall t :: t in Keys(r) <==> t in Keys(f1) || t in Keys(f2)
      ensures forall t :: Get(r, t, 0) == Get(f1, t, 0) + Get(f2, t, 0)
    {
      r := Scraper.AddWordFreqs(f1, f2);
      Scraper.MergedContents(f1, f2);
    }

    /** `update_stats(url, word_freq, token_num)`. An error leaves the saved
        shard as it was, since the pickle is written back only at the end. */
    method UpdateStats(url: string, wordFreq: Dict<string, int>, tokenNum: int, urlparse: UrlParser)
      returns (error: Option<Error>)
      requires Valid() && IsDict(wordFreq)
      modifies this
      ensures Valid()
      ensures url in old(crawledUrls) ==> error == Some(AssertionError) && unchanged(this)
      ensures url !in old(crawledUrls) && urlparse(url).hostname.None? ==>
        error == Some(TypeError) && unchanged(this)
      ensures url !in old(crawledUrls) && urlparse(url).hostname.Some? ==>
        var host := urlparse(url).hostname.value;
        error == None &&
        crawledUrls == old(crawledUrls) + {url} && |crawledUrls| == |old(crawledUrls)| + 1 &&
        (if tokenNum > old(maxWordNum) then maxUrl == Some(url) && maxWordNum == tokenNum
         else maxUrl == old(maxUrl) && maxWordNum == old(maxWordNum)) &&
        totalWordFreq == Scraper.Merged(old(totalWordFreq), wordFreq) &&
        icsSubdomains == if Contains(host, IcsDomain) then old(icsSubdomains) + {host} else old(icsSubdomains)
    {
      var crawled, longest, longestNum, total, subdomains := crawledUrls, maxUrl, maxWordNum, totalWordFreq, icsSubdomains;
      if url in crawled {
        return Some(AssertionError);
      }
      crawled := crawled + {url};
      if tokenNum > longestNum {
        longest := Some(url);
        longestNum := tokenNum;
      }
      total := AddWordFreqs(total, wordFreq);
      var hostname := urlparse(url).hostname;
      if hostname.None? {
        return Some(TypeError);
      }
      if Contains(hostname.value, IcsDomain) {
        subdomains := subdomains + {hostname.value};
      }
      crawledUrls, maxUrl, maxWordNum, totalWordFreq, icsSubdomains := crawled, longest, longestNum, total, subdomains;
      error := None;
    }

    /** `report_stats()`: the page count, the top words, the longest page and
        the sorted subdomains. */
    method ReportStats() returns (report: Report)
      requires Valid()
      ensures report == Report(|crawledUrls|, TopWords(totalWordFreq, stopwords), maxUrl, maxWordNum, SortedStrings(icsSubdomains))
    {
      var ordered := SortByFreqDesc(totalWordFreq);
      var topk: seq<Item> := [];
      var i := 0;
      while i < |ordered|
        invariant 0 <= i <= |ordered|
        invariant topk == NonStop(ordered[..i], stopwords) && |topk| < K
      {
        var (word, freq) := ordered[i];
        NonStopStep(ordered, i, stopwords);
        if word !in stopwords {
          topk := topk + [(word, freq)];
          if |topk| >= K {
            TopPrefix(ordered, i + 1, stopwords);
            break;
          }
        }
        i := i + 1;
      }
      if i == |ordered| {
        assert ordered[..i] == ordered;
      }
      assert topk == TopWords(totalWordFreq, stopwords);
      report := Report(|crawledUrls|, topk, maxUrl, maxWordNum, SortedStrings(icsSubdomains));
    }
  }

  lemma NonStopStep(s: seq<Item>, i: nat, stop: set<string>)
    requires i < |s|
    ensures NonStop(s[..i + 1], stop) == NonStop(s[..i], stop) + if s[i].0 !in stop then [s[i]] else []
  {
    assert s[..i + 1] == s[..i] + [s[i]];
    NonStopAppend(s[..i], [s[i]], stop);
  }

  /** Once the first `i` items hold `K` non-stopwords, those are the top words. */
  lemma TopPrefix(ordered: seq<Item>, i: nat, stop: set<string>)
    requires i <= |ordered| && |NonStop(ordered[..i], stop)| == K
    ensures |NonStop(ordered, stop)| >= K && NonStop(ordered, stop)[..K] == NonStop(ordered[..i], stop)
  {
    assert ordered == ordered[..i] + ordered[i..];
    NonStopAppend(ordered[..i], ordered[i..], stop);
  }
}
