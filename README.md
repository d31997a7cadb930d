# ICS crawler statistics and near-duplicate detection, in Dafny

This project models the core of a web crawler for the UCI ICS domains:

- **scraper.py.** The page-level helpers:
  - `tokenize` lower-cases the word matches of a page;
  - `compute_word_frequencies` counts tokens into an insertion-ordered dict;
  - `add_word_freqs` merges two counts by adding the smaller dict into a copy of the larger;
  - `is_valid` is the scope filter: scheme, the five allowed domains, the `today.uci.edu` department path, and the blocked file extensions;
  - `scraper` keeps the valid links of a page.
- **crawler/simhash.py.** The SimHash fingerprint store:
  - `_compute_simhash` builds a 256-entry ±1 vector per token from the binary digits of its blake2b digest, padded with -1. It adds `freq * vector` over the dict and keeps the positive columns.
  - `store_simhash`, `max_similarity` and `is_near_duplicate` work over the stored fingerprints.
- **crawler/worker.py.** The statistics shard each worker keeps:
  - `update_stats` adds a page to the crawled set, tracks the longest page, merges the word counts, and records ICS subdomains;
  - `report_stats` selects the 50 most frequent non-stopwords from a stable descending sort, and lists the subdomains in ascending order;
  - `add_word_freqs` (the worker's copy) and the `stopwords` set.

How the model represents the source:

- A Python dict is an insertion-ordered list of items (`Dicts.Dict`) with no repeated key.
  - `Dicts.Put` is `d[k] = v`: an existing key keeps its position, and a new key is appended.
  - This order matters. It decides which item `add_word_freqs` returns first, and how `report_stats` breaks ties between equal counts.
- The worker shard and the fingerprint store are classes whose fields the methods update in place.
- Library functions are parameters or constant fields: `urlparse`, `re.findall`, `blake2b`, `utils.normalize` and `utils.get_urlhash`.
- Raised exceptions are values: `Common.Result` and an `Option<Error>` return.

Each module has a reference definition, and the methods are proved against it:

| reference | method proved against it |
|---|---|
| `FrequencyDict` | the counting loop |
| `Combine` / `Merged` | the merge loop |
| `Signature` | the fingerprint loops |
| `TopWords` / `SortedStrings` | the report loop |

The properties the source promises are lemmas about those definitions.

Two behaviours of the code that the model keeps:

- A fingerprint bit is 1 only when its column is strictly positive (`simhash > 0`, crawler/simhash.py:85). A zero column gives 0.
- `store_simhash` looks up the URL's hash but writes under the URL (see Findings).

## Model

| member | source | states |
|---|---|---|
| Common.Lower | scraper.py:134 | the ASCII lowering keeps the length, leaves no capital `A`-`Z`, turns each capital into its small letter, and keeps every other character |
| Common.LowerIsIdempotent | scraper.py:134 | lowering an already lowered string changes nothing |
| Dicts.PutExisting | scraper.py:145-146 | assigning to a present key replaces its item in place and keeps the order of the others |
| Dicts.PutNew | scraper.py:143-144 | assigning to an absent key appends the item at the end |
| Dicts.PutFacts | crawler/worker.py:129 | `d[k] = v` keeps the keys distinct, and the dict's contents become the old contents with `k` mapped to `v` |
| Scraper.Tokenize | scraper.py:129-136 | one token per match of the word pattern, in match order, each the lower-cased match |
| Scraper.FirstOccurrences | scraper.py:140-147 | the keys of the counting dict are exactly the distinct tokens |
| Scraper.FrequencyDictFacts | scraper.py:140-147 | the reference count has distinct keys in first-occurrence order, and each value is the token's multiplicity |
| Scraper.FrequencyDictSnoc | scraper.py:142-146 | counting one more token bumps its entry in place, or appends it with count 1 |
| Scraper.ComputeWordFrequencies | scraper.py:140-147 | the loop returns the reference count: keys iff tokens, and each value is the number of occurrences |
| Scraper.CountsSumToLength | scraper.py:80-82 | the counts add up to the number of tokens (`word_num == len(words)`) |
| Scraper.AddInto | scraper.py:160-161 | adding `small` into `big` key by key yields `Combine(big, small)`: big's items in place with summed counts, then small's new keys in small's order |
| Scraper.AddWordFreqs | scraper.py:150-162 | copy, swap so the larger dict is first (`f1` on a tie), add: the result is `Merged(f1, f2)` |
| Scraper.MergedContents | scraper.py:150-162 | the merge has distinct keys, the union of both key sets, and the sum `f1.get(t,0) + f2.get(t,0)` for every token |
| Scraper.MergeCommutes | scraper.py:155-158 | the size swap does not change the contents; for dicts of different sizes not even the order changes |
| Scraper.MergeIdentity | scraper.py:150-162 | merging with an empty dict returns the other dict unchanged, order included |
| Scraper.MergeAssociates | scraper.py:150-162 | accumulating merges in any grouping gives the same contents |
| Scraper.FrequenciesAccumulate | scraper.py:80-85 | merging the counts of two token lists gives the counts of their concatenation |
| Scraper.IsValid | scraper.py:97-124 | TypeError iff an http(s) URL has no host name; False for other schemes; True iff a domain pattern matches the host, a `today.uci.edu` host has the department path, and the lower-cased path has no blocked extension |
| Scraper.MatchesDomainIsSuffix | scraper.py:105 | on a host without newlines, `re.match(".*" + d + "$", host)` is a suffix test in which each `.` of `d` is a wildcard |
| Scraper.EndsWithDomainMatches | scraper.py:105 | a host that literally ends in an allowed domain matches it |
| Scraper.ExtensionIsSuffix | scraper.py:112-120 | on a path without newlines the extension regex holds iff the path ends in `.` followed by one of the alternatives |
| Scraper.NoDotNoExtension | scraper.py:112-120 | a path without a `.` never matches the extension regex |
| Scraper.PlainPathIsAllowed | scraper.py:112-120 | a path without a `.` is never blocked after lower-casing |
| Scraper.EndsInCsIsInScope | scraper.py:23 | an http(s) URL whose newline-free host name merely ends in `cs.uci.edu` (for example `ecs.uci.edu`, `xcs.uci.edu`) is accepted whenever its lower-cased path has no blocked extension: the pattern has no label boundary |
| Scraper.CsHostMatches | scraper.py:105-108 | a host ending in `cs.uci.edu` matches that domain and never matches `today.uci.edu` |
| Scraper.PhysicsIsInScope | scraper.py:105 | `https://www.physics.uci.edu/people` is accepted |
| Scraper.WildcardDotIsInScope | scraper.py:105 | `statxuci.edu` is accepted through the unescaped `.` of `stat.uci.edu` |
| Scraper.ForeignHostIsOutOfScope | scraper.py:105-106 | `https://evil.com/` matches no domain pattern and is rejected |
| Scraper.UpperPdfIsBlocked | scraper.py:120 | any newline-free path ending in `.PDF` is blocked, because the test runs on `path.lower()` |
| Scraper.UpperCaseExtensionIsBlocked | scraper.py:112-120 | `https://www.ics.uci.edu/papers/Report.PDF` is rejected |
| Scraper.ExtensionBlocked | scraper.py:112-120 | a path ending in `.` plus a listed alternative is blocked |
| Scraper.TodayOutsideDepartmentIsOutOfScope | scraper.py:107-110 | `https://today.uci.edu/events`, outside the department path, is rejected |
| Scraper.Scraper | scraper.py:29-31 | the comprehension raises iff `is_valid` raises on some link; otherwise the result is a subsequence of the links |
| Scraper.ScraperCounts | scraper.py:29-31 | each accepted link appears as often as it was extracted, and no rejected link appears |
| SimHashing.Bin | crawler/simhash.py:75 | `bin(b)[2:]` is a non-empty string of `0`/`1` digits |
| SimHashing.BinRoundTrip | crawler/simhash.py:75-76 | reading the digits back gives the byte |
| SimHashing.ByteDigits | crawler/simhash.py:74-75 | a byte yields one to eight digits, led by `1` unless it is zero (leading zeros are dropped) |
| SimHashing.TokenVector | crawler/simhash.py:73-77 | every entry of the digit vector is 1 or -1 |
| SimHashing.TokenVectorLength | crawler/simhash.py:79-82 | a 32-byte digest gives between 32 and 256 entries, so after padding the assert `len(vector) == 256` always holds |
| SimHashing.HashVector | crawler/simhash.py:72-82 | the padded vector of a token has exactly 256 entries, each ±1 |
| SimHashing.Signature | crawler/simhash.py:83-86 | the fingerprint has 256 bits, and bit `i` is 1 iff the sum of `freq * vector[i]` over the items is positive |
| SimHashing.EmptySignature | crawler/simhash.py:70-86 | an empty dict fingerprints to all zeros |
| SimHashing.SimHash.ComputeSimhash | crawler/simhash.py:55-86 | the nested loops over items, digest bytes and digits compute exactly `Signature`, a 0/1 vector of 256 entries |
| SimHashing.ColumnOfPermutation | crawler/simhash.py:71-83 | each column is independent of the order of the items |
| SimHashing.SignatureOfContents | crawler/simhash.py:55-86 | two dicts with the same contents have the same fingerprint, whatever their insertion order |
| SimHashing.Agreement | crawler/simhash.py:42 | `(vector == V).sum()` is at most the vector length |
| SimHashing.SelfAgreement | crawler/simhash.py:42 | a fingerprint agrees with itself everywhere |
| SimHashing.FullAgreement | crawler/simhash.py:42 | full agreement holds iff the vectors are equal |
| SimHashing.DefaultThresholdBits | crawler/simhash.py:48-51 | with the default threshold 0.9, a page is a near duplicate iff at least 231 of the 256 bits agree |
| SimHashing.IdenticalExceeds | crawler/simhash.py:51 | an identical fingerprint exceeds every threshold below 1 |
| SimHashing.StoreContents | crawler/simhash.py:31-36 | the corrected store (see Findings; as written, line 35 writes under the URL): it adds one entry under the hash, and only when the hash is absent |
| SimHashing.StoreIdempotent | crawler/simhash.py:34 | storing a page twice leaves the store as after the first time |
| SimHashing.StoreAsWrittenOverwrites | crawler/simhash.py:34-35 | as written, the hash never becomes a key, so a second store of the page overwrites its fingerprint |
| SimHashing.StoreKeepsValid | crawler/simhash.py:35 | writing a fingerprint keeps the keys distinct and every value a 256-bit 0/1 vector |
| SimHashing.SimHash.constructor | crawler/simhash.py:14-29 | opening the store gives the empty store on a restart, otherwise the saved entries |
| SimHashing.SimHash.StoreSimhash | crawler/simhash.py:31-36 | the corrected `store_simhash` paired with `StoreSimhashAsWritten` in Findings: the new store is `Store(old, get_urlhash(normalize(url)), fingerprint)`, writing under the hash the guard tests |
| SimHashing.SimHash.StoreSimhashAsWritten | crawler/simhash.py:31-36 | the guard tests the hash but the write goes under the normalized URL |
| SimHashing.SimHash.MaxSimilarity | crawler/simhash.py:38-46 | returns the highest agreement over the store and the first key that reaches it; `None` iff nothing agrees anywhere |
| SimHashing.SimHash.IsNearDuplicate | crawler/simhash.py:48-53 | true iff some stored fingerprint agrees with the page's on more than the threshold fraction; the threshold defaults to 0.9 |
| Workers.Insert | crawler/worker.py:81 | inserting into a non-increasing list keeps it non-increasing and adds exactly the item |
| Workers.InsertLevel | crawler/worker.py:81 | insertion places the item after all earlier items of the same frequency |
| Workers.SortByFreqDesc | crawler/worker.py:81 | `sorted(items, key=freq, reverse=True)` is non-increasing in frequency and a permutation of the items |
| Workers.SortIsStable | crawler/worker.py:81 | items of equal frequency keep their dict order after sorting |
| Workers.NonStopMembers | crawler/worker.py:82 | the filter keeps exactly the items whose word is not a stopword |
| Workers.NonStopKeepsOrder | crawler/worker.py:82-83 | filtering a non-increasing list keeps it non-increasing |
| Workers.NonStopLevel | crawler/worker.py:81-83 | filtering by word and grouping by frequency commute |
| Workers.TopPrefix | crawler/worker.py:84-85 | once the scanned prefix holds 50 non-stopwords, those are the first 50 of the whole filtered list |
| Workers.TopWordsShape | crawler/worker.py:79-85 | at most 50 entries, in non-increasing order of frequency |
| Workers.TopWordsMembers | crawler/worker.py:82 | every listed entry is an entry of the dict and not a stopword |
| Workers.TopWordsComplete | crawler/worker.py:79-85 | an omitted non-stopword is no more frequent than any listed entry |
| Workers.TopWordsLength | crawler/worker.py:79-85 | the list holds exactly 50 entries when there are more than 50 non-stopwords, and otherwise every non-stopword item, each once |
| Workers.NonStopOfPermutation | crawler/worker.py:81-82 | filtering the sorted items keeps the same items as filtering the dict |
| Workers.TopWordsTies | crawler/worker.py:81-85 | among words of equal frequency, the list takes the first ones in dict order |
| Workers.StrLtIrreflexive | crawler/worker.py:95 | Python's string `<` is irreflexive |
| Workers.StrLtTransitive | crawler/worker.py:95 | Python's string `<` is transitive |
| Workers.StrLtTotal | crawler/worker.py:95 | distinct strings are ordered one way and only one |
| Workers.LeastExists | crawler/worker.py:95 | every non-empty set of strings has a least element |
| Workers.SortedStrings | crawler/worker.py:95-96 | `sorted(ics_subdomains)` lists each subdomain exactly once, in strictly ascending order |
| Workers.Worker.constructor | crawler/worker.py:41-42 | a new shard: nothing crawled, no longest page (count 0), empty counts, no subdomains |
| Workers.Worker.AddWordFreqs | crawler/worker.py:117-130 | the same merge as `scraper.add_word_freqs`: key union and summed counts |
| Workers.Worker.UpdateStats | crawler/worker.py:46-67 | see the paragraph below this table |
| Workers.Worker.ReportStats | crawler/worker.py:69-96 | the report holds the page count, `TopWords` of the counts, the longest page and `SortedStrings` of the subdomains |

`Workers.Worker.UpdateStats` covers three cases:

- A URL already crawled raises AssertionError and leaves the shard unchanged.
- A URL with no host name raises TypeError before the write-back, so the shard is unchanged.
- Otherwise:
  - the crawled set gains the URL, so the page count grows by exactly 1;
  - the longest page moves only on a strictly greater word count;
  - the counts become the merge of the old counts and the page's counts;
  - the host name joins the subdomains iff it contains `.ics.uci.edu`.

## Left out

- Threads, `Worker.run`, the frontier and the crawl loop: these are concurrency and I/O orchestration. The loop's call of `scraper.scraper` with three arguments (crawler/worker.py:144) is outside the model, and so is the exception it swallows.
- Persistence:
  - the pickle load and dump around `update_stats` and `report_stats`;
  - `pickle_init`'s file modes and its reuse of an existing file;
  - the shelve file of the fingerprint store.

  The shard and the store are modelled as the objects' state instead.
- `extract_next_links`: HTML parsing, absolute links, fragment removal, and the module-level statistics it updates. The links reach `Scraper.Scraper` as a parameter.
- `urlparse`, `re.findall(r"\b\S+\b", ·)`, `blake2b`, `utils.normalize` and `utils.get_urlhash` are library code. They are parameters, or constant fields of `SimHash`.
  - The model knows only that a blake2b digest has 32 bytes.
  - `digest_size` is fixed at 32. Other sizes, and the `ValueError` that blake2b raises for sizes above 64, are out.
- The text of the report, its file write, and the `print` calls.
- Common.Lower: handles ASCII letters only. Python's `str.lower()` also folds other Unicode letters, and can change the length (`'İ'`, U+0130, becomes two code points); the model keeps the length.
- SimHashing.SimHash.MaxSimilarity: the model iterates the store in the order its entries were written. A `shelve` iterates in its dbm backend's key order, which is in general different. On ties that order decides which key is returned, so the model does not capture which of several equally similar keys the source returns.
- SimHashing.SimHash.MaxSimilarity: returns the agreement count rather than the numpy float `mean()`. The similarity is that count divided by 256, and the order of comparisons is the same.
- SimHashing.Signature: the columns are exact unbounded integers. The source sums `freq * vector` (int64 products) into a float64 array, which is exact only while every column sum stays below 2^53 in absolute value; larger sums can round, and the model does not capture that.
- SimHashing.SimHash.IsNearDuplicate: the float threshold is a rational `num/den`, and numpy's float arithmetic is taken as exact.
- Scraper.AddWordFreqs: its contract states only the equality with `Merged`. The key-union and sum properties are in `Scraper.MergedContents`, and `Workers.Worker.AddWordFreqs` states them directly.
- Scraper.IsValid: exceptions of `urlparse` itself (for example on malformed IPv6 hosts) are out. Only the TypeError that `re.match` raises on a missing host name is modelled.

## Findings

| source | as written | input that shows it | evidently intended | confidence | as-written member | corrected member |
|---|---|---|---|---|---|---|
| crawler/simhash.py:34-35 | `store_simhash` tests `urlhash not in self.save` but writes `self.save[url]`. The guard never sees what was written, so every store of a page whose hash differs from its URL re-stores it and overwrites the earlier fingerprint. | `store_simhash(u, wf1)` then `store_simhash(u, wf2)` with `get_urlhash(normalize(u)) != normalize(u)`: the second call overwrites, and the hash key is still absent. test.py:44 reads `save[get_urlhash(url)]`, which is then missing. | the value is stored under `urlhash`, so a second store of the same page changes nothing | not executed | SimHashing.StoreAsWrittenOverwrites | SimHashing.StoreIdempotent |
