/** The SimHash fingerprints of `crawler/simhash.py` and the store of
    fingerprints the crawler consults to skip near-duplicate pages. */
module SimHashing {
  import opened Common
  import opened Dicts

  type Byte = b: int | 0 <= b < 256

  /** `digest_size`: the hash has this many bytes. */
  const DigestSize: nat := 32

  /** `digest_size * 8`: the number of entries of a fingerprint. */
  const Bits: nat := DigestSize * 8

  /** `blake2b(token.encode("utf-8"), digest_size=32).digest()`, a library
      function; all the model knows about it is the length of its digest. */
  type Blake2b = h: string -> seq<Byte> | forall t :: |h(t)| == DigestSize
    witness (t: string) => seq(DigestSize, i => 0)

  /** A word-frequency dict as `_compute_simhash` receives it. */
  type WordFreq = Dict<string, int>

  // ------------------------------------------------------------ bin(b)[2:]

  function Digit(d: nat): char
  {
    if d == 0 then '0' else '1'
  }

  /** `bin(b)[2:]`: the binary digits of `b`, most significant first,
      without leading zeros (`"0"` for zero). */
  function Bin(b: nat): (r: string)
    ensures |r| >= 1
    ensures forall i :: 0 <= i < |r| ==> r[i] == '0' || r[i] == '1'
    decreases b
  {
    if b < 2 then [Digit(b)] else Bin(b / 2) + [Digit(b % 2)]
  }

  /** The number a string of binary digits denotes: Python's `int(s, 2)`. */
  function FromBin(s: string): nat
  {
    if s == [] then 0 else 2 * FromBin(s[..|s| - 1]) + if s[|s| - 1] == '1' then 1 else 0
  }

  function Pow2(k: nat): nat
  {
    if k == 0 then 1 else 2 * Pow2(k - 1)
  }

  /** The digits of `bin` read back give the number. */
  lemma {:induction false} BinRoundTrip(b: nat)
    ensures FromBin(Bin(b)) == b
    decreases b
  {
    var r := Bin(b);
    if b >= 2 {
      BinRoundTrip(b / 2);
      assert r[..|r| - 1] == Bin(b / 2);
    }
  }

  /** A number below `2^k` has at most `k` binary digits. */
  lemma {:induction false} BinLength(b: nat, k: nat)
    requires 1 <= k && b < Pow2(k)
    ensures |Bin(b)| <= k
    decreases k
  {
    assert Pow2(1) == 2;
    if b >= 2 {
      BinLength(b / 2, k - 1);
    }
  }

  /** A byte gives one to eight digits; only zero starts with `0`. */
  lemma ByteDigits(b: Byte)
    ensures 1 <= |Bin(b)| <= 8
    ensures Bin(b)[0] == '1' <==> b > 0
  {
    assert Pow2(8) == 256;
    BinLength(b, 8);
    LeadingDigit(b);
  }

  lemma {:induction false} LeadingDigit(b: nat)
    ensures Bin(b)[0] == '1' <==> b > 0
    decreases b
  {
    if b >= 2 {
      LeadingDigit(b / 2);
    }
  }

  // ------------------------------------------------------------ ±1 vectors

  /** `1 if int(bit) > 0 else -1`. */
  function Sign(c: char): int
  {
    var bit := if c == '1' then 1 else 0;
    if bit > 0 then 1 else -1
  }

  function Signs(digits: string): (r: seq<int>)
    ensures |r| == |digits|
  {
    seq(|digits|, i requires 0 <= i < |digits| => Sign(digits[i]))
  }

  /** The ±1 entries of a digest before padding: the digits of each byte in
      turn. */
  function TokenVector(hash: seq<Byte>): (r: seq<int>)
    ensures forall i :: 0 <= i < |r| ==> r[i] == 1 || r[i] == -1
  {
    if hash == [] then []
    else TokenVector(hash[..|hash| - 1]) + Signs(Bin(hash[|hash| - 1]))
  }

  /** Each byte contributes between one and eight entries. */
  lemma {:induction false} TokenVectorLength(hash: seq<Byte>)
    ensures |hash| <= |TokenVector(hash)| <= 8 * |hash|
  {
    if hash != [] {
      TokenVectorLength(hash[..|hash| - 1]);
      ByteDigits(hash[|hash| - 1]);
    }
  }

  /** `vector.extend([-1 for _ in range(digest_size * 8 - len(vector))])` when
      the vector is short. */
  function Padded(v: seq<int>): seq<int>
  {
    if |v| < Bits then v + seq(Bits - |v|, i => -1) else v
  }

  /** The ±1 vector a token contributes. */
  function HashVector(blake2b: Blake2b, token: string): (r: seq<int>)
    ensures |r| == Bits
    ensures forall i :: 0 <= i < Bits ==> r[i] == 1 || r[i] == -1
  {
    var v := TokenVector(blake2b(token));
    TokenVectorLength(blake2b(token));
    Padded(v)
  }

  /** Entry `i` of the accumulator: the sum over the dict's items of
      `freq * vector[i]`. */
  function Column(wf: WordFreq, blake2b: Blake2b, i: nat): int
    requires i < Bits
  {
    if wf == [] then 0
    else
      var n := |wf| - 1;
      Column(wf[..n], blake2b, i) + wf[n].1 * HashVector(blake2b, wf[n].0)[i]
  }

  /** The fingerprint: entry `i` is 1 exactly when column `i` is positive. */
  function Signature(wf: WordFreq, blake2b: Blake2b): (r: seq<int>)
    ensures |r| == Bits
    ensures forall i :: 0 <= i < Bits ==> (r[i] == 1 <==> Column(wf, blake2b, i) > 0) && (r[i] == 0 || r[i] == 1)
  {
    seq(Bits, i requires 0 <= i < Bits => if Column(wf, blake2b, i) > 0 then 1 else 0)
  }

  predicate IsSignature(v: seq<int>)
  {
    |v| == Bits && forall i :: 0 <= i < |v| ==> v[i] == 0 || v[i] == 1
  }

  /** With no tokens every column is zero, hence every bit is 0. */
  lemma EmptySignature(blake2b: Blake2b)
    ensures Signature([], blake2b) == seq(Bits, i => 0)
  {
  }

  /** Taking item `j` out of the dict takes its term out of every column. */
  lemma {:induction false} ColumnRemove(wf: WordFreq, blake2b: Blake2b, i: nat, j: nat)
    requires i < Bits && j < |wf|
    ensures Column(wf, blake2b, i) == Column(wf[..j] + wf[j + 1..], blake2b, i) + wf[j].1 * HashVector(blake2b, wf[j].0)[i]
    decreases |wf|
  {
    var n := |wf| - 1;
    if j < n {
      var rest := wf[..j] + wf[j + 1..];
      assert rest[..|rest| - 1] == wf[..n][..j] + wf[..n][j + 1..];
      assert rest[|rest| - 1] == wf[n];
      ColumnRemove(wf[..n], blake2b, i, j);
    } else {
      assert wf[..j] + wf[j + 1..] == wf[..n];
    }
  }

  /** The columns do not depend on the order of the items. */
  lemma {:induction false} ColumnOfPermutation(a: WordFreq, b: WordFreq, blake2b: Blake2b, i: nat)
    requires i < Bits && multiset(a) == multiset(b)
    ensures Column(a, blake2b, i) == Column(b, blake2b, i)
    decreases |a|
  {
    if a != [] {
      var n := |a| - 1;
      var j := PermutationWithoutLast(a, b);
      ColumnOfPermutation(a[..n], b[..j] + b[j + 1..], blake2b, i);
      ColumnRemove(b, blake2b, i, j);
    } else {
      assert |b| == |multiset(b)| == 0;
    }
  }

  /** Where the last item of `a` sits in its permutation `b`, and what is left
      on either side once it is taken out. */
  lemma PermutationWithoutLast<T>(a: seq<T>, b: seq<T>) returns (j: nat)
    requires a != [] && multiset(a) == multiset(b)
    ensures j < |b| && b[j] == a[|a| - 1]
    ensures multiset(a[..|a| - 1]) == multiset(b[..j] + b[j + 1..])
  {
    var n := |a| - 1;
    var x := a[n];
    assert x in multiset(b);
    j :| 0 <= j < |b| && b[j] == x;
    assert a[..n] + a[n + 1..] == a[..n];
    MultisetRemove(a, n);
    MultisetRemove(b, j);
    assert multiset(a[..n]) == multiset(a) - multiset{x};
    assert multiset(b[..j] + b[j + 1..]) == multiset(b) - multiset{x};
  }

  /** Dicts with equal contents have equal fingerprints, whatever the order in
      which their items are stored. */
  lemma SignatureOfContents(a: WordFreq, b: WordFreq, blake2b: Blake2b)
    requires IsDict(a) && IsDict(b) && ToMap(a) == ToMap(b)
    ensures Signature(a, blake2b) == Signature(b, blake2b)
  {
    SameContentsSameItems(a, b);
    forall i | 0 <= i < Bits
      ensures Column(a, blake2b, i) == Column(b, blake2b, i)
    {
      ColumnOfPermutation(a, b, blake2b, i);
    }
  }

  // ------------------------------------------------------------ similarity

  /** `(vector == V).sum()`: the number of positions where the two agree. */
  function Agreement(v: seq<int>, w: seq<int>): (r: nat)
    requires |v| == |w|
    ensures r <= |v|
  {
    if v == [] then 0
    else Agreement(v[..|v| - 1], w[..|w| - 1]) + if v[|v| - 1] == w[|w| - 1] then 1 else 0
  }

  /** A vector agrees with itself everywhere: its similarity is 1. */
  lemma {:induction false} SelfAgreement(v: seq<int>)
    ensures Agreement(v, v) == |v|
  {
    if v != [] {
      SelfAgreement(v[..|v| - 1]);
    }
  }

  /** Agreement is exactly |v| only for equal vectors. */
  lemma {:induction false} FullAgreement(v: seq<int>, w: seq<int>)
    requires |v| == |w|
    ensures Agreement(v, w) == |v| <==> v == w
  {
    if v != [] {
      var n := |v| - 1;
      FullAgreement(v[..n], w[..n]);
      if v[..n] == w[..n] && v[n] == w[n] {
        assert v == v[..n] + [v[n]] && w == w[..n] + [w[n]];
      }
    }
  }

  /** A similarity threshold `num/den`; the source takes a float. */
  datatype Ratio = Ratio(num: int, den: nat)

  predicate ValidRatio(t: Ratio)
  {
    t.den > 0
  }

  /** `(vector == V).mean() > threshold`, i.e. `agree / Bits > num / den`. */
  predicate Exceeds(agree: nat, t: Ratio)
  {
    agree * t.den > t.num * Bits
  }

  /** The default threshold `0.9`. */
  const DefaultThreshold: Ratio := Ratio(9, 10)

  /** Over 256 bits, more than 90% agreement means at least 231 agreeing bits. */
  lemma DefaultThresholdBits(agree: nat)
    ensures Exceeds(agree, DefaultThreshold) <==> agree >= 231
  {
  }

  /** A fingerprint compared with itself exceeds every threshold below 1. */
  lemma IdenticalExceeds(v: seq<int>, t: Ratio)
    requires |v| == Bits && ValidRatio(t) && t.num < t.den
    ensures Exceeds(Agreement(v, v), t)
  {
    SelfAgreement(v);
  }

  // ------------------------------------------------------------ the store

  /** The corrected `store_simhash` on values: write under the URL's hash
      unless that hash is already a key. */
  function Store(save: Dict<string, seq<int>>, key: string, sig: seq<int>): Dict<string, seq<int>>
  {
    if key in Keys(save) then save else Put(save, key, sig)
  }

  /** `store_simhash` as written: the guard tests the hash `key` but the
      write goes under the normalized URL `url`. */
  function StoreAsWritten(save: Dict<string, seq<int>>, url: string, key: string, sig: seq<int>): Dict<string, seq<int>>
  {
    if key in Keys(save) then save else Put(save, url, sig)
  }

  /** The store gains the one entry, only when its key is new. */
  lemma StoreContents(save: Dict<string, seq<int>>, key: string, sig: seq<int>)
    requires IsDict(save)
    ensures IsDict(Store(save, key, sig))
    ensures ToMap(Store(save, key, sig)) == if key in ToMap(save) then ToMap(save) else ToMap(save)[key := sig]
  {
    ToMapItems(save);
    if key !in Keys(save) {
      PutFacts(save, key, sig);
    }
  }

  /** Storing a page a second time changes nothing. */
  lemma StoreIdempotent(save: Dict<string, seq<int>>, key: string, sig1: seq<int>, sig2: seq<int>)
    ensures key in Keys(Store(save, key, sig1))
    ensures Store(Store(save, key, sig1), key, sig2) == Store(save, key, sig1)
  {
    if key !in Keys(save) {
      PutNew(save, key, sig1);
      assert Keys(save + [(key, sig1)])[|save|] == key;
    }
  }

  /** As written, the guard never fires after a first store of a page whose
      hash differs from its URL: a second store overwrites the first
      fingerprint, and the hash never becomes a key. */
  lemma StoreAsWrittenOverwrites(save: Dict<string, seq<int>>, url: string, key: string, sig1: seq<int>, sig2: seq<int>)
    requires IsDict(save) && key !in Keys(save) && url != key
    ensures var once := StoreAsWritten(save, url, key, sig1);
      var twice := StoreAsWritten(once, url, key, sig2);
      key !in Keys(twice) && url in ToMap(twice) && ToMap(twice)[url] == sig2
  {
    var once := StoreAsWritten(save, url, key, sig1);
    PutFacts(save, url, sig1);
    ToMapItems(save);
    ToMapItems(once);
    assert key !in Keys(once);
    PutFacts(once, url, sig2);
    ToMapItems(StoreAsWritten(once, url, key, sig2));
  }

  /** The fingerprint store of a crawl, `self.save`: a shelve from URL hash to
      fingerprint, iterated in the order its entries were written. */
  class SimHash {
    /** `utils.normalize` and `utils.get_urlhash`, library functions. */
    const normalize: string -> string
    const getUrlhash: string -> string
    const blake2b: Blake2b
    var save: Dict<string, seq<int>>

    ghost predicate Valid()
      reads this
    {
      IsDict(save) && forall i :: 0 <= i < |save| ==> IsSignature(save[i].1)
    }

    /** Opens the store: empty on a restart, otherwise the saved entries. */
    constructor (normalize: string -> string, getUrlhash: string -> string, blake2b: Blake2b,
                 restart: bool, saved: Dict<string, seq<int>>)
      requires IsDict(saved) && forall i :: 0 <= i < |saved| ==> IsSignature(saved[i].1)
      ensures Valid()
      ensures this.normalize == normalize && this.getUrlhash == getUrlhash && this.blake2b == blake2b
      ensures save == if restart then [] else saved
    {
      this.normalize := normalize;
      this.getUrlhash := getUrlhash;
      this.blake2b := blake2b;
      save := if restart then [] else saved;
    }

    /** `_compute_simhash(word_freq)`: accumulates `freq * vector` over the
        items and keeps the signs. */
    static method ComputeSimhash(wordFreq: WordFreq, blake2b: Blake2b) returns (simhash: seq<int>)
      ensures simhash == Signature(wordFreq, blake2b)
      ensures IsSignature(simhash)
    {
      var acc := seq(Bits, i => 0);
      for idx := 0 to |wordFreq|
        invariant |acc| == Bits
        invariant forall i :: 0 <= i < Bits ==> acc[i] == Column(wordFreq[..idx], blake2b, i)
      {
        var (token, freq) := wordFreq[idx];
        var hashBytes := blake2b(token);
        var vector := [];
        for b := 0 to |hashBytes|
          invariant vector == TokenVector(hashBytes[..b])
        {
          var digits := Bin(hashBytes[b]);
          assert hashBytes[..b + 1][..b] == hashBytes[..b];
          ghost var before := vector;
          for j := 0 to |digits|
            invariant vector == before + Signs(digits[..j])
          {
            var bit := if digits[j] == '1' then 1 else 0;
            vector := vector + [if bit > 0 then 1 else -1];
            assert Signs(digits[..j + 1]) == Signs(digits[..j]) + [Sign(digits[j])];
          }
          assert digits[..|digits|] == digits;
        }
        assert hashBytes[..|hashBytes|] == hashBytes;
        TokenVectorLength(hashBytes);
        if |vector| < Bits {
          vector := vector + seq(Bits - |vector|, i => -1);
        }
        assert |vector| == Bits;
        assert vector == HashVector(blake2b, token);
        assert wordFreq[..idx + 1][..idx] == wordFreq[..idx];
        acc := seq(Bits, i requires 0 <= i < Bits => acc[i] + freq * vector[i]);
      }
      assert wordFreq[..|wordFreq|] == wordFreq;
      simhash := seq(Bits, i requires 0 <= i < Bits => if acc[i] > 0 then 1 else 0);
    }

    /** `store_simhash(url, word_freq)`, keyed by the URL's hash both in the
        guard and in the write. */
    method StoreSimhash(url: string, wordFreq: WordFreq)
      requires Valid()
      modifies this
      ensures Valid()
      ensures save == Store(old(save), getUrlhash(normalize(url)), Signature(wordFreq, blake2b))
    {
      var u := normalize(url);
      var urlhash := getUrlhash(u);
      if urlhash !in Keys(save) {
        var sig := ComputeSimhash(wordFreq, blake2b);
        StoreKeepsValid(save, urlhash, sig);
        save := Put(save, urlhash, sig);
      }
    }

    /** `store_simhash(url, word_freq)` as written: the guard looks up the
        hash, the write uses the normalized URL. */
    method StoreSimhashAsWritten(url: string, wordFreq: WordFreq)
      requires Valid()
      modifies this
      ensures Valid()
      ensures save == StoreAsWritten(old(save), normalize(url), getUrlhash(normalize(url)), Signature(wordFreq, blake2b))
    {
      var u := normalize(url);
      var urlhash := getUrlhash(u);
      if urlhash !in Keys(save) {
        var sig := ComputeSimhash(wordFreq, blake2b);
        StoreKeepsValid(save, u, sig);
        save := Put(save, u, sig);
      }
    }

    /** `max_similarity(word_freq)`: the first stored entry with the highest
        agreement, or `None` with 0 when nothing agrees anywhere. The
        similarity itself is `maxAgree / Bits`. */
    method MaxSimilarity(wordFreq: WordFreq) returns (maxUrl: Option<string>, maxAgree: nat)
      requires Valid()
      ensures var v := Signature(wordFreq, blake2b);
        (forall i :: 0 <= i < |save| ==> Agreement(save[i].1, v) <= maxAgree) &&
        (maxUrl.None? <==> maxAgree == 0) &&
        (maxUrl.Some? ==>
          exists i :: (0 <= i < |save| && save[i].0 == maxUrl.value &&
            Agreement(save[i].1, v) == maxAgree &&
            forall j :: 0 <= j < i ==> Agreement(save[j].1, v) < maxAgree))
    {
      var v := ComputeSimhash(wordFreq, blake2b);
      maxUrl, maxAgree := None, 0;
      ghost var at := 0;
      for k := 0 to |save|
        invariant forall i :: 0 <= i < k ==> Agreement(save[i].1, v) <= maxAgree
        invariant maxUrl.None? <==> maxAgree == 0
        invariant maxUrl.Some? ==>
          (at < k && save[at].0 == maxUrl.value && Agreement(save[at].1, v) == maxAgree &&
           forall j :: 0 <= j < at ==> Agreement(save[j].1, v) < maxAgree)
      {
        var (url, vector) := save[k];
        var sim := Agreement(vector, v);
        if sim > maxAgree {
          maxAgree := sim;
          maxUrl := Some(url);
          at := k;
        }
      }
    }

    /** `is_near_duplicate(word_freq, threshold)`: some stored fingerprint
        agrees with the page's on more than the threshold fraction. */
    method IsNearDuplicate(wordFreq: WordFreq, threshold: Ratio := DefaultThreshold) returns (r: bool)
      requires Valid() && ValidRatio(threshold)
      ensures r <==> exists i :: 0 <= i < |save| && Exceeds(Agreement(save[i].1, Signature(wordFreq, blake2b)), threshold)
    {
      var v := ComputeSimhash(wordFreq, blake2b);
      for k := 0 to |save|
        invariant forall i :: 0 <= i < k ==> !Exceeds(Agreement(save[i].1, v), threshold)
      {
        var vector := save[k].1;
        if Exceeds(Agreement(vector, v), threshold) {
          return true;
        }
      }
      return false;
    }
  }

  /** Writing a fingerprint keeps the store well formed. */
  lemma StoreKeepsValid(save: Dict<string, seq<int>>, key: string, sig: seq<int>)
    requires IsDict(save) && forall i :: 0 <= i < |save| ==> IsSignature(save[i].1)
    requires IsSignature(sig)
    ensures IsDict(Put(save, key, sig))
    ensures forall i :: 0 <= i < |Put(save, key, sig)| ==> IsSignature(Put(save, key, sig)[i].1)
  {
    PutFacts(save, key, sig);
    if key in Keys(save) {
      PutExisting(save, key, sig);
    } else {
      PutNew(save, key, sig);
    }
  }
}
