/**
 * The counting bag of words of twitgrep/bag_of_words.py: a dictionary from
 * word to number of occurrences, kept in insertion order, and the matrix of
 * (word, count) pairs sorted by count.
 */
module TwitgrepBagOfWords {
  import opened Wrappers
  import opened PyStr

  /** A Python dict from words to counts: its keys in insertion order, and the mapping. */
  datatype Dict = Dict(keys: seq<string>, counts: map<string, int>)

  const EmptyDict := Dict([], map[])

  /** The keys are distinct, are exactly the mapped words, and every count is at least 1. */
  predicate WellFormed(d: Dict) {
    && Distinct(d.keys)
    && (forall k :: k in d.keys ==> k in d.counts)
    && (forall k :: k in d.counts ==> k in d.keys && d.counts[k] >= 1)
  }

  /** `self.words[word]`, with the KeyError read as 0. */
  function Get(d: Dict, w: string): int {
    if w in d.counts then d.counts[w] else 0
  }

  /** One pass of the loop in `add_words`; a new key goes to the end of the order. */
  function Put(d: Dict, w: string): Dict {
    Dict(if w in d.counts then d.keys else d.keys + [w], d.counts[w := Get(d, w) + 1])
  }

  /** The dict after `add_words(ws)`. */
  function Tally(d: Dict, ws: seq<string>): Dict
    decreases |ws|
  {
    if ws == [] then d else Tally(Put(d, ws[0]), ws[1..])
  }

  /** Counting from word `i` on: word `i` first, then the words after it. */
  lemma TallyStep(d: Dict, ws: seq<string>, i: nat)
    requires i < |ws|
    ensures Tally(d, ws[i..]) == Tally(Put(d, ws[i]), ws[i + 1..])
  {
    assert ws[i..][0] == ws[i] && ws[i..][1..] == ws[i + 1..];
  }

  /** Proof helper: `Put` with the new count already computed. */
  lemma PutIs(d: Dict, w: string, num: int)
    requires num == Get(d, w) + 1
    ensures Put(d, w) == Dict(if w in d.counts then d.keys else d.keys + [w], d.counts[w := num])
  {
  }

  // ---------------------------------------------------------------------
  // Properties of counting

  lemma PutWellFormed(d: Dict, w: string)
    requires WellFormed(d)
    ensures WellFormed(Put(d, w))
  {
  }

  lemma {:induction false} TallyWellFormed(d: Dict, ws: seq<string>)
    requires WellFormed(d)
    ensures WellFormed(Tally(d, ws))
    decreases |ws|
  {
    if ws != [] {
      PutWellFormed(d, ws[0]);
      TallyWellFormed(Put(d, ws[0]), ws[1..]);
    }
  }

  /** Each count is the old count (0 when absent) plus the occurrences in `ws`; no case folding. */
  lemma {:induction false} TallyCounts(d: Dict, ws: seq<string>, w: string)
    ensures Get(Tally(d, ws), w) == Get(d, w) + Count(ws, w)
    decreases |ws|
  {
    if ws != [] {
      TallyCounts(Put(d, ws[0]), ws[1..], w);
    }
  }

  /** Keys are only added, at the end: the old order is a prefix of the new one. */
  lemma {:induction false} TallyExtends(d: Dict, ws: seq<string>)
    ensures |d.keys| <= |Tally(d, ws).keys| && Tally(d, ws).keys[..|d.keys|] == d.keys
    decreases |ws|
  {
    if ws != [] {
      var next := Put(d, ws[0]);
      TallyExtends(next, ws[1..]);
      assert next.keys[..|d.keys|] == d.keys;
      assert Tally(d, ws).keys[..|d.keys|] == Tally(next, ws[1..]).keys[..|next.keys|][..|d.keys|];
    }
  }

  /** The keys afterwards are the old keys and the words of `ws`. */
  lemma {:induction false} TallyKeySet(d: Dict, ws: seq<string>)
    requires WellFormed(d)
    ensures Elements(Tally(d, ws).keys) == Elements(d.keys) + Elements(ws)
    decreases |ws|
  {
    if ws != [] {
      PutWellFormed(d, ws[0]);
      PutKeySet(d, ws[0]);
      TallyKeySet(Put(d, ws[0]), ws[1..]);
      ElementsFirst(ws);
    }
  }

  lemma PutKeySet(d: Dict, w: string)
    requires WellFormed(d)
    ensures Elements(Put(d, w).keys) == Elements(d.keys) + {w}
  {
  }

  /** A well-formed dict has as many keys in its order as in its mapping. */
  lemma KeysMatchCounts(d: Dict)
    requires WellFormed(d)
    ensures |d.keys| == |d.counts|
  {
    DistinctCard(d.keys);
    assert d.counts.Keys == Elements(d.keys);
  }

  /** `len(bag)` for a bag built from `ws` is the number of distinct words in `ws`. */
  lemma SizeCountsDistinct(ws: seq<string>)
    ensures |Tally(EmptyDict, ws).counts| == |Elements(ws)|
  {
    TallyWellFormed(EmptyDict, ws);
    TallyKeySet(EmptyDict, ws);
    KeysMatchCounts(Tally(EmptyDict, ws));
    DistinctCard(Tally(EmptyDict, ws).keys);
    assert Elements<string>([]) == {};
  }

  /** Words differing only in case are counted apart. */
  lemma NoCaseFolding()
    ensures Tally(EmptyDict, ["A", "a"]) == Dict(["A", "a"], map["A" := 1, "a" := 1])
  {
    assert "A" != "a";
    assert ["A", "a"][1..] == ["a"];
  }

  // ---------------------------------------------------------------------
  // Sorting by count

  /** The comparison `sorted` uses: ascending counts, or descending with `reverse`; ties are in order. */
  predicate Precedes(a: int, b: int, reverse: bool) {
    if reverse then a >= b else a <= b
  }

  /** `self.words.get(k)` for a key that is present. */
  function Value(counts: map<string, int>, k: string): int {
    if k in counts then counts[k] else 0
  }

  /** Sorted by count, in the direction `reverse` asks for. */
  predicate Ordered(xs: seq<string>, counts: map<string, int>, reverse: bool) {
    forall i, j :: 0 <= i < j < |xs| ==> Precedes(Value(counts, xs[i]), Value(counts, xs[j]), reverse)
  }

  /** The keys of `xs` whose count is `c`, in their order in `xs`. */
  function WithCount(xs: seq<string>, counts: map<string, int>, c: int): seq<string>
    decreases |xs|
  {
    if xs == [] then []
    else (if Value(counts, xs[0]) == c then [xs[0]] else []) + WithCount(xs[1..], counts, c)
  }

  /** `k` placed before the first key it precedes: ahead of keys with the same count. */
  function Insert(k: string, xs: seq<string>, counts: map<string, int>, reverse: bool): seq<string>
    decreases |xs|
  {
    if xs == [] || Precedes(Value(counts, k), Value(counts, xs[0]), reverse) then [k] + xs
    else [xs[0]] + Insert(k, xs[1..], counts, reverse)
  }

  /** `sorted(keys, key=counts.get, reverse=reverse)`, a stable sort. */
  function SortByCount(keys: seq<string>, counts: map<string, int>, reverse: bool): seq<string>
    decreases |keys|
  {
    if keys == [] then [] else Insert(keys[0], SortByCount(keys[1..], counts, reverse), counts, reverse)
  }

  lemma {:induction false} InsertPermutes(k: string, xs: seq<string>, counts: map<string, int>, reverse: bool)
    ensures multiset(Insert(k, xs, counts, reverse)) == multiset(xs) + multiset{k}
    decreases |xs|
  {
    if !(xs == [] || Precedes(Value(counts, k), Value(counts, xs[0]), reverse)) {
      InsertPermutes(k, xs[1..], counts, reverse);
      assert xs == [xs[0]] + xs[1..];
    }
  }

  /** Dropping the first key keeps a list sorted. */
  lemma OrderedTail(xs: seq<string>, counts: map<string, int>, reverse: bool)
    requires xs != [] && Ordered(xs, counts, reverse)
    ensures Ordered(xs[1..], counts, reverse)
  {
    forall i, j | 0 <= i < j < |xs[1..]| ensures Precedes(Value(counts, xs[1..][i]), Value(counts, xs[1..][j]), reverse) {
      assert xs[1..][i] == xs[i + 1] && xs[1..][j] == xs[j + 1];
    }
  }

  /** A key that precedes every key of a sorted list can go in front of it. */
  lemma OrderedCons(x: string, ys: seq<string>, counts: map<string, int>, reverse: bool)
    requires Ordered(ys, counts, reverse)
    requires forall j :: 0 <= j < |ys| ==> Precedes(Value(counts, x), Value(counts, ys[j]), reverse)
    ensures Ordered([x] + ys, counts, reverse)
  {
    var r := [x] + ys;
    forall i, j | 0 <= i < j < |r| ensures Precedes(Value(counts, r[i]), Value(counts, r[j]), reverse) {
      assert r[j] == ys[j - 1];
      if i > 0 {
        assert r[i] == ys[i - 1];
      }
    }
  }

  lemma {:induction false} InsertOrdered(k: string, xs: seq<string>, counts: map<string, int>, reverse: bool)
    requires Ordered(xs, counts, reverse)
    ensures Ordered(Insert(k, xs, counts, reverse), counts, reverse)
    decreases |xs|
  {
    if xs == [] || Precedes(Value(counts, k), Value(counts, xs[0]), reverse) {
      if xs != [] {
        forall j | 0 <= j < |xs| ensures Precedes(Value(counts, k), Value(counts, xs[j]), reverse) {
          if j > 0 {
            assert Precedes(Value(counts, xs[0]), Value(counts, xs[j]), reverse);
          }
        }
      }
      OrderedCons(k, xs, counts, reverse);
    } else {
      var t := xs[1..];
      var rest := Insert(k, t, counts, reverse);
      OrderedTail(xs, counts, reverse);
      InsertOrdered(k, t, counts, reverse);
      InsertPermutes(k, t, counts, reverse);
      forall j | 0 <= j < |rest| ensures Precedes(Value(counts, xs[0]), Value(counts, rest[j]), reverse) {
        assert rest[j] in multiset(rest);
        if rest[j] != k {
          assert rest[j] in multiset(t);
          var m :| 0 <= m < |t| && t[m] == rest[j];
          assert xs[m + 1] == rest[j];
        }
      }
      OrderedCons(xs[0], rest, counts, reverse);
    }
  }

  /** Inserting into a sorted list keeps, for every count, the keys with that count in order, `k` first. */
  lemma {:induction false} InsertStable(k: string, xs: seq<string>, counts: map<string, int>, reverse: bool, c: int)
    requires Ordered(xs, counts, reverse)
    ensures WithCount(Insert(k, xs, counts, reverse), counts, c)
         == (if Value(counts, k) == c then [k] else []) + WithCount(xs, counts, c)
    decreases |xs|
  {
    var here := if Value(counts, k) == c then [k] else [];
    if xs == [] || Precedes(Value(counts, k), Value(counts, xs[0]), reverse) {
      assert ([k] + xs)[1..] == xs;
    } else {
      var first := if Value(counts, xs[0]) == c then [xs[0]] else [];
      var rest := Insert(k, xs[1..], counts, reverse);
      OrderedTail(xs, counts, reverse);
      InsertStable(k, xs[1..], counts, reverse, c);
      assert ([xs[0]] + rest)[1..] == rest;
      // `k` does not precede `xs[0]`, so their counts differ and at most one of them has count `c`.
      assert first == [] || here == [];
      assert WithCount(Insert(k, xs, counts, reverse), counts, c) == first + (here + WithCount(xs[1..], counts, c));
      assert first + (here + WithCount(xs[1..], counts, c)) == here + (first + WithCount(xs[1..], counts, c));
    }
  }

  /** The sort is a permutation of its input. */
  lemma {:induction false} SortPermutes(keys: seq<string>, counts: map<string, int>, reverse: bool)
    ensures multiset(SortByCount(keys, counts, reverse)) == multiset(keys)
    decreases |keys|
  {
    if keys != [] {
      SortPermutes(keys[1..], counts, reverse);
      InsertPermutes(keys[0], SortByCount(keys[1..], counts, reverse), counts, reverse);
      assert keys == [keys[0]] + keys[1..];
    }
  }

  /** The sort is ordered by count, ascending, or descending with `reverse`. */
  lemma {:induction false} SortOrdered(keys: seq<string>, counts: map<string, int>, reverse: bool)
    ensures Ordered(SortByCount(keys, counts, reverse), counts, reverse)
    decreases |keys|
  {
    if keys != [] {
      SortOrdered(keys[1..], counts, reverse);
      InsertOrdered(keys[0], SortByCount(keys[1..], counts, reverse), counts, reverse);
    }
  }

  /** The sort is stable: keys with equal counts keep their insertion order, in either direction. */
  lemma {:induction false} SortStable(keys: seq<string>, counts: map<string, int>, reverse: bool, c: int)
    ensures WithCount(SortByCount(keys, counts, reverse), counts, c) == WithCount(keys, counts, c)
    decreases |keys|
  {
    if keys != [] {
      SortStable(keys[1..], counts, reverse, c);
      SortOrdered(keys[1..], counts, reverse);
      InsertStable(keys[0], SortByCount(keys[1..], counts, reverse), counts, reverse, c);
    }
  }

  /** The (word, count) pairs of `keys`, in that order. */
  function Pairs(keys: seq<string>, counts: map<string, int>): (r: seq<(string, int)>)
    ensures |r| == |keys|
    ensures forall i :: 0 <= i < |keys| ==> r[i] == (keys[i], Value(counts, keys[i]))
  {
    seq(|keys|, i requires 0 <= i < |keys| => (keys[i], Value(counts, keys[i])))
  }

  class BagOfWords {
    /** `self.words`. */
    var words: Dict

    predicate Valid()
      reads this
    {
      WellFormed(words)
    }

    /** `BagOfWords(words=None)`: an empty dict, then `add_words(words)` when a list is given. */
    constructor(init: Option<seq<string>>)
      ensures Valid()
      ensures words == if init.Some? then Tally(EmptyDict, init.value) else EmptyDict
    {
      words := EmptyDict;
      new;
      if init.Some? {
        AddWords(init.value);
      }
    }

    /** `add_words(ws)`. */
    method AddWords(ws: seq<string>)
      requires Valid()
      modifies this
      ensures Valid()
      ensures words == Tally(old(words), ws)
    {
      var i := 0;
      assert ws[0..] == ws;
      while i < |ws|
        invariant 0 <= i <= |ws|
        invariant WellFormed(words)
        invariant Tally(words, ws[i..]) == Tally(old(words), ws)
      {
        var word := ws[i];
        TallyStep(words, ws, i);
        PutWellFormed(words, word);
        var num := if word in words.counts then words.counts[word] else 0;
        num := num + 1;
        PutIs(words, word, num);
        words := Dict(if word in words.counts then words.keys else words.keys + [word], words.counts[word := num]);
        i := i + 1;
      }
      assert ws[i..] == [];
    }

    /** `len(bag)`: the number of keys of the dict. */
    function Size(): (n: nat)
      reads this
      requires Valid()
      ensures n == |words.counts|
    {
      KeysMatchCounts(words);
      |words.keys|
    }

    /**
     * `sorted_matrix(reverse)`: every key of the dict once, paired with its
     * count, ordered by count, with equal counts in insertion order.
     */
    function SortedMatrix(reverse: bool := false): (r: seq<(string, int)>)
      reads this
      requires Valid()
      ensures multiset(Firsts(r)) == multiset(words.keys)
      ensures forall i :: 0 <= i < |r| ==> r[i].0 in words.counts && r[i].1 == words.counts[r[i].0]
      ensures forall i, j :: 0 <= i < j < |r| ==> Precedes(r[i].1, r[j].1, reverse)
      ensures forall c :: WithCount(Firsts(r), words.counts, c) == WithCount(words.keys, words.counts, c)
    {
      var sorted := SortByCount(words.keys, words.counts, reverse);
      SortPermutes(words.keys, words.counts, reverse);
      SortOrdered(words.keys, words.counts, reverse);
      forall c ensures WithCount(sorted, words.counts, c) == WithCount(words.keys, words.counts, c) {
        SortStable(words.keys, words.counts, reverse, c);
      }
      forall i | 0 <= i < |sorted| ensures sorted[i] in words.counts {
        assert sorted[i] in multiset(words.keys);
      }
      assert Firsts(Pairs(sorted, words.counts)) == sorted;
      Pairs(sorted, words.counts)
    }
  }

  /** The words of a matrix, in order. */
  function Firsts(r: seq<(string, int)>): (ks: seq<string>)
    ensures |ks| == |r|
    ensures forall i :: 0 <= i < |r| ==> ks[i] == r[i].0
  {
    seq(|r|, i requires 0 <= i < |r| => r[i].0)
  }

  // ---------------------------------------------------------------------
  // The documented example

  /** Counting a list of one word is one `Put`. */
  lemma TallyOne(d: Dict, w: string)
    ensures Tally(d, [w]) == Put(d, w)
  {
    assert [w][1..] == [];
  }

  lemma DocCountsFirst()
    ensures Tally(EmptyDict, ["some", "silly", "words"]) == Dict(["some", "silly", "words"], map["some" := 1, "silly" := 1, "words" := 1])
  {
    assert "silly" != "words" by { assert "silly"[0] != "words"[0]; }
    assert "some" != "silly" by { assert "some"[1] != "silly"[1]; }
    var d := Dict(["some", "silly"], map["some" := 1, "silly" := 1]);
    TallyOne(d, "words");
    assert Tally(Dict(["some"], map["some" := 1]), ["silly", "words"]) == Tally(d, ["words"]);
  }

  lemma DocCountsSecond()
    ensures Tally(Dict(["some", "silly", "words"], map["some" := 1, "silly" := 1, "words" := 1]), ["some", "silly"])
         == Dict(["some", "silly", "words"], map["some" := 2, "silly" := 2, "words" := 1])
  {
    var d := Dict(["some", "silly", "words"], map["some" := 2, "silly" := 1, "words" := 1]);
    TallyOne(d, "silly");
    assert "some" != "silly" by { assert "some"[1] != "silly"[1]; }
  }

  lemma DocCountsThird()
    ensures Tally(Dict(["some", "silly", "words"], map["some" := 2, "silly" := 2, "words" := 1]), ["some"])
         == Dict(["some", "silly", "words"], map["some" := 3, "silly" := 2, "words" := 1])
  {
    TallyOne(Dict(["some", "silly", "words"], map["some" := 2, "silly" := 2, "words" := 1]), "some");
  }

  /** `"some silly words"`, then `"some silly"`, then `["some"]`. */
  lemma DocCounts()
    ensures Tally(Tally(Tally(EmptyDict, ["some", "silly", "words"]), ["some", "silly"]), ["some"])
         == Dict(["some", "silly", "words"], map["some" := 3, "silly" := 2, "words" := 1])
  {
    DocCountsFirst();
    DocCountsSecond();
    DocCountsThird();
  }

  /** Sorting that dict lists `words 1`, `silly 2`, `some 3`. */
  lemma DocSortedMatrix()
    ensures var counts := map["some" := 3, "silly" := 2, "words" := 1];
      Pairs(SortByCount(["some", "silly", "words"], counts, false), counts) == [("words", 1), ("silly", 2), ("some", 3)]
  {
    var counts := map["some" := 3, "silly" := 2, "words" := 1];
    assert "silly" != "words" by { assert "silly"[0] != "words"[0]; }
    assert SortByCount(["words"], counts, false) == ["words"];
    assert SortByCount(["silly", "words"], counts, false) == ["words", "silly"];
    assert Insert("some", ["words", "silly"], counts, false) == ["words", "silly", "some"];
  }
}
