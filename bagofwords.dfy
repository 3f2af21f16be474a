/**
 * The list-based bag of words of bag_of_words.py: an ordered list of
 * distinct lower-cased words, grown in first-seen order, and the frequency
 * vectors built against it.
 */
module BagOfWords {
  import opened Wrappers
  import opened PyStr

  /** Every word is lower-case. */
  predicate AllLower(xs: seq<string>) {
    forall i :: 0 <= i < |xs| ==> IsLower(xs[i])
  }

  /** What the bag keeps true of `self.words`. */
  predicate Settled(xs: seq<string>) {
    Distinct(xs) && AllLower(xs)
  }

  /** One pass of the loop in `add_words`: the lower-cased word is appended unless already there. */
  function AddWord(bag: seq<string>, w: string): seq<string> {
    var l := Lower(w);
    if l in bag then bag else bag + [l]
  }

  /** The bag after `add_words(ws)`. */
  function AddAll(bag: seq<string>, ws: seq<string>): seq<string>
    decreases |ws|
  {
    if ws == [] then bag else AddAll(AddWord(bag, ws[0]), ws[1..])
  }

  /** The words of `ws`, lower-cased, as a set. */
  function LoweredSet(ws: seq<string>): set<string> {
    set w | w in ws :: Lower(w)
  }

  // ---------------------------------------------------------------------
  // Properties of adding words

  lemma AddWordSettled(bag: seq<string>, w: string)
    requires Settled(bag)
    ensures Settled(AddWord(bag, w))
  {
    LowerIsLower(w);
  }

  /** Every stored word stays lower-case and distinct. */
  lemma {:induction false} AddAllSettled(bag: seq<string>, ws: seq<string>)
    requires Settled(bag)
    ensures Settled(AddAll(bag, ws))
    decreases |ws|
  {
    if ws != [] {
      AddWordSettled(bag, ws[0]);
      AddAllSettled(AddWord(bag, ws[0]), ws[1..]);
    }
  }

  /** Existing words are never removed or reordered: the old bag is a prefix of the new one. */
  lemma {:induction false} AddAllExtends(bag: seq<string>, ws: seq<string>)
    ensures |bag| <= |AddAll(bag, ws)| && AddAll(bag, ws)[..|bag|] == bag
    decreases |ws|
  {
    if ws != [] {
      var next := AddWord(bag, ws[0]);
      AddAllExtends(next, ws[1..]);
      assert next[..|bag|] == bag;
      assert AddAll(bag, ws)[..|bag|] == AddAll(next, ws[1..])[..|next|][..|bag|];
    }
  }

  /** The bag holds exactly the old words and the lower-cased new ones. */
  lemma {:induction false} AddAllElements(bag: seq<string>, ws: seq<string>)
    ensures Elements(AddAll(bag, ws)) == Elements(bag) + LoweredSet(ws)
    decreases |ws|
  {
    if ws != [] {
      var next := AddWord(bag, ws[0]);
      AddAllElements(next, ws[1..]);
      assert Elements(next) == Elements(bag) + {Lower(ws[0])};
      assert LoweredSet(ws) == {Lower(ws[0])} + LoweredSet(ws[1..]) by {
        assert ws == [ws[0]] + ws[1..];
      }
    }
  }

  /** Words whose lower-case forms are all in the bag change nothing. */
  lemma {:induction false} AddAllPresent(bag: seq<string>, ws: seq<string>)
    requires forall w :: w in ws ==> Lower(w) in bag
    ensures AddAll(bag, ws) == bag
    decreases |ws|
  {
    if ws != [] {
      assert ws[0] in ws;
      AddAllPresent(bag, ws[1..]);
    }
  }

  /** `add_words` is idempotent. */
  lemma AddAllIdempotent(bag: seq<string>, ws: seq<string>)
    ensures AddAll(AddAll(bag, ws), ws) == AddAll(bag, ws)
  {
    AddAllElements(bag, ws);
    var after := AddAll(bag, ws);
    forall w | w in ws ensures Lower(w) in after {
      assert Lower(w) in LoweredSet(ws);
      assert Lower(w) in Elements(after);
    }
    AddAllPresent(after, ws);
  }

  /** Two calls of `add_words` give the bag one call with both lists would. */
  lemma {:induction false} AddAllConcat(bag: seq<string>, a: seq<string>, b: seq<string>)
    ensures AddAll(bag, a + b) == AddAll(AddAll(bag, a), b)
    decreases |a|
  {
    if a == [] {
      assert a + b == b;
    } else {
      assert (a + b)[0] == a[0] && (a + b)[1..] == a[1..] + b;
      AddAllConcat(AddWord(bag, a[0]), a[1..], b);
    }
  }

  /** `len(bag)` on a bag built from `ws` is the number of distinct lower-cased words in `ws`. */
  lemma SizeCountsDistinct(ws: seq<string>)
    ensures |AddAll([], ws)| == |LoweredSet(ws)|
  {
    AddAllSettled([], ws);
    AddAllElements([], ws);
    DistinctCard(AddAll([], ws));
    assert Elements<string>([]) == {};
  }

  // ---------------------------------------------------------------------
  // Frequency vectors

  /** `gen_frequency_vec(in_words)` for the bag `bag`. */
  function FrequencyVec(bag: seq<string>, inWords: seq<string>): seq<nat>
    decreases |bag|
  {
    if bag == [] then [] else [Count(inWords, Lower(bag[0]))] + FrequencyVec(bag[1..], inWords)
  }

  /** Entry `i` counts the occurrences of the bag's `i`-th word in `in_words`. */
  lemma {:induction false} FrequencyVecAt(bag: seq<string>, inWords: seq<string>)
    ensures |FrequencyVec(bag, inWords)| == |bag|
    ensures forall i :: 0 <= i < |bag| ==> FrequencyVec(bag, inWords)[i] == Count(inWords, Lower(bag[i]))
    decreases |bag|
  {
    if bag != [] {
      FrequencyVecAt(bag[1..], inWords);
      assert forall i :: 1 <= i < |bag| ==> bag[1..][i - 1] == bag[i];
    }
  }

  class BagOfWords {
    /** `self.words`. */
    var words: seq<string>

    predicate Valid()
      reads this
    {
      Settled(words)
    }

    /** `BagOfWords(words=None)`: an empty bag, then `add_words(words)` when a list is given. */
    constructor(init: Option<seq<string>>)
      ensures Valid()
      ensures words == if init.Some? then AddAll([], init.value) else []
    {
      words := [];
      new;
      if init.Some? {
        AddWords(init.value);
      }
    }

    /** `add_words(ws)`. */
    method AddWords(ws: seq<string>)
      requires Valid()
      modifies this
      ensures Valid()
      ensures words == AddAll(old(words), ws)
    {
      var i := 0;
      assert ws[0..] == ws;
      while i < |ws|
        invariant 0 <= i <= |ws|
        invariant Settled(words)
        invariant AddAll(words, ws[i..]) == AddAll(old(words), ws)
      {
        assert ws[i..][0] == ws[i] && ws[i..][1..] == ws[i + 1..];
        AddWordSettled(words, ws[i]);
        var word := Lower(ws[i]);
        if word !in words {
          words := words + [word];
        }
        i := i + 1;
      }
      assert ws[i..] == [];
    }

    /** `gen_frequency_vec(in_words)`: the bag is not changed, and `in_words` is not lower-cased. */
    method GenFrequencyVec(inWords: seq<string>) returns (v: seq<nat>)
      requires Valid()
      ensures v == FrequencyVec(words, inWords)
      ensures |v| == |words|
      ensures forall i :: 0 <= i < |words| ==> v[i] == Count(inWords, words[i])
    {
      FrequencyVecAt(words, inWords);
      v := [];
      var i := 0;
      while i < |words|
        invariant 0 <= i <= |words|
        invariant |v| == i
        invariant forall k :: 0 <= k < i ==> v[k] == Count(inWords, Lower(words[k]))
      {
        v := v + [Count(inWords, Lower(words[i]))];
        i := i + 1;
      }
      forall k | 0 <= k < |words| ensures Lower(words[k]) == words[k] {
        LowerOfLower(words[k]);
      }
    }

    /** `len(bag)`: the number of distinct words in the bag. */
    function Size(): (n: nat)
      reads this
      requires Valid()
      ensures n == |Elements(words)|
    {
      DistinctCard(words);
      |words|
    }
  }

  // ---------------------------------------------------------------------
  // The documented examples

  /** `BagOfWords(["A", "bunch", "of", "words"])`. */
  lemma DocBunch()
    ensures AddAll([], ["A", "bunch", "of", "words"]) == ["a", "bunch", "of", "words"]
  {
    assert Lower("A") == "a";
    LowerOfLower("bunch");
    LowerOfLower("of");
    LowerOfLower("words");
    assert AddAll(["a", "bunch", "of", "words"], []) == ["a", "bunch", "of", "words"];
    assert AddAll(["a", "bunch", "of"], ["words"]) == ["a", "bunch", "of", "words"];
    assert AddAll(["a", "bunch"], ["of", "words"]) == ["a", "bunch", "of", "words"];
    assert AddAll(["a"], ["bunch", "of", "words"]) == ["a", "bunch", "of", "words"];
  }

  /** Then `add_words(["Some", "more", "words"])`: only the two new words are appended. */
  lemma DocMoreWords()
    ensures AddAll(["a", "bunch", "of", "words"], ["Some", "more", "words"]) == ["a", "bunch", "of", "words", "some", "more"]
  {
    var bag := ["a", "bunch", "of", "words", "some", "more"];
    assert Lower("Some") == "some";
    LowerOfLower("more");
    LowerOfLower("words");
    assert "words" in bag;
    assert AddAll(bag, ["words"]) == bag;
    assert AddAll(["a", "bunch", "of", "words", "some"], ["more", "words"]) == bag;
  }

  /**
   * `in_words` is compared as given, against lower-cased bag words: a word
   * with an upper-case letter in it never counts, whatever the bag holds.
   */
  lemma FrequencyIgnoresUpperCase(bag: seq<string>, inWords: seq<string>, w: string)
    requires !IsLower(w)
    ensures FrequencyVec(bag, inWords + [w]) == FrequencyVec(bag, inWords)
  {
    FrequencyVecAt(bag, inWords + [w]);
    FrequencyVecAt(bag, inWords);
    forall i | 0 <= i < |bag|
      ensures FrequencyVec(bag, inWords + [w])[i] == FrequencyVec(bag, inWords)[i]
    {
      LowerIsLower(bag[i]);
      CountAppend(inWords, w, Lower(bag[i]));
    }
  }

  /** An example: "Some" is not counted as "some". */
  lemma FrequencyIsCaseSensitive()
    ensures FrequencyVec(["some"], ["Some"]) == [0]
  {
    LowerOfLower("some");
  }
}
