/**
 * The n-gram score table of text.py: a list of dictionaries indexed by the
 * n-gram order, each mapping `str(ngram)` to the list of scores recorded for
 * that n-gram. `set_sentence_value` trains the table in place and
 * `get_sentence_value` scores a sentence against it.
 */
module TextMatrix {
  import opened Wrappers
  import opened PyStr
  import opened Text

  /** One order's dictionary: n-gram string to the scores recorded for it. */
  type Row = map<string, seq<int>>

  /** `row[key]`, with a KeyError read as the empty list. */
  function Lookup<K(==)>(row: map<K, seq<int>>, key: K): seq<int> {
    if key in row then row[key] else []
  }

  /** `str(ngram)` for each n-gram. */
  function Keys(grams: seq<NGram>): (r: seq<string>)
    ensures |r| == |grams|
  {
    seq(|grams|, i requires 0 <= i < |grams| => Key(grams[i]))
  }

  /** The keys of the order-`n` n-grams of a sentence's words, in sentence order. */
  function OrderKeys(words: seq<Word>, n: nat): (r: seq<string>)
    requires n >= 1
    ensures |r| == if |words| >= n then |words| - n + 1 else 0
  {
    Keys(Windows(words, n))
  }

  /** `k` copies of `v`. */
  function Repeat(v: int, k: nat): (r: seq<int>)
    ensures |r| == k
  {
    if k == 0 then [] else [v] + Repeat(v, k - 1)
  }

  /** The row after appending `v` to the list under each key in turn. */
  function Record<K(==)>(row: map<K, seq<int>>, keys: seq<K>, v: int): map<K, seq<int>>
    decreases |keys|
  {
    if keys == [] then row
    else Record(row[keys[0] := Lookup(row, keys[0]) + [v]], keys[1..], v)
  }

  /** Recording from key `i` on: key `i` first, then the keys after it. */
  lemma RecordStep<K>(row: map<K, seq<int>>, keys: seq<K>, i: nat, v: int)
    requires i < |keys|
    ensures Record(row, keys[i..], v) == Record(row[keys[i] := Lookup(row, keys[i]) + [v]], keys[i + 1..], v)
  {
    assert keys[i..][0] == keys[i] && keys[i..][1..] == keys[i + 1..];
  }

  /** Each occurrence of a key appends `v` once to its list; the other lists are unchanged. */
  lemma {:induction false} RecordAt<K>(row: map<K, seq<int>>, keys: seq<K>, v: int, key: K)
    ensures Lookup(Record(row, keys, v), key) == Lookup(row, key) + Repeat(v, Count(keys, key))
    decreases |keys|
  {
    if keys != [] {
      var next := row[keys[0] := Lookup(row, keys[0]) + [v]];
      RecordAt(next, keys[1..], v, key);
      if keys[0] == key {
        assert Lookup(next, key) == Lookup(row, key) + [v];
        AppendOneMore(Lookup(row, key), v, Count(keys[1..], key));
      } else {
        assert Lookup(next, key) == Lookup(row, key);
      }
    }
  }

  /** One more copy of `v` at the end of `xs`, before `k` others, is `k + 1` copies after `xs`. */
  lemma AppendOneMore(xs: seq<int>, v: int, k: nat)
    ensures (xs + [v]) + Repeat(v, k) == xs + Repeat(v, k + 1)
  {
    assert Repeat(v, k + 1) == [v] + Repeat(v, k);
  }

  /** Recording adds exactly the recorded keys to the dictionary. */
  lemma {:induction false} RecordKeys<K>(row: map<K, seq<int>>, keys: seq<K>, v: int)
    ensures Record(row, keys, v).Keys == row.Keys + set k | k in keys
    decreases |keys|
  {
    if keys != [] {
      RecordKeys(row[keys[0] := Lookup(row, keys[0]) + [v]], keys[1..], v);
      assert (set k | k in keys) == {keys[0]} + set k | k in keys[1..];
    }
  }

  /** The table after training, with the exception that stopped the training, if any. */
  datatype Outcome = Outcome(rows: seq<Row>, error: Option<PyError>)

  /**
   * The orders `n..maxN` of `set_sentence_value` for a sentence whose words
   * are `words`: each order's keys are recorded in its row, and an order with
   * n-grams but no row raises IndexError at `ngram_matrix[n]` before anything
   * of that order is recorded.
   */
  function Train(rows: seq<Row>, words: seq<Word>, value: int, n: nat, maxN: int): Outcome
    requires n >= 1
    decreases if n <= maxN then maxN - n + 1 else 0
  {
    if n > maxN then Outcome(rows, None)
    else
      var keys := OrderKeys(words, n);
      if keys == [] then Train(rows, words, value, n + 1, maxN)
      else if n >= |rows| then Outcome(rows, Some(IndexError))
      else Train(rows[n := Record(rows[n], keys, value)], words, value, n + 1, maxN)
  }

  /**
   * `set_sentence_value`: an empty part of the sentence raises IndexError
   * from `split_sentence` in the first order, before anything is recorded.
   */
  function TrainSentence(rows: seq<Row>, sentence: string, value: int, minN: nat, maxN: int): Outcome
    requires minN >= 1
  {
    var words := WordsOf(Split(sentence, " "));
    if minN > maxN then Outcome(rows, None)
    else if words.Err? then Outcome(rows, Some(words.error))
    else Train(rows, words.value, value, minN, maxN)
  }

  /** The inner loop of `set_sentence_value` once `ngram_matrix[n]` is known to exist. */
  method RecordGrams(row: Row, grams: seq<NGram>, value: int) returns (r: Row)
    requires forall i :: 0 <= i < |grams| ==> grams[i].words != []
    ensures r == Record(row, Keys(grams), value)
  {
    ghost var keys := Keys(grams);
    assert keys[0..] == keys;
    r := row;
    var i := 0;
    while i < |grams|
      invariant 0 <= i <= |grams|
      invariant Record(r, keys[i..], value) == Record(row, keys, value)
    {
      var key := ToString(grams[i]);
      assert key == keys[i];
      RecordStep(r, keys, i, value);
      r := r[key := Lookup(r, key) + [value]];
      i := i + 1;
    }
    assert keys[i..] == [];
  }

  /**
   * The inner loop of `set_sentence_value`: one order's n-grams recorded in
   * row `n`, where the first n-gram of an order with no row raises IndexError.
   */
  method RecordOrder(n: nat, grams: seq<NGram>, value: int, matrix: array<Row>) returns (error: Option<PyError>)
    requires forall i :: 0 <= i < |grams| ==> grams[i].words != []
    modifies matrix
    ensures Keys(grams) == [] ==> error == None && matrix[..] == old(matrix[..])
    ensures Keys(grams) != [] && n >= matrix.Length ==> error == Some(IndexError) && matrix[..] == old(matrix[..])
    ensures Keys(grams) != [] && n < matrix.Length ==>
      error == None && matrix[..] == old(matrix[..])[n := Record(old(matrix[n]), Keys(grams), value)]
  {
    if |grams| == 0 {
      return None;
    }
    if n >= matrix.Length {
      var key := ToString(grams[0]);
      return Some(IndexError);
    }
    var row := RecordGrams(matrix[n], grams, value);
    matrix[n] := row;
    error := None;
  }

  /** The outer loop of `set_sentence_value`, over the orders `min_n..max_n` of a sentence's words. */
  method TrainWords(words: seq<Word>, value: int, minN: nat, maxN: int, matrix: array<Row>) returns (error: Option<PyError>)
    requires minN >= 1
    modifies matrix
    ensures Train(old(matrix[..]), words, value, minN, maxN) == Outcome(matrix[..], error)
  {
    var n := minN;
    while n <= maxN
      invariant n >= minN
      invariant Train(old(matrix[..]), words, value, minN, maxN) == Train(matrix[..], words, value, n, maxN)
      decreases maxN - n
    {
      var grams := MakeNGrams(words, n);
      ghost var before := matrix[..];
      assert OrderKeys(words, n) == Keys(grams);
      error := RecordOrder(n, grams, value, matrix);
      if error.Some? {
        assert Train(before, words, value, n, maxN) == Outcome(before, Some(IndexError));
        return;
      }
      assert Train(before, words, value, n, maxN) == Train(matrix[..], words, value, n + 1, maxN);
      n := n + 1;
    }
    error := None;
  }

  /**
   * `set_sentence_value(sentence, value, min_n, max_n, ngram_matrix)`: the
   * table is updated in place; on an exception the updates of the earlier
   * orders stay. The source splits the sentence again on every pass of its
   * outer loop; splitting is deterministic, so the model splits once, and not
   * at all when the loop is empty.
   */
  method SetSentenceValue(sentence: string, value: int, minN: nat, maxN: int, matrix: array<Row>)
    returns (error: Option<PyError>)
    requires minN >= 1
    modifies matrix
    ensures TrainSentence(old(matrix[..]), sentence, value, minN, maxN) == Outcome(matrix[..], error)
  {
    if minN > maxN {
      return None;
    }
    var words := SplitSentence(sentence);
    if words.Err? {
      return Some(words.error);
    }
    error := TrainWords(words.value, value, minN, maxN, matrix);
  }

  // ---------------------------------------------------------------------
  // Properties of training

  /** Training keeps the number of orders, and leaves the rows outside `n..maxN` alone. */
  lemma {:induction false} TrainFrame(rows: seq<Row>, words: seq<Word>, value: int, n: nat, maxN: int, m: nat)
    requires n >= 1 && m < |rows| && (m < n || m > maxN)
    ensures |Train(rows, words, value, n, maxN).rows| == |rows|
    ensures Train(rows, words, value, n, maxN).rows[m] == rows[m]
    decreases if n <= maxN then maxN - n + 1 else 0
  {
    if n <= maxN {
      var keys := OrderKeys(words, n);
      TrainNext(rows, words, value, n, maxN);
      if keys == [] {
        TrainFrame(rows, words, value, n + 1, maxN, m);
      } else if n < |rows| {
        var next := rows[n := Record(rows[n], keys, value)];
        TrainFrame(next, words, value, n + 1, maxN, m);
        assert next[m] == rows[m];
      }
    }
  }

  lemma PrefixTrans(a: seq<int>, b: seq<int>, c: seq<int>)
    requires a <= b && b <= c
    ensures a <= c
  {
    assert |a| <= |b| <= |c|;
    forall i | 0 <= i < |a| ensures a[i] == c[i] {
      assert a[i] == b[i];
    }
  }

  lemma PrefixOfAppend(a: seq<int>, b: seq<int>)
    ensures a <= a + b
  {
    assert (a + b)[..|a|] == a;
  }

  /** One pass of the outer loop of `set_sentence_value`. */
  lemma TrainNext(rows: seq<Row>, words: seq<Word>, value: int, n: nat, maxN: int)
    requires 1 <= n <= maxN
    ensures OrderKeys(words, n) == [] ==> Train(rows, words, value, n, maxN) == Train(rows, words, value, n + 1, maxN)
    ensures OrderKeys(words, n) != [] && n >= |rows| ==> Train(rows, words, value, n, maxN) == Outcome(rows, Some(IndexError))
    ensures OrderKeys(words, n) != [] && n < |rows| ==>
      Train(rows, words, value, n, maxN) == Train(rows[n := Record(rows[n], OrderKeys(words, n), value)], words, value, n + 1, maxN)
  { }

  /** Recording only appends to a list. */
  lemma RecordGrows<K>(row: map<K, seq<int>>, keys: seq<K>, v: int, key: K)
    ensures Lookup(row, key) <= Lookup(Record(row, keys, v), key)
  {
    RecordAt(row, keys, v, key);
    PrefixOfAppend(Lookup(row, key), Repeat(v, Count(keys, key)));
  }

  /** Stored lists only grow at their end: training is append-only. */
  lemma {:induction false} TrainAppendOnly(rows: seq<Row>, words: seq<Word>, value: int, n: nat, maxN: int, m: nat, key: string)
    requires n >= 1 && m < |rows|
    ensures |Train(rows, words, value, n, maxN).rows| == |rows|
    ensures Lookup(rows[m], key) <= Lookup(Train(rows, words, value, n, maxN).rows[m], key)
    decreases if n <= maxN then maxN - n + 1 else 0
  {
    if n <= maxN {
      var keys := OrderKeys(words, n);
      TrainNext(rows, words, value, n, maxN);
      if keys == [] {
        TrainAppendOnly(rows, words, value, n + 1, maxN, m, key);
      } else if n < |rows| {
        var next := rows[n := Record(rows[n], keys, value)];
        TrainAppendOnly(next, words, value, n + 1, maxN, m, key);
        var after := Train(next, words, value, n + 1, maxN).rows;
        if m == n {
          RecordGrows(rows[n], keys, value, key);
          PrefixTrans(Lookup(rows[m], key), Lookup(next[m], key), Lookup(after[m], key));
        } else {
          assert next[m] == rows[m];
        }
      }
    }
  }

  /** Every stored list is non-empty. */
  predicate NonEmptyLists(rows: seq<Row>) {
    forall m, key :: 0 <= m < |rows| && key in rows[m] ==> rows[m][key] != []
  }

  /** Recording keeps a row's lists non-empty: each key it creates holds the new value. */
  lemma RecordKeepsListsNonEmpty<K>(row: map<K, seq<int>>, keys: seq<K>, v: int)
    requires forall key :: key in row ==> row[key] != []
    ensures forall key :: key in Record(row, keys, v) ==> Record(row, keys, v)[key] != []
  {
    RecordKeys(row, keys, v);
    forall key | key in Record(row, keys, v) ensures Record(row, keys, v)[key] != [] {
      RecordAt(row, keys, v, key);
      if key !in row {
        assert Count(keys, key) > 0;
      }
    }
  }

  /** Training keeps every stored list non-empty. */
  lemma {:induction false} TrainKeepsListsNonEmpty(rows: seq<Row>, words: seq<Word>, value: int, n: nat, maxN: int)
    requires n >= 1 && NonEmptyLists(rows)
    ensures NonEmptyLists(Train(rows, words, value, n, maxN).rows)
    decreases if n <= maxN then maxN - n + 1 else 0
  {
    if n <= maxN {
      var keys := OrderKeys(words, n);
      if keys == [] {
        TrainKeepsListsNonEmpty(rows, words, value, n + 1, maxN);
      } else if n < |rows| {
        RecordKeepsListsNonEmpty(rows[n], keys, value);
        TrainKeepsListsNonEmpty(rows[n := Record(rows[n], keys, value)], words, value, n + 1, maxN);
      }
    }
  }

  /** Training succeeds when every order in `n..maxN` has a row. */
  lemma {:induction false} TrainSucceeds(rows: seq<Row>, words: seq<Word>, value: int, n: nat, maxN: int)
    requires n >= 1 && maxN < |rows|
    ensures Train(rows, words, value, n, maxN).error == None
    decreases if n <= maxN then maxN - n + 1 else 0
  {
    if n <= maxN {
      var keys := OrderKeys(words, n);
      if keys == [] {
        TrainSucceeds(rows, words, value, n + 1, maxN);
      } else {
        TrainSucceeds(rows[n := Record(rows[n], keys, value)], words, value, n + 1, maxN);
      }
    }
  }

  /**
   * Each order's list under `key` grows by one `value` per occurrence of
   * `key` among that order's n-grams.
   */
  lemma {:induction false} TrainRecords(rows: seq<Row>, words: seq<Word>, value: int, n: nat, maxN: int, m: nat, key: string)
    requires n >= 1 && maxN < |rows|
    requires n <= m <= maxN
    ensures |Train(rows, words, value, n, maxN).rows| == |rows|
    ensures Lookup(Train(rows, words, value, n, maxN).rows[m], key)
         == Lookup(rows[m], key) + Repeat(value, Count(OrderKeys(words, m), key))
    decreases maxN - n
  {
    var keys := OrderKeys(words, n);
    var next := if keys == [] then rows else rows[n := Record(rows[n], keys, value)];
    TrainNext(rows, words, value, n, maxN);
    if m == n {
      TrainFrame(next, words, value, n + 1, maxN, m);
      if keys != [] {
        RecordAt(rows[n], keys, value, key);
      } else {
        assert Lookup(rows[m], key) + Repeat(value, Count(keys, key)) == Lookup(rows[m], key) + [];
      }
    } else {
      TrainRecords(next, words, value, n + 1, maxN, m, key);
      assert next[m] == rows[m];
    }
  }

  /** A sentence with an empty part (such as "" or "a  b") raises IndexError and leaves the table unchanged. */
  lemma TrainEmptyPart(rows: seq<Row>, sentence: string, value: int, minN: nat, maxN: int)
    requires 1 <= minN <= maxN
    requires exists k :: 0 <= k < |Split(sentence, " ")| && Split(sentence, " ")[k] == []
    ensures TrainSentence(rows, sentence, value, minN, maxN) == Outcome(rows, Some(IndexError))
  {
    WordsOfOk(Split(sentence, " "));
  }

  // ---------------------------------------------------------------------
  // Scoring

  function Sum(xs: seq<int>): int {
    if xs == [] then 0 else xs[0] + Sum(xs[1..])
  }

  function SumReal(xs: seq<real>): real {
    if xs == [] then 0.0 else xs[0] + SumReal(xs[1..])
  }

  /** `value_sum / len(values)` over exact rationals. */
  function Mean(xs: seq<int>): real
    requires xs != []
  {
    Sum(xs) as real / |xs| as real
  }

  /** `avg * n`: an order-`n` n-gram weighs `n` times its mean. */
  function Weighted(avg: real, n: nat): real {
    avg * n as real
  }

  /** `xs` in front of the successful result `r`; an error stays an error. */
  function Prepend(xs: seq<real>, r: Result<seq<real>>): Result<seq<real>> {
    if r.Err? then r else Ok(xs + r.value)
  }

  lemma PrependNothing(r: Result<seq<real>>)
    ensures Prepend([], r) == r
  {
    if r.Ok? {
      assert [] + r.value == r.value;
    }
  }

  lemma PrependPrepend(a: seq<real>, b: seq<real>, r: Result<seq<real>>)
    ensures Prepend(a, Prepend(b, r)) == Prepend(a + b, r)
  {
    if r.Ok? {
      assert a + (b + r.value) == (a + b) + r.value;
    }
  }

  /**
   * The contributions `mean(values) * n` of the keys found in one order's
   * row, in key order; a key that is missing is skipped, and a stored empty
   * list raises ZeroDivisionError.
   */
  function OrderContributions<K(==)>(row: map<K, seq<int>>, keys: seq<K>, n: nat): Result<seq<real>>
    decreases |keys|
  {
    if keys == [] then Ok([])
    else if keys[0] in row && row[keys[0]] == [] then Err(ZeroDivisionError)
    else
      var rest := OrderContributions(row, keys[1..], n);
      if keys[0] !in row then rest else Prepend([Weighted(Mean(row[keys[0]]), n)], rest)
  }

  /** The contributions from key `i` on: key `i`'s own, in front of those of the keys after it. */
  lemma OrderContributionsStep<K>(row: map<K, seq<int>>, keys: seq<K>, i: nat, n: nat)
    requires i < |keys|
    ensures keys[i] in row && row[keys[i]] == [] ==> OrderContributions(row, keys[i..], n) == Err(ZeroDivisionError)
    ensures keys[i] in row && row[keys[i]] != [] ==>
      OrderContributions(row, keys[i..], n) == Prepend([Weighted(Mean(row[keys[i]]), n)], OrderContributions(row, keys[i + 1..], n))
    ensures keys[i] !in row ==> OrderContributions(row, keys[i..], n) == OrderContributions(row, keys[i + 1..], n)
  {
    assert keys[i..][0] == keys[i] && keys[i..][1..] == keys[i + 1..];
  }

  /** One order of `get_sentence_value`: an order with n-grams but no row raises IndexError. */
  function OrderScore(rows: seq<Row>, keys: seq<string>, n: nat): Result<seq<real>> {
    if keys != [] && n >= |rows| then Err(IndexError)
    else OrderContributions(if n < |rows| then rows[n] else map[], keys, n)
  }

  /** The contributions of orders `n..maxN` for a sentence's words, in order, or the first exception raised. */
  function Contributions(rows: seq<Row>, words: seq<Word>, n: nat, maxN: int): Result<seq<real>>
    requires n >= 1
    decreases if n <= maxN then maxN - n + 1 else 0
  {
    if n > maxN then Ok([])
    else
      var here := OrderScore(rows, OrderKeys(words, n), n);
      if here.Err? then here else Prepend(here.value, Contributions(rows, words, n + 1, maxN))
  }

  /** The mean of the contributions, or 0 when there are none. */
  function Average(c: seq<real>): real {
    if c == [] then 0.0 else SumReal(c) / |c| as real
  }

  /** `get_sentence_value`: the average of the contributions, or the exception raised. */
  function SentenceValue(rows: seq<Row>, sentence: string, minN: nat, maxN: int): Result<real>
    requires minN >= 1
  {
    var words := WordsOf(Split(sentence, " "));
    if minN > maxN then Ok(0.0)
    else if words.Err? then Err(words.error)
    else
      var c := Contributions(rows, words.value, minN, maxN);
      if c.Err? then Err(c.error) else Ok(Average(c.value))
  }

  /** The `for value in values` loop. */
  method SumScores(values: seq<int>) returns (total: int)
    ensures total == Sum(values)
  {
    total := 0;
    var i := 0;
    while i < |values|
      invariant 0 <= i <= |values|
      invariant total + Sum(values[i..]) == Sum(values)
    {
      assert values[i..][1..] == values[i + 1..];
      total := total + values[i];
      i := i + 1;
    }
  }

  /** `sum(all_values)`. */
  method SumContributions(values: seq<real>) returns (total: real)
    ensures total == SumReal(values)
  {
    total := 0.0;
    var i := 0;
    while i < |values|
      invariant 0 <= i <= |values|
      invariant total + SumReal(values[i..]) == SumReal(values)
    {
      assert values[i..][1..] == values[i + 1..];
      total := total + values[i];
      i := i + 1;
    }
  }

  /** The final `sum(all_values) / len(all_values)`, or 0 when nothing matched. */
  method AverageOf(values: seq<real>) returns (r: real)
    ensures r == Average(values)
  {
    if |values| == 0 {
      return 0.0;
    }
    var total := SumContributions(values);
    r := total / |values| as real;
  }

  /** One n-gram found in its row: `avg * n`, where an empty list raises ZeroDivisionError. */
  method KeyContribution(values: seq<int>, n: nat) returns (r: Result<real>)
    ensures values == [] ==> r == Err(ZeroDivisionError)
    ensures values != [] ==> r == Ok(Weighted(Mean(values), n))
  {
    var valueSum := SumScores(values);
    if |values| == 0 {
      return Err(ZeroDivisionError);
    }
    var avg := valueSum as real / |values| as real;
    assert avg == Mean(values);
    assert avg * n as real == Weighted(avg, n);
    r := Ok(avg * n as real);
  }

  /** The inner loop of `get_sentence_value` once `ngram_matrix[n]` is known to exist. */
  method ScoreKeys(row: Row, grams: seq<NGram>, n: nat) returns (r: Result<seq<real>>)
    requires forall i :: 0 <= i < |grams| ==> grams[i].words != []
    ensures r == OrderContributions(row, Keys(grams), n)
  {
    ghost var keys := Keys(grams);
    assert keys[0..] == keys;
    PrependNothing(OrderContributions(row, keys, n));
    var values: seq<real> := [];
    var i := 0;
    while i < |grams|
      invariant 0 <= i <= |grams|
      invariant OrderContributions(row, keys, n) == Prepend(values, OrderContributions(row, keys[i..], n))
    {
      var key := ToString(grams[i]);
      assert key == keys[i];
      OrderContributionsStep(row, keys, i, n);
      if key in row {
        var found := KeyContribution(row[key], n);
        if found.Err? {
          return Err(ZeroDivisionError);
        }
        PrependPrepend(values, [found.value], OrderContributions(row, keys[i + 1..], n));
        values := values + [found.value];
      }
      i := i + 1;
    }
    assert keys[i..] == [] && values + [] == values;
    r := Ok(values);
  }

  /** The inner loop of `get_sentence_value`: the contributions of one order's n-grams. */
  method ScoreNGrams(n: nat, grams: seq<NGram>, matrix: array<Row>) returns (r: Result<seq<real>>)
    requires forall i :: 0 <= i < |grams| ==> grams[i].words != []
    ensures r == OrderScore(matrix[..], Keys(grams), n)
  {
    if n >= matrix.Length {
      if |grams| > 0 {
        var key := ToString(grams[0]);
        return Err(IndexError);
      }
      return Ok([]);
    }
    var row := matrix[n];
    r := ScoreKeys(row, grams, n);
  }

  /** One pass of the outer loop of `get_sentence_value`: make the order-`n` n-grams and score them. */
  method ScoreOrder(words: seq<Word>, n: nat, matrix: array<Row>) returns (r: Result<seq<real>>)
    requires n >= 1
    ensures r == OrderScore(matrix[..], OrderKeys(words, n), n)
  {
    var grams := MakeNGrams(words, n);
    assert OrderKeys(words, n) == Keys(grams);
    r := ScoreNGrams(n, grams, matrix);
  }

  /** The outer loop of `get_sentence_value`, over the orders `min_n..max_n` of a sentence's words. */
  method ScoreWords(words: seq<Word>, minN: nat, maxN: int, matrix: array<Row>) returns (r: Result<seq<real>>)
    requires minN >= 1
    ensures r == Contributions(matrix[..], words, minN, maxN)
  {
    ghost var goal := Contributions(matrix[..], words, minN, maxN);
    PrependNothing(goal);
    var allValues: seq<real> := [];
    var n := minN;
    while n <= maxN
      invariant n >= minN
      invariant goal == Prepend(allValues, Contributions(matrix[..], words, n, maxN))
      decreases maxN - n
    {
      var here := ScoreOrder(words, n, matrix);
      if here.Err? {
        assert Contributions(matrix[..], words, n, maxN) == here;
        return here;
      }
      assert Contributions(matrix[..], words, n, maxN) == Prepend(here.value, Contributions(matrix[..], words, n + 1, maxN));
      PrependPrepend(allValues, here.value, Contributions(matrix[..], words, n + 1, maxN));
      allValues := allValues + here.value;
      n := n + 1;
    }
    assert allValues + [] == allValues;
    r := Ok(allValues);
  }

  /**
   * `get_sentence_value(sentence, min_n, max_n, ngram_matrix)`, splitting the
   * sentence once as `SetSentenceValue` does. The console output of the
   * source is not modelled.
   */
  method GetSentenceValue(sentence: string, minN: nat, maxN: int, matrix: array<Row>) returns (r: Result<real>)
    requires minN >= 1
    ensures r == SentenceValue(matrix[..], sentence, minN, maxN)
  {
    var contributions := Ok([]);
    if minN <= maxN {
      var words := SplitSentence(sentence);
      if words.Err? {
        return Err(words.error);
      }
      contributions := ScoreWords(words.value, minN, maxN, matrix);
    }
    if contributions.Err? {
      return Err(contributions.error);
    }
    var average := AverageOf(contributions.value);
    r := Ok(average);
  }

  // ---------------------------------------------------------------------
  // Properties of scoring

  /** Rows with no keys. */
  predicate EmptyRows(rows: seq<Row>) {
    forall m :: 0 <= m < |rows| ==> rows[m] == map[]
  }

  /** Keys that are all missing from the row contribute nothing. */
  lemma {:induction false} OrderContributionsMissing<K>(row: map<K, seq<int>>, keys: seq<K>, n: nat)
    requires forall k :: 0 <= k < |keys| ==> keys[k] !in row
    ensures OrderContributions(row, keys, n) == Ok([])
    decreases |keys|
  {
    if keys != [] {
      OrderContributionsMissing(row, keys[1..], n);
    }
  }

  /** One pass of the outer loop of `get_sentence_value`: order `n`'s result, then the later orders'. */
  lemma ContributionsNext(rows: seq<Row>, words: seq<Word>, n: nat, maxN: int, here: Result<seq<real>>)
    requires 1 <= n <= maxN
    requires here == OrderScore(rows, OrderKeys(words, n), n)
    ensures here.Err? ==> Contributions(rows, words, n, maxN) == here
    ensures here.Ok? ==> Contributions(rows, words, n, maxN) == Prepend(here.value, Contributions(rows, words, n + 1, maxN))
  { }

  /** Nothing matches in a table with empty rows. */
  lemma {:induction false} EmptyRowsContributeNothing(rows: seq<Row>, words: seq<Word>, n: nat, maxN: int)
    requires n >= 1 && EmptyRows(rows)
    ensures Contributions(rows, words, n, maxN).Ok? ==> Contributions(rows, words, n, maxN).value == []
    decreases if n <= maxN then maxN - n + 1 else 0
  {
    if n <= maxN {
      var keys := OrderKeys(words, n);
      var row := if n < |rows| then rows[n] else map[];
      assert row == map[];
      OrderContributionsMissing(row, keys, n);
      ContributionsNext(rows, words, n, maxN, OrderScore(rows, keys, n));
      EmptyRowsContributeNothing(rows, words, n + 1, maxN);
      PrependNothing(Contributions(rows, words, n + 1, maxN));
    }
  }

  /** A table with empty rows (such as a fresh one) scores every sentence 0, unless an exception is raised. */
  lemma EmptyTableScoresZero(rows: seq<Row>, sentence: string, minN: nat, maxN: int)
    requires minN >= 1 && EmptyRows(rows)
    ensures SentenceValue(rows, sentence, minN, maxN).Ok? ==> SentenceValue(rows, sentence, minN, maxN).value == 0.0
  {
    var words := WordsOf(Split(sentence, " "));
    if minN <= maxN && words.Ok? {
      EmptyRowsContributeNothing(rows, words.value, minN, maxN);
    }
  }

  /**
   * No n-gram of the orders `n..maxN` is found in the table: every order that
   * has n-grams has a row, and none of its keys is in that row.
   */
  predicate NoMatches(rows: seq<Row>, words: seq<Word>, n: nat, maxN: int) {
    forall m :: 1 <= m && n <= m <= maxN ==>
      OrderKeys(words, m) == [] || (m < |rows| && forall k :: 0 <= k < |OrderKeys(words, m)| ==> OrderKeys(words, m)[k] !in rows[m])
  }

  /** When nothing is found, the orders contribute nothing and raise nothing. */
  lemma {:induction false} NoMatchesContributeNothing(rows: seq<Row>, words: seq<Word>, n: nat, maxN: int)
    requires n >= 1 && NoMatches(rows, words, n, maxN)
    ensures Contributions(rows, words, n, maxN) == Ok([])
    decreases if n <= maxN then maxN - n + 1 else 0
  {
    if n <= maxN {
      var keys := OrderKeys(words, n);
      var row := if n < |rows| then rows[n] else map[];
      OrderContributionsMissing(row, keys, n);
      ContributionsNext(rows, words, n, maxN, OrderScore(rows, keys, n));
      NoMatchesContributeNothing(rows, words, n + 1, maxN);
      PrependNothing(Contributions(rows, words, n + 1, maxN));
    }
  }

  /**
   * A table in which no n-gram of the sentence is found, fresh or not, scores
   * the sentence 0; the one exception is a sentence with an empty part, which
   * raises IndexError.
   */
  lemma NoMatchScoresZero(rows: seq<Row>, sentence: string, minN: nat, maxN: int)
    requires minN >= 1
    requires WordsOf(Split(sentence, " ")).Ok? ==> NoMatches(rows, WordsOf(Split(sentence, " ")).value, minN, maxN)
    ensures SentenceValue(rows, sentence, minN, maxN)
         == if minN <= maxN && WordsOf(Split(sentence, " ")).Err? then Err(IndexError) else Ok(0.0)
  {
    var words := WordsOf(Split(sentence, " "));
    WordsOfOk(Split(sentence, " "));
    if minN <= maxN && words.Ok? {
      NoMatchesContributeNothing(rows, words.value, minN, maxN);
    }
  }

  lemma {:induction false} SumRepeat(v: int, k: nat)
    ensures Sum(Repeat(v, k)) == v * k
  {
    if k > 0 {
      assert Repeat(v, k)[1..] == Repeat(v, k - 1);
      SumRepeat(v, k - 1);
    }
  }

  /** The mean of `k >= 1` copies of `v` is `v`. */
  lemma MeanRepeat(v: int, k: nat)
    requires k >= 1
    ensures Mean(Repeat(v, k)) == v as real
  {
    SumRepeat(v, k);
  }

  /** The sum of copies of `x` is their number times `x`. */
  lemma {:induction false} SumRealConst(xs: seq<real>, x: real)
    requires forall i :: 0 <= i < |xs| ==> xs[i] == x
    ensures SumReal(xs) == |xs| as real * x
  {
    if xs != [] {
      SumRealConst(xs[1..], x);
    }
  }

  /** Keys that have all been recorded, from empty, with `v` contribute `v * n` each. */
  lemma {:induction false} RecordedContributions<K>(keys: seq<K>, all: seq<K>, v: int, n: nat)
    requires forall k :: 0 <= k < |keys| ==> keys[k] in all
    ensures OrderContributions(Record(map[], all, v), keys, n).Ok?
    ensures |OrderContributions(Record(map[], all, v), keys, n).value| == |keys|
    ensures forall i :: 0 <= i < |keys| ==> OrderContributions(Record(map[], all, v), keys, n).value[i] == (v * n) as real
    decreases |keys|
  {
    if keys != [] {
      var row := Record(map[], all, v);
      var key := keys[0];
      RecordedContributions(keys[1..], all, v, n);
      RecordKeys(map[], all, v);
      RecordAt(map[], all, v, key);
      var c := Count(all, key);
      assert key in row && row[key] == Repeat(v, c);
      MeanRepeat(v, c);
      WeightedWhole(v, n);
      var rest := OrderContributions(row, keys[1..], n);
      var r := OrderContributions(row, keys, n);
      assert r == Ok([(v * n) as real] + rest.value);
      forall i | 0 < i < |keys| ensures r.value[i] == (v * n) as real {
        assert r.value[i] == rest.value[i - 1];
      }
    }
  }

  /** Proof helper: weighting a whole-number mean is integer multiplication. */
  lemma WeightedWhole(v: int, n: nat)
    ensures Weighted(v as real, n) == (v * n) as real
  {
  }

  /**
   * Training an empty table on a sentence's words at a single order `n` and
   * then scoring them at the same order gives `value * n`, as long as there
   * are at least `n` words.
   */
  lemma TrainThenScore(rows: seq<Row>, words: seq<Word>, value: int, n: nat)
    requires 1 <= n <= |words| && n < |rows| && EmptyRows(rows)
    ensures Train(rows, words, value, n, n).error == None
    ensures Contributions(Train(rows, words, value, n, n).rows, words, n, n).Ok?
    ensures Average(Contributions(Train(rows, words, value, n, n).rows, words, n, n).value) == (value * n) as real
  {
    var keys := OrderKeys(words, n);
    var row := Record(map[], keys, value);
    var after := rows[n := row];
    assert Train(rows, words, value, n, n) == Outcome(after, None);
    assert forall k :: 0 <= k < |keys| ==> keys[k] in keys;
    RecordedContributions(keys, keys, value, n);
    var c := OrderContributions(row, keys, n).value;
    assert c + [] == c;
    assert Contributions(after, words, n, n) == Ok(c);
    AverageConst(c, (value * n) as real);
  }

  /** The average of copies of `x` is `x`. */
  lemma AverageConst(xs: seq<real>, x: real)
    requires xs != [] && forall i :: 0 <= i < |xs| ==> xs[i] == x
    ensures Average(xs) == x
  {
    SumRealConst(xs, x);
  }
}
