/**
 * The class version of the n-gram table, twitgrep/ngrammatrix.py: an
 * `NGramMatrix` owns a list of `max_n + 1` dictionaries and leaves what is
 * stored under an n-gram to an overridable `add_data` hook. The n-grams come
 * from the text handling of text.py.
 */
module TwitgrepNGramMatrix {
  import opened Wrappers
  import opened PyStr
  import opened Text
  import opened TextMatrix

  /** What a dictionary holds under an n-gram: the `None` of the base hook, or a list of scores. */
  datatype Cell = NoneCell | Scores(items: seq<int>)

  /** `add_data(ngram_data, data)`: the new content under an n-gram, from the old content and the new score. */
  type Hook = (Cell, int) -> Cell

  /** One order's dictionary. */
  type Table = map<string, Cell>

  /** The base class `add_data`: it only prints an error message, so it returns `None`. */
  function BaseAddData(ngramData: Cell, data: int): Cell {
    NoneCell
  }

  /** `self.matrix[n][dict_key]`, with a KeyError read as `[]`. */
  function Previous<K(==)>(row: map<K, Cell>, key: K): Cell {
    if key in row then row[key] else Scores([])
  }

  /** The hook applied `k` times, starting from `c`. */
  function Iterate(hook: Hook, c: Cell, data: int, k: nat): Cell
    decreases k
  {
    if k == 0 then c else Iterate(hook, hook(c, data), data, k - 1)
  }

  /** The row after storing `add_data(previous, data)` under each key in turn. */
  function Store<K(==)>(row: map<K, Cell>, keys: seq<K>, data: int, hook: Hook): map<K, Cell>
    decreases |keys|
  {
    if keys == [] then row
    else Store(row[keys[0] := hook(Previous(row, keys[0]), data)], keys[1..], data, hook)
  }

  /** A key that is not stored keeps its presence and its content. */
  lemma {:induction false} StoreUntouched<K>(row: map<K, Cell>, keys: seq<K>, data: int, hook: Hook, key: K)
    requires key !in keys
    ensures (key in Store(row, keys, data, hook)) == (key in row)
    ensures key in row ==> Store(row, keys, data, hook)[key] == row[key]
    decreases |keys|
  {
    if keys != [] {
      assert keys[0] != key;
      StoreUntouched(row[keys[0] := hook(Previous(row, keys[0]), data)], keys[1..], data, hook, key);
    }
  }

  /** A key stored `k` times holds the hook applied `k` times to its previous content. */
  lemma {:induction false} StoreTouched<K>(row: map<K, Cell>, keys: seq<K>, data: int, hook: Hook, key: K)
    requires key in keys
    ensures key in Store(row, keys, data, hook)
    ensures Store(row, keys, data, hook)[key] == Iterate(hook, Previous(row, key), data, Count(keys, key))
    decreases |keys|
  {
    var next := row[keys[0] := hook(Previous(row, keys[0]), data)];
    var tail := keys[1..];
    assert keys == [keys[0]] + tail;
    if keys[0] == key {
      if key in tail {
        StoreTouched(next, tail, data, hook, key);
      } else {
        StoreUntouched(next, tail, data, hook, key);
        assert Count(tail, key) == 0;
      }
    } else {
      StoreTouched(next, tail, data, hook, key);
    }
  }

  /** The table after `set_sentence_value`, with the exception that stopped it, if any. */
  datatype Stored = Stored(rows: seq<Table>, error: Option<PyError>)

  /** The orders `n..maxN` of `set_sentence_value` for a sentence whose words are `words`. */
  function StoreOrders(rows: seq<Table>, words: seq<Word>, data: int, hook: Hook, n: nat, maxN: int): (r: seq<Table>)
    requires n >= 1 && maxN < |rows|
    ensures |r| == |rows|
    decreases if n <= maxN then maxN - n + 1 else 0
  {
    if n > maxN then rows
    else StoreOrders(rows[n := Store(rows[n], OrderKeys(words, n), data, hook)], words, data, hook, n + 1, maxN)
  }

  /** `set_sentence_value(sentence, data)`: an empty part raises IndexError before anything is stored. */
  function StoreSentence(rows: seq<Table>, sentence: string, data: int, hook: Hook, minN: nat, maxN: int): Stored
    requires minN >= 1 && maxN < |rows|
  {
    var words := WordsOf(Split(sentence, " "));
    if minN > maxN then Stored(rows, None)
    else if words.Err? then Stored(rows, Some(words.error))
    else Stored(StoreOrders(rows, words.value, data, hook, minN, maxN), None)
  }

  /** `all_values` and the local `avg` of `get_sentence_value` (None while `avg` is unbound). */
  datatype Scan = Scan(values: seq<real>, avg: Option<real>)

  /**
   * One order's n-grams in `get_sentence_value`: a missing key is skipped; a
   * stored `None` cannot be iterated (TypeError); `avg` is only assigned
   * inside the loop over the stored list, so an empty list reuses the `avg`
   * of an earlier n-gram, or raises UnboundLocalError when there is none.
   */
  function ScanKeys<K(==)>(row: map<K, Cell>, keys: seq<K>, n: nat, acc: Scan): Result<Scan>
    decreases |keys|
  {
    if keys == [] then Ok(acc)
    else if keys[0] !in row then ScanKeys(row, keys[1..], n, acc)
    else
      var s := ScanCell(row[keys[0]], n, acc);
      if s.Err? then s else ScanKeys(row, keys[1..], n, s.value)
  }

  /** One n-gram found in its dictionary. */
  function ScanCell(cell: Cell, n: nat, acc: Scan): Result<Scan> {
    match cell
    case NoneCell => Err(TypeError)
    case Scores(xs) =>
      var avg := if xs == [] then acc.avg else Some(Mean(xs));
      if avg.None? then Err(UnboundLocalError)
      else Ok(Scan(acc.values + [Weighted(avg.value, n)], avg))
  }

  /** The orders `n..maxN` of `get_sentence_value`. */
  function ScanOrders(rows: seq<Table>, words: seq<Word>, n: nat, maxN: int, acc: Scan): Result<Scan>
    requires n >= 1 && maxN < |rows|
    decreases if n <= maxN then maxN - n + 1 else 0
  {
    if n > maxN then Ok(acc)
    else
      var s := ScanKeys(rows[n], OrderKeys(words, n), n, acc);
      if s.Err? then s else ScanOrders(rows, words, n + 1, maxN, s.value)
  }

  /** `all_values` and `avg` after the loop of `get_sentence_value`, or the exception that stopped it. */
  function ScanSentence(rows: seq<Table>, sentence: string, minN: nat, maxN: int): Result<Scan>
    requires minN >= 1 && maxN < |rows|
  {
    var words := WordsOf(Split(sentence, " "));
    if minN > maxN then Ok(Scan([], None))
    else if words.Err? then Err(words.error)
    else ScanOrders(rows, words.value, minN, maxN, Scan([], None))
  }

  /** `get_sentence_value(sentence)`: the average of `all_values`, or 0 when it is empty. */
  function MatrixValue(rows: seq<Table>, sentence: string, minN: nat, maxN: int): Result<real>
    requires minN >= 1 && maxN < |rows|
  {
    var s := ScanSentence(rows, sentence, minN, maxN);
    if s.Err? then Err(s.error) else Ok(Average(s.value.values))
  }

  /** The loop `for value in values`, which also reassigns `avg` on every pass. */
  method SumAndAverage(values: seq<int>, avg: Option<real>) returns (valueSum: int, newAvg: Option<real>)
    ensures valueSum == Sum(values)
    ensures values == [] ==> newAvg == avg
    ensures values != [] ==> newAvg == Some(Mean(values))
  {
    valueSum := 0;
    newAvg := avg;
    var i := 0;
    while i < |values|
      invariant 0 <= i <= |values|
      invariant valueSum + Sum(values[i..]) == Sum(values)
      invariant i == 0 ==> newAvg == avg
      invariant i > 0 ==> newAvg == Some(valueSum as real / |values| as real)
    {
      assert values[i..][1..] == values[i + 1..];
      valueSum := valueSum + values[i];
      newAvg := Some(valueSum as real / |values| as real);
      i := i + 1;
    }
    assert values[i..] == [];
  }

  /** The body of the `try` in `get_sentence_value`, once `values` has been found. */
  method Contribute(values: Cell, n: nat, acc: Scan) returns (r: Result<Scan>)
    ensures r == ScanCell(values, n, acc)
  {
    if values.NoneCell? {
      return Err(TypeError);
    }
    var valueSum, avg := SumAndAverage(values.items, acc.avg);
    if avg.None? {
      return Err(UnboundLocalError);
    }
    assert avg.value * n as real == Weighted(avg.value, n);
    r := Ok(Scan(acc.values + [avg.value * n as real], avg));
  }

  class NGramMatrix {
    const minN: int
    const maxN: int
    /** The `add_data` of the subclass in use. */
    const addData: Hook
    var matrix: seq<Table>

    /** The list always holds the `max_n + 1` dictionaries the constructor made. */
    predicate Valid()
      reads this
    {
      |matrix| == if maxN >= 0 then maxN + 1 else 0
    }

    /** `NGramMatrix(min_n, max_n)`: `max_n + 1` empty dictionaries. */
    constructor(minN: int, maxN: int, addData: Hook)
      ensures this.minN == minN && this.maxN == maxN && this.addData == addData
      ensures Valid()
      ensures forall i :: 0 <= i < |matrix| ==> matrix[i] == map[]
    {
      this.minN := minN;
      this.maxN := maxN;
      this.addData := addData;
      var rows: seq<Table> := [];
      var n := 0;
      while n <= maxN
        invariant 0 <= n && |rows| == n
        invariant if maxN >= 0 then n <= maxN + 1 else n == 0
        invariant forall i :: 0 <= i < |rows| ==> rows[i] == map[]
        decreases maxN - n
      {
        rows := rows + [map[]];
        n := n + 1;
      }
      matrix := rows;
    }

    /** The inner loop of `set_sentence_value`: one order's n-grams stored in row `n`. */
    method StoreNGrams(n: nat, grams: seq<NGram>, data: int)
      requires n < |matrix|
      requires forall i :: 0 <= i < |grams| ==> grams[i].words != []
      modifies this
      ensures matrix == old(matrix)[n := Store(old(matrix)[n], Keys(grams), data, addData)]
    {
      ghost var keys := Keys(grams);
      var row := matrix[n];
      assert keys[0..] == keys;
      var i := 0;
      while i < |grams|
        invariant 0 <= i <= |grams|
        invariant matrix == old(matrix)
        invariant Store(row, keys[i..], data, addData) == Store(old(matrix)[n], keys, data, addData)
      {
        var key := ToString(grams[i]);
        assert keys[i..][0] == key && keys[i..][1..] == keys[i + 1..];
        var ngramData := if key in row then row[key] else Scores([]);
        ngramData := addData(ngramData, data);
        row := row[key := ngramData];
        i := i + 1;
      }
      assert keys[i..] == [];
      matrix := matrix[n := row];
    }

    /** One pass of the outer loop of `set_sentence_value`: build the order-`n` n-grams and store them. */
    method StoreOrder(words: seq<Word>, n: nat, data: int)
      requires 1 <= n < |matrix|
      modifies this
      ensures matrix == old(matrix)[n := Store(old(matrix)[n], OrderKeys(words, n), data, addData)]
    {
      var grams := MakeNGrams(words, n);
      assert OrderKeys(words, n) == Keys(grams);
      StoreNGrams(n, grams, data);
    }

    /** The outer loop of `set_sentence_value`, over the orders `min_n..max_n`. */
    method StoreWords(words: seq<Word>, data: int)
      requires Valid() && 1 <= minN <= maxN
      modifies this
      ensures Valid()
      ensures matrix == StoreOrders(old(matrix), words, data, addData, minN, maxN)
    {
      var n := minN;
      while n <= maxN
        invariant minN <= n <= maxN + 1 && Valid()
        invariant StoreOrders(old(matrix), words, data, addData, minN, maxN) == StoreOrders(matrix, words, data, addData, n, maxN)
        decreases maxN - n
      {
        ghost var before := matrix;
        StoreOrder(words, n, data);
        assert StoreOrders(before, words, data, addData, n, maxN) == StoreOrders(matrix, words, data, addData, n + 1, maxN);
        n := n + 1;
      }
    }

    /**
     * `set_sentence_value(sentence, data)`. The source splits the sentence
     * again on every pass of its outer loop; splitting is deterministic, so
     * the model splits once, and not at all when the loop is empty.
     */
    method SetSentenceValue(sentence: string, data: int) returns (error: Option<PyError>)
      requires Valid() && minN >= 1
      modifies this
      ensures Valid()
      ensures StoreSentence(old(matrix), sentence, data, addData, minN, maxN) == Stored(matrix, error)
    {
      if minN > maxN {
        return None;
      }
      var words := SplitSentence(sentence);
      if words.Err? {
        return Some(words.error);
      }
      StoreWords(words.value, data);
      error := None;
    }

    /** The inner loop of `get_sentence_value` over one order's n-grams. */
    method ScanNGrams(n: nat, grams: seq<NGram>, acc: Scan) returns (r: Result<Scan>)
      requires n < |matrix|
      requires forall i :: 0 <= i < |grams| ==> grams[i].words != []
      ensures r == ScanKeys(matrix[n], Keys(grams), n, acc)
    {
      ghost var keys := Keys(grams);
      var row := matrix[n];
      assert keys[0..] == keys;
      var current := acc;
      var i := 0;
      while i < |grams|
        invariant 0 <= i <= |grams|
        invariant ScanKeys(row, keys, n, acc) == ScanKeys(row, keys[i..], n, current)
      {
        var key := ToString(grams[i]);
        assert keys[i..][0] == key && keys[i..][1..] == keys[i + 1..];
        if key in row {
          var found := Contribute(row[key], n, current);
          if found.Err? {
            return found;
          }
          current := found.value;
        }
        i := i + 1;
      }
      assert keys[i..] == [];
      r := Ok(current);
    }

    /** One pass of the outer loop of `get_sentence_value`. */
    method ScanOrder(words: seq<Word>, n: nat, acc: Scan) returns (r: Result<Scan>)
      requires 1 <= n < |matrix|
      ensures r == ScanKeys(matrix[n], OrderKeys(words, n), n, acc)
    {
      var grams := MakeNGrams(words, n);
      assert OrderKeys(words, n) == Keys(grams);
      r := ScanNGrams(n, grams, acc);
    }

    /** The outer loop of `get_sentence_value`, over the orders `min_n..max_n`. */
    method ScanWords(words: seq<Word>) returns (r: Result<Scan>)
      requires Valid() && minN >= 1
      ensures r == ScanOrders(matrix, words, minN, maxN, Scan([], None))
    {
      var acc := Scan([], None);
      var n := minN;
      while n <= maxN
        invariant n >= minN
        invariant ScanOrders(matrix, words, minN, maxN, Scan([], None)) == ScanOrders(matrix, words, n, maxN, acc)
        decreases maxN - n
      {
        var scanned := ScanOrder(words, n, acc);
        ScanOrdersNext(matrix, words, n, maxN, acc, scanned);
        if scanned.Err? {
          return scanned;
        }
        acc := scanned.value;
        n := n + 1;
      }
      r := Ok(acc);
    }

    /**
     * `get_sentence_value(sentence)`, splitting the sentence once as
     * `SetSentenceValue` does. The console output of the source is not modelled.
     */
    method GetSentenceValue(sentence: string) returns (r: Result<real>)
      requires Valid() && minN >= 1
      ensures r == MatrixValue(matrix, sentence, minN, maxN)
    {
      var scanned := Ok(Scan([], None));
      if minN <= maxN {
        var words := SplitSentence(sentence);
        if words.Err? {
          return Err(words.error);
        }
        scanned := ScanWords(words.value);
      }
      if scanned.Err? {
        return Err(scanned.error);
      }
      var average := AverageOf(scanned.value.values);
      r := Ok(average);
    }
  }

  /** One order of `ScanOrders`: an exception ends the scan, a result carries on to the next order. */
  lemma ScanOrdersNext(rows: seq<Table>, words: seq<Word>, n: nat, maxN: int, acc: Scan, s: Result<Scan>)
    requires 1 <= n <= maxN < |rows|
    requires s == ScanKeys(rows[n], OrderKeys(words, n), n, acc)
    ensures s.Err? ==> ScanOrders(rows, words, n, maxN, acc) == s
    ensures s.Ok? ==> ScanOrders(rows, words, n, maxN, acc) == ScanOrders(rows, words, n + 1, maxN, s.value)
  {
  }

  // ---------------------------------------------------------------------
  // Properties of storing

  /** Storing leaves the rows outside `n..maxN` alone. */
  lemma {:induction false} StoreOrdersFrame(rows: seq<Table>, words: seq<Word>, data: int, hook: Hook, n: nat, maxN: int, m: nat)
    requires n >= 1 && maxN < |rows| && m < |rows| && (m < n || m > maxN)
    ensures StoreOrders(rows, words, data, hook, n, maxN)[m] == rows[m]
    decreases if n <= maxN then maxN - n + 1 else 0
  {
    if n <= maxN {
      var next := rows[n := Store(rows[n], OrderKeys(words, n), data, hook)];
      StoreOrdersFrame(next, words, data, hook, n + 1, maxN, m);
      assert next[m] == rows[m];
    }
  }

  /** Row `m` of `n..maxN` after storing is that order's keys stored into the old row. */
  lemma {:induction false} StoreOrdersAt(rows: seq<Table>, words: seq<Word>, data: int, hook: Hook, n: nat, maxN: int, m: nat)
    requires n >= 1 && maxN < |rows| && n <= m <= maxN
    ensures StoreOrders(rows, words, data, hook, n, maxN)[m] == Store(rows[m], OrderKeys(words, m), data, hook)
    decreases maxN - n
  {
    var next := rows[n := Store(rows[n], OrderKeys(words, n), data, hook)];
    if m == n {
      StoreOrdersFrame(next, words, data, hook, n + 1, maxN, m);
    } else {
      StoreOrdersAt(next, words, data, hook, n + 1, maxN, m);
    }
  }

  /**
   * After `set_sentence_value`, a key produced `k >= 1` times at order `m`
   * holds `add_data` applied `k` times to its previous content (`[]` when
   * absent); every other key of every row is unchanged.
   */
  lemma StoreSentenceAt(rows: seq<Table>, sentence: string, data: int, hook: Hook, minN: nat, maxN: int, m: nat, key: string)
    requires 1 <= minN <= m <= maxN < |rows|
    requires WordsOf(Split(sentence, " ")).Ok?
    ensures var keys := OrderKeys(WordsOf(Split(sentence, " ")).value, m);
      var after := StoreSentence(rows, sentence, data, hook, minN, maxN);
      && after.error == None
      && (key in keys ==> key in after.rows[m] && after.rows[m][key] == Iterate(hook, Previous(rows[m], key), data, Count(keys, key)))
      && (key !in keys ==> (key in after.rows[m] <==> key in rows[m]) && (key in rows[m] ==> after.rows[m][key] == rows[m][key]))
  {
    var words := WordsOf(Split(sentence, " ")).value;
    var keys := OrderKeys(words, m);
    StoreOrdersAt(rows, words, data, hook, minN, maxN, m);
    if key in keys {
      StoreTouched(rows[m], keys, data, hook, key);
    } else {
      StoreUntouched(rows[m], keys, data, hook, key);
    }
  }

  /** Rows outside `minN..maxN` are never written. */
  lemma StoreSentenceFrame(rows: seq<Table>, sentence: string, data: int, hook: Hook, minN: nat, maxN: int)
    requires 1 <= minN && maxN < |rows|
    ensures |StoreSentence(rows, sentence, data, hook, minN, maxN).rows| == |rows|
    ensures forall m :: 0 <= m < |rows| && (m < minN || m > maxN) ==> StoreSentence(rows, sentence, data, hook, minN, maxN).rows[m] == rows[m]
  {
    var words := WordsOf(Split(sentence, " "));
    if minN <= maxN && words.Ok? {
      forall m | 0 <= m < |rows| && (m < minN || m > maxN)
        ensures StoreOrders(rows, words.value, data, hook, minN, maxN)[m] == rows[m]
      {
        StoreOrdersFrame(rows, words.value, data, hook, minN, maxN, m);
      }
    }
  }

  /** The base hook turns whatever it is given into `None`. */
  lemma {:induction false} IterateBase(c: Cell, data: int, k: nat)
    requires k >= 1
    ensures Iterate(BaseAddData, c, data, k) == NoneCell
    decreases k
  {
    if k > 1 {
      IterateBase(BaseAddData(c, data), data, k - 1);
    }
  }

  /** With the base `add_data`, every n-gram the sentence touches holds `None`. */
  lemma BaseHookStoresNone(rows: seq<Table>, sentence: string, data: int, minN: nat, maxN: int, m: nat, key: string)
    requires 1 <= minN <= m <= maxN < |rows|
    requires WordsOf(Split(sentence, " ")).Ok?
    requires key in OrderKeys(WordsOf(Split(sentence, " ")).value, m)
    ensures key in StoreSentence(rows, sentence, data, BaseAddData, minN, maxN).rows[m]
    ensures StoreSentence(rows, sentence, data, BaseAddData, minN, maxN).rows[m][key] == NoneCell
  {
    var keys := OrderKeys(WordsOf(Split(sentence, " ")).value, m);
    StoreSentenceAt(rows, sentence, data, BaseAddData, minN, maxN, m, key);
    IterateBase(Previous(rows[m], key), data, Count(keys, key));
  }

  /**
   * So scoring a sentence just stored through the base hook raises TypeError
   * (as long as it has at least `minN` words): the behaviour has to come from
   * an overriding hook.
   */
  lemma BaseHookThenScoreFails(rows: seq<Table>, sentence: string, data: int, minN: nat, maxN: int)
    requires 1 <= minN <= maxN < |rows|
    requires WordsOf(Split(sentence, " ")).Ok? && minN <= |WordsOf(Split(sentence, " ")).value|
    ensures MatrixValue(StoreSentence(rows, sentence, data, BaseAddData, minN, maxN).rows, sentence, minN, maxN) == Err(TypeError)
  {
    var words := WordsOf(Split(sentence, " ")).value;
    var keys := OrderKeys(words, minN);
    var after := StoreSentence(rows, sentence, data, BaseAddData, minN, maxN).rows;
    assert keys[0] in keys;
    BaseHookStoresNone(rows, sentence, data, minN, maxN, minN, keys[0]);
    assert ScanKeys(after[minN], keys, minN, Scan([], None)) == Err(TypeError);
  }

  // ---------------------------------------------------------------------
  // Properties of scoring

  /** Tables with no keys, as the constructor makes them. */
  predicate EmptyTables(rows: seq<Table>) {
    forall m :: 0 <= m < |rows| ==> rows[m] == map[]
  }

  lemma {:induction false} ScanKeysEmpty<K>(keys: seq<K>, n: nat, acc: Scan)
    ensures ScanKeys(map[], keys, n, acc) == Ok(acc)
    decreases |keys|
  {
    if keys != [] {
      ScanKeysEmpty(keys[1..], n, acc);
    }
  }

  lemma {:induction false} ScanOrdersEmpty(rows: seq<Table>, words: seq<Word>, n: nat, maxN: int, acc: Scan)
    requires n >= 1 && maxN < |rows| && EmptyTables(rows)
    ensures ScanOrders(rows, words, n, maxN, acc) == Ok(acc)
    decreases if n <= maxN then maxN - n + 1 else 0
  {
    if n <= maxN {
      assert rows[n] == map[];
      ScanKeysEmpty(OrderKeys(words, n), n, acc);
      ScanOrdersNext(rows, words, n, maxN, acc, Ok(acc));
      ScanOrdersEmpty(rows, words, n + 1, maxN, acc);
    }
  }

  /** A matrix with empty dictionaries, such as a fresh one, scores 0 unless the sentence has an empty part. */
  lemma EmptyMatrixScoresZero(rows: seq<Table>, sentence: string, minN: nat, maxN: int)
    requires 1 <= minN && maxN < |rows| && EmptyTables(rows)
    ensures MatrixValue(rows, sentence, minN, maxN)
         == if minN <= maxN && WordsOf(Split(sentence, " ")).Err? then Err(IndexError) else Ok(0.0)
  {
    var words := WordsOf(Split(sentence, " "));
    WordsOfOk(Split(sentence, " "));
    if minN <= maxN && words.Ok? {
      ScanOrdersEmpty(rows, words.value, minN, maxN, Scan([], None));
    }
  }

  /** No n-gram of the orders `n..maxN` is found in its dictionary. */
  predicate NoneFound(rows: seq<Table>, words: seq<Word>, n: nat, maxN: int) {
    forall m :: 1 <= m && n <= m <= maxN && m < |rows| ==>
      forall k :: 0 <= k < |OrderKeys(words, m)| ==> OrderKeys(words, m)[k] !in rows[m]
  }

  /** Keys that are all missing leave `all_values` and `avg` as they were. */
  lemma {:induction false} ScanKeysMissing<K>(row: map<K, Cell>, keys: seq<K>, n: nat, acc: Scan)
    requires forall k :: 0 <= k < |keys| ==> keys[k] !in row
    ensures ScanKeys(row, keys, n, acc) == Ok(acc)
    decreases |keys|
  {
    if keys != [] {
      ScanKeysMissing(row, keys[1..], n, acc);
    }
  }

  lemma {:induction false} ScanOrdersMissing(rows: seq<Table>, words: seq<Word>, n: nat, maxN: int, acc: Scan)
    requires n >= 1 && maxN < |rows| && NoneFound(rows, words, n, maxN)
    ensures ScanOrders(rows, words, n, maxN, acc) == Ok(acc)
    decreases if n <= maxN then maxN - n + 1 else 0
  {
    if n <= maxN {
      ScanKeysMissing(rows[n], OrderKeys(words, n), n, acc);
      ScanOrdersNext(rows, words, n, maxN, acc, Ok(acc));
      ScanOrdersMissing(rows, words, n + 1, maxN, acc);
    }
  }

  /**
   * A matrix in which no n-gram of the sentence is found, fresh or not,
   * scores the sentence 0; the one exception is a sentence with an empty
   * part, which raises IndexError.
   */
  lemma NoMatchScoresZero(rows: seq<Table>, sentence: string, minN: nat, maxN: int)
    requires 1 <= minN && maxN < |rows|
    requires WordsOf(Split(sentence, " ")).Ok? ==> NoneFound(rows, WordsOf(Split(sentence, " ")).value, minN, maxN)
    ensures MatrixValue(rows, sentence, minN, maxN)
         == if minN <= maxN && WordsOf(Split(sentence, " ")).Err? then Err(IndexError) else Ok(0.0)
  {
    var words := WordsOf(Split(sentence, " "));
    WordsOfOk(Split(sentence, " "));
    if minN <= maxN && words.Ok? {
      ScanOrdersMissing(rows, words.value, minN, maxN, Scan([], None));
    }
  }

  /** Every cell holds a non-empty list of scores, as an appending hook leaves them. */
  predicate ScoreTable<K>(row: map<K, Cell>) {
    forall k :: k in row ==> row[k].Scores? && row[k].items != []
  }

  /** The same table in the form of text.py's score table. */
  function ToRow<K>(row: map<K, Cell>): map<K, seq<int>> {
    map k | k in row :: if row[k].Scores? then row[k].items else []
  }

  function ToRows(rows: seq<Table>): (r: seq<Row>)
    ensures |r| == |rows|
    ensures forall m :: 0 <= m < |rows| ==> r[m] == ToRow(rows[m])
  {
    seq(|rows|, m requires 0 <= m < |rows| => ToRow(rows[m]))
  }

  /** On lists of scores that are all non-empty, one order's scan adds what text.py's table contributes. */
  lemma {:induction false} ScanKeysAgrees<K>(row: map<K, Cell>, keys: seq<K>, n: nat, acc: Scan)
    requires ScoreTable(row)
    ensures OrderContributions(ToRow(row), keys, n).Ok? && ScanKeys(row, keys, n, acc).Ok?
    ensures ScanKeys(row, keys, n, acc).value.values == acc.values + OrderContributions(ToRow(row), keys, n).value
    decreases |keys|
  {
    if keys == [] {
      assert acc.values + [] == acc.values;
    } else {
      var key := keys[0];
      if key !in row {
        ScanKeysAgrees(row, keys[1..], n, acc);
      } else {
        var xs := row[key].items;
        var next := Scan(acc.values + [Weighted(Mean(xs), n)], Some(Mean(xs)));
        ScanKeysAgrees(row, keys[1..], n, next);
        var rest := OrderContributions(ToRow(row), keys[1..], n).value;
        assert OrderContributions(ToRow(row), keys, n).value == [Weighted(Mean(xs), n)] + rest;
        assert next.values + rest == acc.values + ([Weighted(Mean(xs), n)] + rest);
      }
    }
  }

  lemma {:induction false} ScanOrdersAgrees(rows: seq<Table>, table: seq<Row>, words: seq<Word>, n: nat, maxN: int, acc: Scan)
    requires n >= 1 && maxN < |rows| == |table|
    requires forall m :: 0 <= m < |rows| ==> ScoreTable(rows[m]) && table[m] == ToRow(rows[m])
    ensures ScanOrders(rows, words, n, maxN, acc).Ok?
    ensures Prepend(acc.values, Contributions(table, words, n, maxN)) == Ok(ScanOrders(rows, words, n, maxN, acc).value.values)
    decreases if n <= maxN then maxN - n + 1 else 0
  {
    if n > maxN {
      assert acc.values + [] == acc.values;
    } else {
      var keys := OrderKeys(words, n);
      ScanKeysAgrees(rows[n], keys, n, acc);
      var s := ScanKeys(rows[n], keys, n, acc).value;
      ScanOrdersNext(rows, words, n, maxN, acc, Ok(s));
      ScanOrdersAgrees(rows, table, words, n + 1, maxN, s);
      var here := OrderContributions(table[n], keys, n);
      ContributionsNext(table, words, n, maxN, here);
      PrependPrepend(acc.values, here.value, Contributions(table, words, n + 1, maxN));
      assert s.values == acc.values + here.value;
    }
  }

  /**
   * While every stored list is non-empty, the class scores a sentence exactly
   * as text.py's `get_sentence_value` does on the same lists.
   */
  lemma MatrixAgreesWithTextModel(rows: seq<Table>, sentence: string, minN: nat, maxN: int)
    requires 1 <= minN && maxN < |rows|
    requires forall m :: 0 <= m < |rows| ==> ScoreTable(rows[m])
    ensures MatrixValue(rows, sentence, minN, maxN) == SentenceValue(ToRows(rows), sentence, minN, maxN)
  {
    var words := WordsOf(Split(sentence, " "));
    if minN <= maxN && words.Ok? {
      ScanOrdersAgrees(rows, ToRows(rows), words.value, minN, maxN, Scan([], None));
      PrependNothing(Contributions(ToRows(rows), words.value, minN, maxN));
    }
  }

  /**
   * An empty stored list reuses the `avg` of the n-gram before it, where
   * text.py raises ZeroDivisionError; with no n-gram before it the class
   * raises UnboundLocalError.
   */
  lemma StaleAverageAt<K>(row: map<K, Cell>, keys: seq<K>, n: nat, acc: Scan)
    requires keys != [] && keys[0] in row && row[keys[0]] == Scores([])
    ensures ScanKeys(row, keys, n, acc)
         == if acc.avg.None? then Err(UnboundLocalError)
            else ScanKeys(row, keys[1..], n, Scan(acc.values + [Weighted(acc.avg.value, n)], acc.avg))
    ensures OrderContributions(ToRow(row), keys, n) == Err(ZeroDivisionError)
  {
    assert ToRow(row)[keys[0]] == [];
  }

  /** An example of `StaleAverageAt`: with `[4]` before it, an empty list scores 4. */
  lemma StaleAverage()
    ensures ScanKeys(map[1 := Scores([4]), 2 := Scores([])], [1, 2], 1, Scan([], None)) == Ok(Scan([4.0, 4.0], Some(4.0)))
    ensures ScanKeys(map[2 := Scores([])], [2], 1, Scan([], None)) == Err(UnboundLocalError)
    ensures OrderContributions(map[1 := [4], 2 := []], [1, 2], 1) == Err(ZeroDivisionError)
  {
    var row := map[1 := Scores([4]), 2 := Scores([])];
    assert Mean([4]) == 4.0 by {
      assert Sum([4]) == 4 + Sum([]);
    }
    assert [1, 2][1..] == [2] && [2][1..] == [];
    assert Weighted(4.0, 1) == 4.0;
    assert [4.0] + [4.0] == [4.0, 4.0];
    assert [] + [Weighted(Mean([4]), 1)] == [4.0];
    assert [4.0] + [Weighted(4.0, 1)] == [4.0, 4.0];
    assert ScanCell(row[1], 1, Scan([], None)) == Ok(Scan([4.0], Some(4.0)));
    assert ScanCell(row[2], 1, Scan([4.0], Some(4.0))) == Ok(Scan([4.0, 4.0], Some(4.0)));
    assert ScanKeys(row, [], 1, Scan([4.0, 4.0], Some(4.0))) == Ok(Scan([4.0, 4.0], Some(4.0)));
    assert ScanKeys(row, [2], 1, Scan([4.0], Some(4.0))) == Ok(Scan([4.0, 4.0], Some(4.0)));
    assert ScanCell(map[2 := Scores([])][2], 1, Scan([], None)) == Err(UnboundLocalError);
  }
}
