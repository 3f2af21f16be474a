/**
 * The stand-alone n-gram classes of ngram.py: an `NGram` holds a non-empty
 * list of words (modelled by their `str` texts) and renders them joined by
 * spaces; a `ValueNGram` adds an integer value, shown after a colon.
 */
module NGrams {
  import opened PyStr
  import Text

  /** `NGram.__str__`: each word's text followed by a space, then the whole stripped. */
  method JoinWords(words: seq<string>) returns (r: string)
    ensures r == Strip(Join(" ", words))
    ensures words != [] && Text.CleanParts(words) ==> Split(r, " ") == words
  {
    if words != [] && Text.CleanParts(words) {
      Text.SplitKey(words);
    }
    var output := "";
    var i := 0;
    while i < |words|
      invariant 0 <= i <= |words|
      invariant output == Terminated(words[..i])
    {
      assert words[..i + 1][..i] == words[..i];
      output := output + words[i] + " ";
      i := i + 1;
    }
    assert words[..i] == words;
    StripTerminated(words);
    r := Strip(output);
  }

  class NGram {
    const words: seq<string>

    /** An empty list leaves `self.words` unset, so only non-empty lists make usable n-grams. */
    predicate Valid()
      reads this
    {
      words != []
    }

    /** `NGram(words)` for a non-empty list; an empty one leaves `words` unset. */
    constructor(words: seq<string>)
      requires words != []
      ensures Valid()
      ensures this.words == words
    {
      this.words := words;
    }

    /** `len(ngram)`: the number of words supplied. */
    function Len(): (n: nat)
      reads this
      requires Valid()
      ensures n == |words| && n >= 1
    {
      |words|
    }

    /** `str(ngram)`. */
    method ToString() returns (r: string)
      ensures r == Strip(Join(" ", words))
    {
      r := JoinWords(words);
    }
  }

  // ---------------------------------------------------------------------
  // Decimal rendering of `%d`

  function DigitChar(d: nat): (c: char)
    requires d < 10
    ensures '0' <= c <= '9'
  {
    ('0' as int + d) as char
  }

  function DigitValue(c: char): int {
    c as int - '0' as int
  }

  /** The decimal digits of `n`, without leading zeros. */
  function Digits(n: nat): (s: string)
    ensures |s| >= 1
    decreases n
  {
    if n < 10 then [DigitChar(n)] else Digits(n / 10) + [DigitChar(n % 10)]
  }

  /** `"%d" % v`: a minus sign for negative values, then the digits. */
  function Decimal(v: int): string {
    if v < 0 then "-" + Digits(-v) else Digits(v)
  }

  predicate AllDigits(s: string) {
    forall i :: 0 <= i < |s| ==> '0' <= s[i] <= '9'
  }

  /** Reading a string of digits back as a number. */
  function ReadDigits(s: string): nat
    requires AllDigits(s)
    decreases |s|
  {
    if s == [] then 0 else ReadDigits(s[..|s| - 1]) * 10 + DigitValue(s[|s| - 1]) as nat
  }

  /** Reading back `%d` output, with an optional minus sign. */
  function ReadDecimal(s: string): int
    requires s != [] && (if s[0] == '-' then AllDigits(s[1..]) else AllDigits(s))
  {
    if s[0] == '-' then -(ReadDigits(s[1..]) as int) else ReadDigits(s)
  }

  /** The digits are digits, the first one is not 0 unless `n` is 0, and they read back as `n`. */
  lemma {:induction false} DigitsRoundTrip(n: nat)
    ensures AllDigits(Digits(n))
    ensures Digits(n)[0] != '0' || n == 0
    ensures ReadDigits(Digits(n)) == n
    decreases n
  {
    if n >= 10 {
      DigitsRoundTrip(n / 10);
      var s := Digits(n);
      assert s[..|s| - 1] == Digits(n / 10);
    }
  }

  /** `%d` output reads back as the value it renders. */
  lemma DecimalRoundTrip(v: int)
    ensures Decimal(v) != []
    ensures var s := Decimal(v); (if s[0] == '-' then AllDigits(s[1..]) else AllDigits(s)) && ReadDecimal(s) == v
  {
    if v < 0 {
      DigitsRoundTrip(-v);
      assert Decimal(v)[1..] == Digits(-v);
    } else {
      DigitsRoundTrip(v);
    }
  }

  /**
   * `ValueNGram(NGram)`: the inherited part is the `NGram` in `gram`, so
   * `len(value_ngram)` is `gram.Len()`.
   */
  class ValueNGram {
    const gram: NGram
    const value: int

    predicate Valid()
      reads this, gram
    {
      gram.Valid()
    }

    /** `ValueNGram(words, value=0)`: `super().__init__(words)`, then the value. */
    constructor(words: seq<string>, value: int := 0)
      requires words != []
      ensures Valid()
      ensures gram.words == words && this.value == value
    {
      gram := new NGram(words);
      this.value := value;
    }

    /** `str(value_ngram)`: the `NGram` string, a colon and a space, and the value in decimal. */
    method ToString() returns (r: string)
      ensures r == Strip(Join(" ", gram.words)) + ": " + Decimal(value)
    {
      var s := gram.ToString();
      r := s + ": " + Decimal(value);
    }
  }

  /** `str(ValueNGram(["some", "words"], value=3))`. */
  lemma DocValueNGram()
    ensures Strip(Join(" ", ["some", "words"])) + ": " + Decimal(3) == "some words: 3"
  {
    JoinPair(" ", "some", "words");
    StripNoSpaceEnds("some words");
  }
}
