/**
 * Words, text normalisation, sentence and word splitting, n-grams and
 * sliding-window n-gram generation (text.py).
 */
module Text {
  import opened Wrappers
  import opened PyStr

  // ---------------------------------------------------------------------
  // Words

  /** `Word.TYPE_WORD` (1), `TYPE_URL` (2), `TYPE_USERNAME` (3), `TYPE_TAG` (4). */
  datatype WordType = TypeWord | TypeUrl | TypeUsername | TypeTag

  /** A word with its type; `str(word)` is `wordText`. */
  datatype Word = Word(wordText: string, wordType: WordType) {

    /** `word == other`: only the texts are compared, never the types. */
    predicate Equals(other: Word) {
      wordText == other.wordText
    }
  }

  /**
   * `Word(wordText, wordType, keepCase)`. Without an explicit type the type is
   * inferred: URL when the text contains "://", else username on a leading
   * '@' (where `keepCase` then defaults to true), else tag on a leading '#',
   * else a plain word. The text is lower-cased unless `keepCase` is true. An
   * empty text with no explicit type fails at `word_text[0]`.
   */
  function NewWord(wordText: string, wordType: Option<WordType> := None, keepCase: Option<bool> := None): (r: Result<Word>)
    ensures r.Err? <==> wordType.None? && wordText == []
    ensures r.Err? ==> r.error == IndexError
    ensures wordType.Some? ==> r.Ok? && r.value.wordType == wordType.value
    ensures wordType.None? && Contains(wordText, "://") ==> r.Ok? && r.value.wordType == TypeUrl
    ensures wordType.None? && !Contains(wordText, "://") && wordText != [] ==>
      r.Ok? && r.value.wordType == (if wordText[0] == '@' then TypeUsername
                                    else if wordText[0] == '#' then TypeTag
                                    else TypeWord)
    ensures r.Ok? && r.value.wordType == TypeUsername && wordType.None? && keepCase.None? ==>
      r.value.wordText == wordText
    ensures r.Ok? && !(r.value.wordType == TypeUsername && wordType.None? && keepCase.None?) ==>
      r.value.wordText == if keepCase == Some(true) then wordText else Lower(wordText)
  {
    if wordType.None? && !Contains(wordText, "://") && wordText == [] then
      Err(IndexError)
    else
      var t := if wordType.Some? then wordType.value
               else if Contains(wordText, "://") then TypeUrl
               else if wordText[0] == '@' then TypeUsername
               else if wordText[0] == '#' then TypeTag
               else TypeWord;
      var keep := if wordType.None? && t == TypeUsername && keepCase.None? then Some(true) else keepCase;
      Ok(Word(if keep == Some(true) then wordText else Lower(wordText), t))
  }

  /** Equality of words ignores their types: the same text under two explicit types. */
  lemma WordEqualityIgnoresType(text: string, t1: WordType, t2: WordType)
    ensures NewWord(text, Some(t1)).value.Equals(NewWord(text, Some(t2)).value)
    ensures NewWord(text, Some(t1)).value != NewWord(text, Some(t2)).value <==> t1 != t2
  {
  }

  /**
   * Whether `Word(wordText, wordType, keepCase)` keeps the text's case: when
   * `keepCase` is true, or when it defaults to true for an inferred username.
   */
  predicate KeepsCase(wordText: string, wordType: Option<WordType>, keepCase: Option<bool>) {
    keepCase == Some(true)
    || (wordType.None? && keepCase.None? && wordText != [] && !Contains(wordText, "://") && wordText[0] == '@')
  }

  /**
   * Two words whose case is folded are equal exactly when their texts are
   * equal ignoring case, whatever types were given or inferred.
   */
  lemma FoldedWordEquality(s: string, t: string, ts: Option<WordType>, tt: Option<WordType>, ks: Option<bool>, kt: Option<bool>)
    requires NewWord(s, ts, ks).Ok? && NewWord(t, tt, kt).Ok?
    requires !KeepsCase(s, ts, ks) && !KeepsCase(t, tt, kt)
    ensures NewWord(s, ts, ks).value.Equals(NewWord(t, tt, kt).value) <==> Lower(s) == Lower(t)
  {
  }

  /** Two inferred usernames are equal exactly when their texts are, case included. */
  lemma UsernameEquality(s: string, t: string)
    requires KeepsCase(s, None, None) && KeepsCase(t, None, None)
    ensures NewWord(s).Ok? && NewWord(s).value.wordType == TypeUsername
    ensures NewWord(t).Ok? && NewWord(t).value.wordType == TypeUsername
    ensures NewWord(s).value.Equals(NewWord(t).value) <==> s == t
  {
  }

  /** The comparisons of the `Word` docstring. */
  lemma DocWordEquality()
    ensures !NewWord("hello").value.Equals(NewWord("there").value)
    ensures NewWord("hello").value.Equals(NewWord("hello").value)
  {
    assert "hello"[0] == 'h';
    assert "there"[0] == 't';
    NotContainsMissingChar("hello", "://", 0);
    NotContainsMissingChar("there", "://", 0);
    assert Lower("hello")[0] == 'h' && Lower("there")[0] == 't';
  }

  // ---------------------------------------------------------------------
  // Normalisation

  /** The characters `normalize_whitespace` deals with: space, tab, CR and LF. */
  predicate PlainWhitespace(s: string) {
    forall c :: c in s && IsSpace(c) ==> c == ' ' || c == '\t' || c == '\r' || c == '\n'
  }

  /** No CR, LF or tab; no space at either end; never two spaces in a row. */
  predicate WellSpaced(s: string) {
    && (forall c :: c in s ==> c != '\n' && c != '\r' && c != '\t')
    && (s != [] ==> s[0] != ' ' && s[|s| - 1] != ' ')
    && (forall i :: 0 <= i < |s| - 1 ==> !(s[i] == ' ' && s[i + 1] == ' '))
  }

  /** `[word.strip() for word in parts if len(word) > 0]`. */
  function CompactParts(parts: seq<string>): (r: seq<string>)
    ensures |r| <= |parts|
  {
    if parts == [] then []
    else (if |parts[0]| > 0 then [Strip(parts[0])] else []) + CompactParts(parts[1..])
  }

  /** LF and tab become spaces and CR is deleted, before the text is cut at spaces. */
  function WhitespaceToSpaces(text: string): string {
    Replace(Replace(Replace(text, '\n', " "), '\r', ""), '\t', " ")
  }

  /** `normalize_whitespace(text)`. */
  function NormalizeWhitespace(text: string): string {
    Join(" ", CompactParts(Split(WhitespaceToSpaces(text), " ")))
  }

  /** After the replacements no LF, CR or tab is left, and every other character is a space or from the input. */
  lemma WhitespaceToSpacesChars(text: string)
    ensures forall c :: c in WhitespaceToSpaces(text) ==>
      c != '\n' && c != '\r' && c != '\t' && (c == ' ' || c in text)
  {
    var t1 := Replace(text, '\n', " ");
    var t2 := Replace(t1, '\r', "");
    ReplaceChars(text, '\n', " ");
    ReplaceChars(t1, '\r', "");
    ReplaceChars(t2, '\t', " ");
  }

  /** Every character of a compacted part is a character of one of the original parts, all taken from `t`. */
  lemma {:induction false} CompactPartsChars(t: string, pieces: seq<string>)
    requires forall k, c :: 0 <= k < |pieces| && c in pieces[k] ==> c in t
    ensures forall k, c :: 0 <= k < |CompactParts(pieces)| && c in CompactParts(pieces)[k] ==> c in t
  {
    if pieces != [] {
      assert forall k, c :: 0 <= k < |pieces[1..]| && c in pieces[1..][k] ==> c in t by {
        forall k, c | 0 <= k < |pieces[1..]| && c in pieces[1..][k] ensures c in t {
          assert pieces[1..][k] == pieces[k + 1];
        }
      }
      CompactPartsChars(t, pieces[1..]);
      var head := if |pieces[0]| > 0 then [Strip(pieces[0])] else [];
      var rest := CompactParts(pieces[1..]);
      assert CompactParts(pieces) == head + rest;
      forall k, c | 0 <= k < |head + rest| && c in (head + rest)[k] ensures c in t {
        if k >= |head| {
          assert (head + rest)[k] == rest[k - |head|];
        } else {
          StripChars(pieces[0]);
        }
      }
    }
  }

  /** The result holds no LF, CR or tab, and no character that is not a space or from the input. */
  lemma NormalizeWhitespaceChars(text: string)
    ensures forall c :: c in NormalizeWhitespace(text) ==> c != '\n' && c != '\r' && c != '\t' && (c == ' ' || c in text)
  {
    var t := WhitespaceToSpaces(text);
    WhitespaceToSpacesChars(text);
    var pieces := Split(t, " ");
    SplitChars(t, " ");
    var parts := CompactParts(pieces);
    CompactPartsChars(t, pieces);
    JoinChars(" ", parts);
    assert NormalizeWhitespace(text) == Join(" ", parts);
    forall c | c in Join(" ", parts) ensures c != '\n' && c != '\r' && c != '\t' && (c == ' ' || c in text) {
      if c != ' ' {
        var k :| 0 <= k < |parts| && c in parts[k];
        assert c in t;
      }
    }
  }

  /** `unify_sentence_dividers(text)`: every '!' and '?' becomes '.', nothing else changes. */
  function UnifySentenceDividers(text: string): (r: string)
    ensures |r| == |text|
    ensures forall i :: 0 <= i < |text| ==> r[i] == if text[i] == '!' || text[i] == '?' then '.' else text[i]
  {
    var t := Replace(text, '!', ".");
    ReplaceByChar(text, '!', '.');
    ReplaceByChar(t, '?', '.');
    Replace(t, '?', ".")
  }

  /** The characters `remove_junk_chars` deletes. */
  const JunkChars: set<char> := {',', ':', ';'}

  /** `remove_junk_chars(text)`: exactly the characters ',' ':' ';' are deleted. */
  function RemoveJunkChars(text: string): (r: string)
    ensures r == Without(text, JunkChars)
  {
    var t1 := Replace(text, ',', "");
    var t2 := Replace(t1, ':', "");
    var r := Replace(t2, ';', "");
    assert r == Without(text, JunkChars) by {
      ReplaceByEmpty(text, ',');
      ReplaceByEmpty(t1, ':');
      ReplaceByEmpty(t2, ';');
      var a: set<char>, b: set<char>, c: set<char> := {','}, {':'}, {';'};
      WithoutTwice(text, a, b);
      WithoutTwice(text, a + b, c);
      assert a + b + c == JunkChars;
    }
    r
  }

  /** `normalize(text)`: whitespace, then dividers, then junk characters. */
  function Normalize(text: string): string {
    RemoveJunkChars(UnifySentenceDividers(NormalizeWhitespace(text)))
  }

  /** The characters `normalize` leaves out: '!', '?', the junk characters, LF, CR and tab. */
  const NormalizedAway: set<char> := {'!', '?', ',', ':', ';', '\n', '\r', '\t'}

  /** Proof helper: the space is not among the characters normalisation removes. */
  lemma SpaceStays()
    ensures ' ' !in NormalizedAway
  { }

  /** `normalize_whitespace` leaves no LF, CR or tab. */
  lemma NormalizeWhitespaceAvoids(text: string)
    ensures Avoids(NormalizeWhitespace(text), {'\n', '\r', '\t'})
  {
    NormalizeWhitespaceChars(text);
  }

  /** Unifying the dividers adds '!' and '?' to the characters a text avoids. */
  lemma UnifyAvoids(w: string, bad: set<char>)
    requires Avoids(w, bad) && '.' !in bad
    ensures Avoids(UnifySentenceDividers(w), bad + {'!', '?'})
  {
    var u := UnifySentenceDividers(w);
    forall c | c in u ensures c !in bad + {'!', '?'} {
      var i :| 0 <= i < |u| && u[i] == c;
      assert w[i] in w;
    }
  }

  /** After `normalize` no divider other than '.', no junk character and no LF, CR or tab is left. */
  lemma NormalizeChars(text: string)
    ensures Avoids(Normalize(text), NormalizedAway)
  {
    var w := NormalizeWhitespace(text);
    var u := UnifySentenceDividers(w);
    NormalizeWhitespaceAvoids(text);
    UnifyAvoids(w, {'\n', '\r', '\t'});
    WithoutAvoids(u, JunkChars, {'\n', '\r', '\t'} + {'!', '?'});
    assert {'\n', '\r', '\t'} + {'!', '?'} + JunkChars == NormalizedAway;
  }

  // ---------------------------------------------------------------------
  // Well-spaced text

  /** Parts that are non-empty and hold no whitespace: what `normalize_whitespace` joins. */
  predicate CleanParts(parts: seq<string>) {
    forall k :: 0 <= k < |parts| ==> parts[k] != [] && NoSpace(parts[k])
  }

  lemma {:induction false} CompactPartsClean(parts: seq<string>)
    requires forall k :: 0 <= k < |parts| ==> NoSpace(parts[k])
    ensures CleanParts(CompactParts(parts))
  {
    if parts != [] {
      CompactPartsClean(parts[1..]);
      StripNoSpace(parts[0]);
      var rest := CompactParts(parts[1..]);
      var head := if |parts[0]| > 0 then [parts[0]] else [];
      assert CompactParts(parts) == head + rest;
    }
  }

  lemma {:induction false} CompactPartsKeepsClean(parts: seq<string>)
    requires CleanParts(parts)
    ensures CompactParts(parts) == parts
  {
    if parts != [] {
      CompactPartsKeepsClean(parts[1..]);
      StripNoSpace(parts[0]);
      assert CompactParts(parts) == [parts[0]] + parts[1..];
    }
  }

  /** With plain whitespace in the input, `normalize_whitespace` joins clean parts. */
  lemma {:induction false} NormalizedParts(text: string)
    requires PlainWhitespace(text)
    ensures CleanParts(CompactParts(Split(WhitespaceToSpaces(text), " ")))
  {
    var t1 := Replace(text, '\n', " ");
    var t2 := Replace(t1, '\r', "");
    var t := Replace(t2, '\t', " ");
    ReplaceChars(text, '\n', " ");
    ReplaceChars(t1, '\r', "");
    ReplaceChars(t2, '\t', " ");
    assert forall c :: c in t && IsSpace(c) ==> c == ' ';
    var pieces := Split(t, " ");
    SplitChars(t, " ");
    SplitPiecesFree(t, " ");
    forall k | 0 <= k < |pieces| ensures NoSpace(pieces[k]) {
      ContainsChar(pieces[k], ' ');
    }
    CompactPartsClean(pieces);
  }

  /** Clean parts joined by single spaces are well spaced, and their only whitespace is the space. */
  lemma {:induction false} JoinWellSpaced(parts: seq<string>)
    requires CleanParts(parts)
    ensures var r := Join(" ", parts);
      && WellSpaced(r)
      && (forall c :: c in r && IsSpace(c) ==> c == ' ')
      && (parts != [] ==> r != [] && r[0] == parts[0][0] && r[|r| - 1] != ' ')
  {
    if |parts| > 1 {
      var p := parts[0];
      var j := Join(" ", parts[1..]);
      JoinWellSpaced(parts[1..]);
      var r := p + " " + j;
      assert Join(" ", parts) == r;
      forall i | 0 <= i < |r| - 1 ensures !(r[i] == ' ' && r[i + 1] == ' ') {
        if i < |p| {
          assert r[i] == p[i] && p[i] in p;
        } else if i == |p| {
          assert r[i + 1] == j[0];
        } else {
          assert r[i] == j[i - |p| - 1] && r[i + 1] == j[i - |p|];
        }
      }
      assert r[0] == p[0] && p[0] in p;
      assert r[|r| - 1] == j[|j| - 1];
      assert forall c :: c in r ==> c in p || c == ' ' || c in j;
    } else if |parts| == 1 {
      var p := parts[0];
      assert p[0] in p && p[|p| - 1] in p;
      forall i | 0 <= i < |p| - 1 ensures !(p[i] == ' ' && p[i + 1] == ' ') {
        assert p[i] in p;
      }
    }
  }

  /** Under plain whitespace, the output of `normalize_whitespace` is well spaced. */
  lemma NormalizeWhitespaceWellSpaced(text: string)
    requires PlainWhitespace(text)
    ensures WellSpaced(NormalizeWhitespace(text))
    ensures forall c :: c in NormalizeWhitespace(text) && IsSpace(c) ==> c == ' '
  {
    NormalizedParts(text);
    JoinWellSpaced(CompactParts(Split(WhitespaceToSpaces(text), " ")));
  }

  /** Clean parts joined by single spaces are left alone by `normalize_whitespace`. */
  lemma {:induction false} NormalizeWhitespaceOfJoin(parts: seq<string>)
    requires CleanParts(parts)
    ensures NormalizeWhitespace(Join(" ", parts)) == Join(" ", parts)
  {
    var x := Join(" ", parts);
    JoinWellSpaced(parts);
    ReplaceAbsent(x, '\n', " ");
    ReplaceAbsent(x, '\r', "");
    ReplaceAbsent(x, '\t', " ");
    assert WhitespaceToSpaces(x) == x;
    if parts == [] {
      assert Split(x, " ") == [""];
    } else {
      forall k | 0 <= k < |parts| ensures ' ' !in parts[k] {
        assert NoSpace(parts[k]);
      }
      SplitJoin(parts, ' ');
      CompactPartsKeepsClean(parts);
    }
  }

  /** `normalize_whitespace` is idempotent on text with plain whitespace. */
  lemma NormalizeWhitespaceIdempotent(text: string)
    requires PlainWhitespace(text)
    ensures NormalizeWhitespace(NormalizeWhitespace(text)) == NormalizeWhitespace(text)
  {
    NormalizedParts(text);
    NormalizeWhitespaceOfJoin(CompactParts(Split(WhitespaceToSpaces(text), " ")));
  }

  /** Each part with its dividers unified. */
  function UnifyParts(parts: seq<string>): (r: seq<string>)
    ensures |r| == |parts|
    ensures forall k :: 0 <= k < |parts| ==> r[k] == UnifySentenceDividers(parts[k])
  {
    seq(|parts|, k requires 0 <= k < |parts| => UnifySentenceDividers(parts[k]))
  }

  /** Dividers are unified part by part across a space-joined text. */
  lemma {:induction false} UnifyJoin(parts: seq<string>)
    ensures UnifySentenceDividers(Join(" ", parts)) == Join(" ", UnifyParts(parts))
  {
    if |parts| > 1 {
      var p := parts[0];
      var j := Join(" ", parts[1..]);
      UnifyJoin(parts[1..]);
      ReplaceConcat(p + " ", j, '!', ".");
      ReplaceConcat(p, " ", '!', ".");
      var p1 := Replace(p, '!', ".");
      var j1 := Replace(j, '!', ".");
      assert Replace(" ", '!', ".") == " " && Replace(" ", '?', ".") == " ";
      assert Replace(p + " " + j, '!', ".") == p1 + " " + j1;
      ReplaceConcat(p1 + " ", j1, '?', ".");
      ReplaceConcat(p1, " ", '?', ".");
      assert UnifySentenceDividers(Join(" ", parts)) == UnifySentenceDividers(p) + " " + UnifySentenceDividers(j);
      var u := UnifyParts(parts);
      assert u[0] == UnifySentenceDividers(p) && u[1..] == UnifyParts(parts[1..]);
    }
  }

  /** A part `normalize` leaves alone: clean, and without dividers or junk characters. */
  predicate SettledPart(p: string) {
    p != [] && NoSpace(p) && forall c :: c in p ==> c !in JunkChars && c != '!' && c != '?'
  }

  /** Settled parts joined by spaces hold no divider but '.' and no junk character. */
  lemma SettledJoinChars(parts: seq<string>)
    requires forall k :: 0 <= k < |parts| ==> SettledPart(parts[k])
    ensures forall c :: c in Join(" ", parts) ==> c !in JunkChars && c != '!' && c != '?'
  {
    JoinChars(" ", parts);
    forall c | c in Join(" ", parts) ensures c !in JunkChars && c != '!' && c != '?' {
      if c != ' ' {
        var k :| 0 <= k < |parts| && c in parts[k];
        assert SettledPart(parts[k]);
      }
    }
  }

  /** Text that `normalize_whitespace` leaves alone and with no '!', '?' or junk is left alone by `normalize`. */
  lemma NormalizeFixedPoint(x: string)
    requires NormalizeWhitespace(x) == x
    requires forall c :: c in x ==> c !in JunkChars && c != '!' && c != '?'
    ensures Normalize(x) == x
  {
    ReplaceAbsent(x, '!', ".");
    ReplaceAbsent(x, '?', ".");
    WithoutAbsent(x, JunkChars);
  }

  /** Settled parts joined by single spaces are a fixed point of `normalize`. */
  lemma NormalizeOfSettledJoin(parts: seq<string>)
    requires forall k :: 0 <= k < |parts| ==> SettledPart(parts[k])
    ensures Normalize(Join(" ", parts)) == Join(" ", parts)
  {
    assert CleanParts(parts);
    NormalizeWhitespaceOfJoin(parts);
    SettledJoinChars(parts);
    NormalizeFixedPoint(Join(" ", parts));
  }

  /** Unifying a clean, junk-free part gives a settled part. */
  lemma UnifySettles(p: string)
    requires p != [] && NoSpace(p) && forall c :: c in p ==> c !in JunkChars
    ensures SettledPart(UnifySentenceDividers(p))
  {
    var u := UnifySentenceDividers(p);
    forall c | c in u ensures !IsSpace(c) && c !in JunkChars && c != '!' && c != '?' {
      var i :| 0 <= i < |u| && u[i] == c;
      assert p[i] in p;
    }
  }

  /** The parts `normalize_whitespace` joins are free of junk when its input is. */
  lemma CompactPartsJunkFree(text: string)
    requires forall c :: c in text ==> c !in JunkChars
    ensures var clean := CompactParts(Split(WhitespaceToSpaces(text), " "));
      forall k, c :: 0 <= k < |clean| && c in clean[k] ==> c !in JunkChars
  {
    var clean := CompactParts(Split(WhitespaceToSpaces(text), " "));
    NormalizeWhitespaceChars(text);
    JoinContainsParts(" ", clean);
    assert Join(" ", clean) == NormalizeWhitespace(text);
  }

  /**
   * When the parts `normalize_whitespace` joins are clean and junk-free, `normalize`
   * joins settled parts.
   */
  lemma NormalizeOfCleanParts(text: string, clean: seq<string>)
    requires clean == CompactParts(Split(WhitespaceToSpaces(text), " "))
    requires CleanParts(clean)
    requires forall k, c :: 0 <= k < |clean| && c in clean[k] ==> c !in JunkChars
    ensures forall k :: 0 <= k < |UnifyParts(clean)| ==> SettledPart(UnifyParts(clean)[k])
    ensures Normalize(text) == Join(" ", UnifyParts(clean))
  {
    var parts := UnifyParts(clean);
    forall k | 0 <= k < |parts| ensures SettledPart(parts[k]) {
      UnifySettles(clean[k]);
    }
    UnifyJoin(clean);
    SettledJoinChars(parts);
    WithoutAbsent(Join(" ", parts), JunkChars);
  }

  /**
   * `normalize` is idempotent on text with plain whitespace and no junk
   * characters (see NormalizeNotIdempotent for why the second condition is needed).
   */
  lemma NormalizeIdempotent(text: string)
    requires PlainWhitespace(text)
    requires forall c :: c in text ==> c !in JunkChars
    ensures Normalize(Normalize(text)) == Normalize(text)
  {
    var clean := CompactParts(Split(WhitespaceToSpaces(text), " "));
    NormalizedParts(text);
    CompactPartsJunkFree(text);
    NormalizeOfCleanParts(text, clean);
    NormalizeOfSettledJoin(UnifyParts(clean));
  }

  /** When `normalize_whitespace` gives `y` and `y` has no '!' or '?', `normalize` only deletes junk from `y`. */
  lemma NormalizeAfterSpacing(x: string, y: string)
    requires NormalizeWhitespace(x) == y
    requires '!' !in y && '?' !in y
    ensures Normalize(x) == Without(y, JunkChars)
  {
    ReplaceAbsent(y, '!', ".");
    ReplaceAbsent(y, '?', ".");
  }

  lemma CommaExampleSpacing()
    ensures NormalizeWhitespace("a , b") == "a , b"
  {
    var parts := ["a", ",", "b"];
    assert NoSpace("a") && NoSpace(",") && NoSpace("b");
    assert Join(" ", parts[2..]) == "b";
    assert Join(" ", parts[1..]) == ", b";
    assert Join(" ", parts) == "a , b";
    NormalizeWhitespaceOfJoin(parts);
  }

  lemma CommaExampleJunk()
    ensures Without("a , b", JunkChars) == "a  b"
  {
    assert Without("b", JunkChars) == "b";
    assert Without(" b", JunkChars) == " b";
    assert Without(", b", JunkChars) == " b";
    assert Without(" , b", JunkChars) == "  b";
  }

  /** The worked example: "a , b" normalises to "a  b", with two spaces. */
  lemma NormalizeCommaExample()
    ensures Normalize("a , b") == "a  b"
  {
    CommaExampleSpacing();
    CommaExampleJunk();
    assert '!' !in "a , b" && '?' !in "a , b";
    NormalizeAfterSpacing("a , b", "a , b");
  }

  lemma DoubleSpaceReplace()
    ensures WhitespaceToSpaces("a  b") == "a  b"
  {
    var s := "a  b";
    assert Replace(s, '\n', " ") == s;
    assert Replace(s, '\r', "") == s;
    assert Replace(s, '\t', " ") == s;
  }

  lemma DoubleSpaceSplit()
    ensures Split("a  b", " ") == ["a", "", "b"]
  {
    var s := "a  b";
    assert s == "a" + [' '] + " b";
    SplitAfterPiece("a", ' ', " b");
    assert " b" == "" + [' '] + "b";
    SplitAfterPiece("", ' ', "b");
    ContainsChar("b", ' ');
    SplitAbsent("b", " ");
  }

  lemma DoubleSpaceCompact()
    ensures CompactParts(["a", "", "b"]) == ["a", "b"]
  {
    StripNoSpace("a");
    StripNoSpace("b");
    assert ["a", "", "b"][1..] == ["", "b"];
    assert ["", "b"][1..] == ["b"];
    assert CompactParts(["b"]) == ["b"];
    assert CompactParts(["", "b"]) == ["b"];
  }

  /** Proof helper: `normalize_whitespace` unfolded through given intermediate results. */
  lemma NormalizeWhitespaceVia(x: string, pieces: seq<string>, parts: seq<string>)
    requires Split(WhitespaceToSpaces(x), " ") == pieces
    requires CompactParts(pieces) == parts
    ensures NormalizeWhitespace(x) == Join(" ", parts)
  {
  }

  lemma DoubleSpaceSpacing()
    ensures NormalizeWhitespace("a  b") == "a b"
  {
    DoubleSpaceReplace();
    DoubleSpaceSplit();
    DoubleSpaceCompact();
    NormalizeWhitespaceVia("a  b", ["a", "", "b"], ["a", "b"]);
    JoinPair(" ", "a", "b");
  }

  lemma DoubleSpaceJunk()
    ensures Without("a b", JunkChars) == "a b"
  {
    WithoutAbsent("a b", JunkChars);
  }

  /** A second pass collapses the double space: "a  b" normalises to "a b". */
  lemma NormalizeDoubleSpaceExample()
    ensures Normalize("a  b") == "a b"
  {
    DoubleSpaceSpacing();
    NormalizeAfterSpacing("a  b", "a b");
    DoubleSpaceJunk();
  }

  /** Deleting a junk character can leave two spaces in a row, which a second pass collapses. */
  lemma NormalizeNotIdempotent()
    ensures Normalize(Normalize("a , b")) != Normalize("a , b")
  {
    NormalizeCommaExample();
    NormalizeDoubleSpaceExample();
  }

  // ---------------------------------------------------------------------
  // Sentences

  /** `split_sentences(text)`: the whitespace-normalised text cut at ". ", every piece stripped, trailing dots dropped from the last. */
  function SplitSentences(text: string): (r: seq<string>)
    ensures |r| >= 1
  {
    var pieces := Split(NormalizeWhitespace(text), ". ");
    var stripped := seq(|pieces|, k requires 0 <= k < |pieces| => Strip(pieces[k]));
    stripped[..|stripped| - 1] + [RStripChar(stripped[|stripped| - 1], '.')]
  }

  /** Sentence `k` is piece `k` of the split, stripped, and the last one also loses its trailing dots. */
  lemma SplitSentencesAt(text: string, k: nat)
    requires k < |SplitSentences(text)|
    ensures var pieces := Split(NormalizeWhitespace(text), ". ");
      && |SplitSentences(text)| == |pieces|
      && SplitSentences(text)[k] == if k == |pieces| - 1 then RStripChar(Strip(pieces[k]), '.') else Strip(pieces[k])
  {
  }

  /** No sentence contains ". ". */
  lemma SplitSentencesFree(text: string)
    ensures forall k :: 0 <= k < |SplitSentences(text)| ==> !Contains(SplitSentences(text)[k], ". ")
  {
    var w := NormalizeWhitespace(text);
    var pieces := Split(w, ". ");
    SplitPiecesFree(w, ". ");
    forall k | 0 <= k < |SplitSentences(text)| ensures !Contains(SplitSentences(text)[k], ". ") {
      SplitSentencesAt(text, k);
      SentenceFree(pieces[k], k == |pieces| - 1);
    }
  }

  /** All sentences but the last have no whitespace at either end. */
  lemma SplitSentencesTrimmed(text: string)
    ensures var r := SplitSentences(text);
      forall k :: 0 <= k < |r| - 1 && r[k] != [] ==> !IsSpace(r[k][0]) && !IsSpace(r[k][|r[k]| - 1])
  {
    var r := SplitSentences(text);
    var pieces := Split(NormalizeWhitespace(text), ". ");
    forall k | 0 <= k < |r| - 1 && r[k] != []
      ensures !IsSpace(r[k][0]) && !IsSpace(r[k][|r[k]| - 1])
    {
      SplitSentencesAt(text, k);
      StripEnds(pieces[k]);
    }
  }

  /**
   * The shape of the sentences: no sentence contains ". ", all but the last
   * have no whitespace at either end, and the last does not end in '.'.
   */
  lemma SplitSentencesShape(text: string)
    ensures var r := SplitSentences(text);
      && (forall k :: 0 <= k < |r| ==> !Contains(r[k], ". "))
      && (forall k :: 0 <= k < |r| - 1 && r[k] != [] ==> !IsSpace(r[k][0]) && !IsSpace(r[k][|r[k]| - 1]))
      && (r[|r| - 1] != [] ==> r[|r| - 1][|r[|r| - 1]| - 1] != '.')
  {
    SplitSentencesFree(text);
    SplitSentencesTrimmed(text);
    SplitSentencesAt(text, |SplitSentences(text)| - 1);
  }

  /** A stripped piece free of ". ", with trailing dots dropped or not, is still free of it. */
  lemma SentenceFree(p: string, last: bool)
    requires !Contains(p, ". ")
    ensures !Contains(if last then RStripChar(Strip(p), '.') else Strip(p), ". ")
  {
    StripIsSlice(p);
    var i, j :| 0 <= i <= j <= |p| && Strip(p) == p[i..j];
    var t := Strip(p);
    if Contains(t, ". ") {
      ContainsSlice(p, i, j, ". ");
    }
    if last {
      var u := RStripChar(t, '.');
      if Contains(u, ". ") {
        assert u == t[0..|u|];
        ContainsSlice(t, 0, |u|, ". ");
      }
    }
  }

  /** Text whose normalised form has no ". " is one sentence. */
  lemma SplitSentencesSingle(text: string)
    requires !Contains(NormalizeWhitespace(text), ". ")
    ensures SplitSentences(text) == [RStripChar(Strip(NormalizeWhitespace(text)), '.')]
  {
    SplitAbsent(NormalizeWhitespace(text), ". ");
  }

  /** Every character of a sentence is a character of the text or a space. */
  lemma SplitSentencesChars(text: string)
    ensures forall k, c :: 0 <= k < |SplitSentences(text)| && c in SplitSentences(text)[k] ==> c in text || c == ' '
  {
    var w := NormalizeWhitespace(text);
    var pieces := Split(w, ". ");
    var r := SplitSentences(text);
    NormalizeWhitespaceChars(text);
    SplitChars(w, ". ");
    forall k, c | 0 <= k < |r| && c in r[k] ensures c in text || c == ' ' {
      var t := Strip(pieces[k]);
      StripChars(pieces[k]);
      if k == |r| - 1 {
        var u := RStripChar(t, '.');
        var i :| 0 <= i < |u| && u[i] == c;
        assert t[i] == c;
      }
      assert c in t;
      assert c in pieces[k];
      assert c in w;
    }
  }

  /** `normalize_and_split_sentences(text)`. */
  function NormalizeAndSplitSentences(text: string): (r: seq<string>)
    ensures |r| >= 1
  {
    SplitSentences(Normalize(text))
  }

  /** No sentence holds '!', '?', a junk character, LF, CR or tab. */
  lemma NormalizeAndSplitSentencesChars(text: string)
    ensures forall k :: 0 <= k < |NormalizeAndSplitSentences(text)| ==> Avoids(NormalizeAndSplitSentences(text)[k], NormalizedAway)
  {
    var x := Normalize(text);
    NormalizeChars(text);
    SpaceStays();
    SentencesAvoid(x, NormalizedAway);
    assert NormalizeAndSplitSentences(text) == SplitSentences(x);
  }

  /** Characters absent from a text, other than the space, are absent from its sentences. */
  lemma SentencesAvoid(x: string, bad: set<char>)
    requires ' ' !in bad
    requires Avoids(x, bad)
    ensures forall k :: 0 <= k < |SplitSentences(x)| ==> Avoids(SplitSentences(x)[k], bad)
  {
    SplitSentencesChars(x);
  }

  // ---------------------------------------------------------------------
  // Words of a sentence

  /** `[Word(part) for part in parts]`: the first empty part raises IndexError. */
  function WordsOf(parts: seq<string>): Result<seq<Word>> {
    if parts == [] then Ok([])
    else
      var init := WordsOf(parts[..|parts| - 1]);
      var w := NewWord(parts[|parts| - 1]);
      if init.Err? then init
      else if w.Err? then Err(w.error)
      else Ok(init.value + [w.value])
  }

  /** The words are made exactly when no part is empty, one word per part in order. */
  lemma {:induction false} WordsOfOk(parts: seq<string>)
    ensures WordsOf(parts).Ok? <==> forall k :: 0 <= k < |parts| ==> parts[k] != []
    ensures WordsOf(parts).Err? ==> WordsOf(parts).error == IndexError
    ensures WordsOf(parts).Ok? ==>
      && |WordsOf(parts).value| == |parts|
      && (forall k :: 0 <= k < |parts| ==> WordsOf(parts).value[k] == NewWord(parts[k]).value)
  {
    if parts != [] {
      var init := parts[..|parts| - 1];
      WordsOfOk(init);
      assert forall k :: 0 <= k < |init| ==> init[k] == parts[k];
    }
  }

  /** `split_sentence(text)`: one word per space-separated part. */
  method SplitSentence(text: string) returns (r: Result<seq<Word>>)
    ensures r == WordsOf(Split(text, " "))
  {
    var parts := Split(text, " ");
    var words: seq<Word> := [];
    var i := 0;
    while i < |parts|
      invariant 0 <= i <= |parts|
      invariant WordsOf(parts[..i]) == Ok(words)
    {
      WordsOfStep(parts, i);
      var w := NewWord(parts[i]);
      if w.Err? {
        WordsOfPrefixErr(parts, i + 1);
        return Err(w.error);
      }
      words := words + [w.value];
      i := i + 1;
    }
    assert parts[..i] == parts;
    r := Ok(words);
  }

  /** The words of the first `i + 1` parts: those of the first `i`, then part `i`'s. */
  lemma WordsOfStep(parts: seq<string>, i: nat)
    requires i < |parts|
    ensures WordsOf(parts[..i]).Ok? && NewWord(parts[i]).Ok? ==>
      WordsOf(parts[..i + 1]) == Ok(WordsOf(parts[..i]).value + [NewWord(parts[i]).value])
    ensures WordsOf(parts[..i]).Ok? && NewWord(parts[i]).Err? ==> WordsOf(parts[..i + 1]) == Err(NewWord(parts[i]).error)
  {
    var pre := parts[..i + 1];
    assert pre[..i] == parts[..i] && pre[i] == parts[i];
  }

  /** Once a prefix fails, the whole list fails with the same error. */
  lemma {:induction false} WordsOfPrefixErr(parts: seq<string>, i: nat)
    requires i <= |parts| && WordsOf(parts[..i]).Err?
    ensures WordsOf(parts) == WordsOf(parts[..i])
    decreases |parts| - i
  {
    if i < |parts| {
      assert parts[..i + 1][..i] == parts[..i];
      WordsOfPrefixErr(parts, i + 1);
    } else {
      assert parts[..i] == parts;
    }
  }

  /** An empty sentence has one empty part, so `split_sentence("")` raises IndexError. */
  lemma SplitSentenceEmpty()
    ensures WordsOf(Split("", " ")) == Err(IndexError)
  {
    assert Split("", " ") == [""];
    assert [""][..0] == [];
  }

  /** A non-empty normalised text with plain whitespace always splits into words, one per part. */
  lemma SplitNormalizedSentence(text: string)
    requires PlainWhitespace(text) && NormalizeWhitespace(text) != []
    ensures var parts := CompactParts(Split(WhitespaceToSpaces(text), " "));
      && Split(NormalizeWhitespace(text), " ") == parts
      && WordsOf(Split(NormalizeWhitespace(text), " ")).Ok?
  {
    var parts := CompactParts(Split(WhitespaceToSpaces(text), " "));
    NormalizedParts(text);
    assert parts != [];
    forall k | 0 <= k < |parts| ensures ' ' !in parts[k] {
      assert NoSpace(parts[k]);
    }
    SplitJoin(parts, ' ');
    WordsOfOk(parts);
  }

  // ---------------------------------------------------------------------
  // N-grams

  /** `NGram(words)`; `make_ngrams` only builds n-grams of at least one word. */
  datatype NGram = NGram(words: seq<Word>)

  /** `str(word)` for each word. */
  function Texts(words: seq<Word>): (r: seq<string>)
    ensures |r| == |words|
    ensures forall k :: 0 <= k < |words| ==> r[k] == words[k].wordText
  {
    seq(|words|, k requires 0 <= k < |words| => words[k].wordText)
  }

  /** `len(ngram)`. */
  function Len(g: NGram): (n: nat)
    requires g.words != []
    ensures 1 <= n && n == |g.words|
  {
    |g.words|
  }

  /** The value of `str(ngram)`: the word texts joined by single spaces, outer whitespace stripped. */
  function Key(g: NGram): string {
    Strip(Join(" ", Texts(g.words)))
  }

  /** `str(ngram)`: each word's text followed by a space, then the whole stripped. */
  method ToString(g: NGram) returns (r: string)
    requires g.words != []
    ensures r == Key(g)
  {
    var texts := Texts(g.words);
    var output := "";
    var i := 0;
    while i < |g.words|
      invariant 0 <= i <= |g.words|
      invariant output == Terminated(texts[..i])
    {
      assert texts[..i + 1][..i] == texts[..i];
      output := output + g.words[i].wordText + " ";
      i := i + 1;
    }
    assert texts[..i] == texts;
    StripTerminated(texts);
    r := Strip(output);
  }

  /** `ngram == other`: same length and equal words, position by position. */
  predicate SameWords(g: NGram, h: NGram) {
    Texts(g.words) == Texts(h.words)
  }

  /** `ngram.__eq__(other)`: false on different lengths, else compares the words in turn. */
  method Equals(g: NGram, h: NGram) returns (r: bool)
    requires g.words != [] && h.words != []
    ensures r <==> SameWords(g, h)
    ensures r <==> |g.words| == |h.words| && forall k :: 0 <= k < |g.words| ==> g.words[k].Equals(h.words[k])
  {
    if |g.words| != |h.words| {
      return false;
    }
    var i := 0;
    while i < |g.words|
      invariant 0 <= i <= |g.words|
      invariant forall k :: 0 <= k < i ==> g.words[k].Equals(h.words[k])
    {
      if !g.words[i].Equals(h.words[i]) {
        assert Texts(g.words)[i] != Texts(h.words)[i];
        return false;
      }
      i := i + 1;
    }
    assert Texts(g.words) == Texts(h.words);
    return true;
  }

  /** Equal n-grams have equal strings, so they share a matrix key. */
  lemma SameWordsSameKey(g: NGram, h: NGram)
    requires SameWords(g, h)
    ensures Key(g) == Key(h)
  {
  }

  /** Clean texts can be read back from their stripped, space-joined form. */
  lemma SplitKey(ts: seq<string>)
    requires ts != [] && CleanParts(ts)
    ensures Split(Strip(Join(" ", ts)), " ") == ts
  {
    JoinWellSpaced(ts);
    StripNoSpaceEnds(Join(" ", ts));
    forall k | 0 <= k < |ts| ensures ' ' !in ts[k] { assert NoSpace(ts[k]); }
    SplitJoin(ts, ' ');
  }

  /** When no word text is empty or holds whitespace, the key determines the words' texts. */
  lemma KeyDeterminesWords(g: NGram, h: NGram)
    requires g.words != [] && h.words != []
    requires CleanParts(Texts(g.words)) && CleanParts(Texts(h.words))
    requires Key(g) == Key(h)
    ensures SameWords(g, h)
  {
    SplitKey(Texts(g.words));
    SplitKey(Texts(h.words));
  }

  /** Word texts that contain a space can give different n-grams the same key. */
  lemma KeyCollision()
    ensures var g := NGram([Word("a b", TypeWord), Word("c", TypeWord)]);
      var h := NGram([Word("a", TypeWord), Word("b c", TypeWord)]);
      Key(g) == Key(h) && !SameWords(g, h)
  {
    var g := NGram([Word("a b", TypeWord), Word("c", TypeWord)]);
    var h := NGram([Word("a", TypeWord), Word("b c", TypeWord)]);
    assert Texts(g.words) == ["a b", "c"];
    assert Texts(h.words) == ["a", "b c"];
    JoinPair(" ", "a b", "c");
    JoinPair(" ", "a", "b c");
  }

  /** The number of windows of `n` consecutive words. */
  function WindowCount(words: seq<Word>, n: nat): nat {
    if |words| >= n then |words| - n + 1 else 0
  }

  /** The sliding windows of `n` consecutive words, left to right. */
  function Windows(words: seq<Word>, n: nat): (r: seq<NGram>)
    requires n >= 1
    ensures |r| == WindowCount(words, n)
  {
    seq(WindowCount(words, n), i requires 0 <= i < WindowCount(words, n) => NGram(Window(words, i, n)))
  }

  /** The `n` words starting at position `i`. */
  function Window(words: seq<Word>, i: nat, n: nat): (r: seq<Word>)
    requires i + n <= |words|
    ensures |r| == n
  {
    seq(n, j requires 0 <= j < n => words[i + j])
  }

  /** `make_ngrams(words, n)` for `n >= 1`. */
  method MakeNGrams(words: seq<Word>, n: nat) returns (r: seq<NGram>)
    requires n >= 1
    ensures r == Windows(words, n)
    ensures forall i :: 0 <= i < |r| ==> |r[i].words| == n
  {
    var index := 0;
    r := [];
    while index + n <= |words|
      invariant 0 <= index <= if |words| >= n then |words| - n + 1 else 0
      invariant |r| == index
      invariant forall i :: 0 <= i < index ==> r[i] == NGram(Window(words, i, n))
    {
      assert words[index..index + n] == Window(words, index, n);
      r := r + [NGram(words[index..index + n])];
      index := index + 1;
    }
  }

  /** The `i`-th n-gram of `make_ngrams(words, n)` is the slice `words[i:i + n]`. */
  lemma WindowsAt(words: seq<Word>, n: nat, i: nat)
    requires n >= 1 && i < WindowCount(words, n)
    ensures i + n <= |words|
    ensures Windows(words, n)[i].words == words[i..i + n]
  {
    assert Window(words, i, n) == words[i..i + n];
  }
}
