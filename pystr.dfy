/**
 * The Python string and list primitives the modelled code relies on:
 * `str.isspace`, `str.lower` (ASCII letters only), `str.strip`,
 * `str.rstrip(ch)`, `str.replace` of one character, `str.split(sep)`,
 * `sep.join(parts)`, the substring test `sub in s` and `list.count`.
 */
module PyStr {

  // ---------------------------------------------------------------------
  // Characters

  /** Python's `str.isspace()` on one character (the exact code points). */
  predicate IsSpace(c: char) {
    var k := c as int;
    (9 <= k <= 13) || (28 <= k <= 32) || k == 0x85 || k == 0xA0 || k == 0x1680
    || (0x2000 <= k <= 0x200A) || k == 0x2028 || k == 0x2029 || k == 0x202F
    || k == 0x205F || k == 0x3000
  }

  predicate IsUpper(c: char) { 'A' <= c <= 'Z' }

  /** `ch.lower()` restricted to the ASCII letters. */
  function LowerChar(c: char): (r: char)
    ensures !IsUpper(r)
    ensures IsSpace(r) <==> IsSpace(c)
    ensures !IsUpper(c) ==> r == c
  {
    if IsUpper(c) then (c as int + 32) as char else c
  }

  /** `s.lower()` restricted to the ASCII letters. */
  function Lower(s: string): (r: string)
    ensures |r| == |s|
    ensures forall i :: 0 <= i < |s| ==> r[i] == LowerChar(s[i])
  {
    seq(|s|, i requires 0 <= i < |s| => LowerChar(s[i]))
  }

  predicate IsLower(s: string) {
    forall i :: 0 <= i < |s| ==> !IsUpper(s[i])
  }

  lemma LowerIsLower(s: string)
    ensures IsLower(Lower(s))
    ensures Lower(Lower(s)) == Lower(s)
  {
  }

  lemma LowerOfLower(s: string)
    requires IsLower(s)
    ensures Lower(s) == s
  {
  }

  // ---------------------------------------------------------------------
  // Substrings

  /** `sub` occurs in `s` starting at index `i`. */
  predicate OccursAt(s: string, sub: string, i: int) {
    0 <= i && i + |sub| <= |s| && s[i..i + |sub|] == sub
  }

  /** `sub in s` for strings. */
  predicate Contains(s: string, sub: string) {
    exists i | 0 <= i <= |s| - |sub| :: OccursAt(s, sub, i)
  }

  lemma ContainsChar(s: string, c: char)
    ensures Contains(s, [c]) <==> c in s
  {
    if c in s {
      var i :| 0 <= i < |s| && s[i] == c;
      assert 0 <= i <= |s| - |[c]| && OccursAt(s, [c], i);
    }
    if Contains(s, [c]) {
      var i :| 0 <= i <= |s| - 1 && OccursAt(s, [c], i);
      assert s[i] == s[i..i + 1][0];
    }
  }

  /** A substring found in a slice is found in the whole string. */
  lemma ContainsSlice(s: string, i: int, j: int, sub: string)
    requires 0 <= i <= j <= |s| && Contains(s[i..j], sub)
    ensures Contains(s, sub)
  {
    var k :| 0 <= k <= |s[i..j]| - |sub| && OccursAt(s[i..j], sub, k);
    assert i + k + |sub| <= j;
    var a, b := s[i + k..i + k + |sub|], s[i..j][k..k + |sub|];
    assert forall m :: 0 <= m < |sub| ==> a[m] == b[m];
    assert a == b;
    assert OccursAt(s, sub, i + k);
  }

  /** A string lacking some character of `sub` does not contain `sub`. */
  lemma NotContainsMissingChar(s: string, sub: string, k: nat)
    requires k < |sub| && sub[k] !in s
    ensures !Contains(s, sub)
  {
  }

  // ---------------------------------------------------------------------
  // Stripping

  /** `s.strip()`: drop whitespace at both ends. */
  function Strip(s: string): string
    decreases |s|
  {
    if s != [] && IsSpace(s[0]) then Strip(s[1..])
    else if s != [] && IsSpace(s[|s| - 1]) then Strip(s[..|s| - 1])
    else s
  }

  /** The stripped string is no longer than `s` and has no whitespace at either end. */
  lemma {:induction false} StripEnds(s: string)
    ensures |Strip(s)| <= |s|
    ensures Strip(s) != [] ==> !IsSpace(Strip(s)[0]) && !IsSpace(Strip(s)[|Strip(s)| - 1])
    decreases |s|
  {
    if s != [] && IsSpace(s[0]) {
      StripEnds(s[1..]);
    } else if s != [] && IsSpace(s[|s| - 1]) {
      StripEnds(s[..|s| - 1]);
    }
  }

  /** `s.rstrip(ch)`: drop trailing copies of `ch`. */
  function RStripChar(s: string, ch: char): (r: string)
    ensures |r| <= |s| && r == s[..|r|]
    ensures r != [] ==> r[|r| - 1] != ch
  {
    if s != [] && s[|s| - 1] == ch then RStripChar(s[..|s| - 1], ch) else s
  }

  /** No character of `s` is in `bad`. */
  predicate Avoids(s: string, bad: set<char>) {
    forall c :: c in s ==> c !in bad
  }

  /** The string holds no whitespace at all. */
  predicate NoSpace(s: string) {
    forall c :: c in s ==> !IsSpace(c)
  }

  lemma {:induction false} StripNoSpace(s: string)
    requires NoSpace(s)
    ensures Strip(s) == s
  {
    if s != [] {
      assert s[0] in s && s[|s| - 1] in s;
    }
  }

  /** A string with no whitespace at either end is its own strip. */
  lemma StripNoSpaceEnds(s: string)
    requires s != [] ==> !IsSpace(s[0]) && !IsSpace(s[|s| - 1])
    ensures Strip(s) == s
  {
  }

  /** A trailing space does not change the stripped string. */
  lemma {:induction false} StripTrailingSpace(s: string)
    ensures Strip(s + " ") == Strip(s)
    decreases |s|
  {
    var t := s + " ";
    if s != [] && IsSpace(s[0]) {
      assert t[1..] == s[1..] + " ";
      StripTrailingSpace(s[1..]);
    } else {
      assert t[..|t| - 1] == s;
    }
  }

  /** `Strip(s)` is a slice of `s`. */
  lemma {:induction false} StripIsSlice(s: string)
    ensures exists i, j :: 0 <= i <= j <= |s| && Strip(s) == s[i..j]
    decreases |s|
  {
    if s != [] && IsSpace(s[0]) {
      StripIsSlice(s[1..]);
      var i, j :| 0 <= i <= j <= |s| - 1 && Strip(s[1..]) == s[1..][i..j];
      assert s[1..][i..j] == s[i + 1..j + 1];
    } else if s != [] && IsSpace(s[|s| - 1]) {
      StripIsSlice(s[..|s| - 1]);
      var i, j :| 0 <= i <= j <= |s| - 1 && Strip(s[..|s| - 1]) == s[..|s| - 1][i..j];
      assert s[..|s| - 1][i..j] == s[i..j];
    } else {
      assert Strip(s) == s[0..|s|];
    }
  }

  /** Every character of `Strip(s)` is a character of `s`. */
  lemma StripChars(s: string)
    ensures forall c :: c in Strip(s) ==> c in s
  {
    StripIsSlice(s);
    var i, j :| 0 <= i <= j <= |s| && Strip(s) == s[i..j];
    forall c | c in s[i..j] ensures c in s {
      var k :| 0 <= k < j - i && s[i..j][k] == c;
      assert s[i + k] == c;
    }
  }

  lemma {:induction false} RStripCharAbsent(s: string, ch: char)
    requires ch !in s
    ensures RStripChar(s, ch) == s
  {
  }

  // ---------------------------------------------------------------------
  // Replacing one character

  /** `s.replace(ch, repl)` where `ch` is a single character. */
  function Replace(s: string, ch: char, repl: string): string {
    if s == [] then [] else (if s[0] == ch then repl else [s[0]]) + Replace(s[1..], ch, repl)
  }

  /** Every character of the result is a kept character of `s` or a character of `repl`. */
  lemma {:induction false} ReplaceChars(s: string, ch: char, repl: string)
    ensures forall c :: c in Replace(s, ch, repl) ==> (c in s && c != ch) || c in repl
  {
    if s != [] {
      ReplaceChars(s[1..], ch, repl);
      assert forall c :: c in s[1..] ==> c in s;
    }
  }

  /** Replacing by one character keeps the length and changes exactly the `ch` positions. */
  lemma {:induction false} ReplaceByChar(s: string, ch: char, repl: char)
    ensures |Replace(s, ch, [repl])| == |s|
    ensures forall i :: 0 <= i < |s| ==>
      Replace(s, ch, [repl])[i] == if s[i] == ch then repl else s[i]
  {
    if s != [] {
      ReplaceByChar(s[1..], ch, repl);
    }
  }

  /** `s` with every character of `cs` deleted: a reference definition repl filtering. */
  function Without(s: string, cs: set<char>): string {
    if s == [] then [] else (if s[0] in cs then [] else [s[0]]) + Without(s[1..], cs)
  }

  /** Filtering keeps exactly the characters of `s` outside `cs`. */
  lemma {:induction false} WithoutChars(s: string, cs: set<char>)
    ensures forall c :: c in Without(s, cs) <==> c in s && c !in cs
  {
    if s != [] {
      WithoutChars(s[1..], cs);
      assert forall c :: c in s <==> c == s[0] || c in s[1..];
    }
  }

  /** Replacing by the empty string deletes exactly the `ch` characters. */
  lemma {:induction false} ReplaceByEmpty(s: string, ch: char)
    ensures Replace(s, ch, "") == Without(s, {ch})
  {
    if s != [] {
      ReplaceByEmpty(s[1..], ch);
    }
  }

  lemma {:induction false} ReplaceAbsent(s: string, ch: char, repl: string)
    requires ch !in s
    ensures Replace(s, ch, repl) == s
  {
    if s != [] {
      ReplaceAbsent(s[1..], ch, repl);
    }
  }

  lemma {:induction false} ReplaceConcat(a: string, b: string, ch: char, repl: string)
    ensures Replace(a + b, ch, repl) == Replace(a, ch, repl) + Replace(b, ch, repl)
  {
    if a != [] {
      var head := if a[0] == ch then repl else [a[0]];
      assert (a + b)[0] == a[0] && (a + b)[1..] == a[1..] + b;
      assert Replace(a + b, ch, repl) == head + Replace(a[1..] + b, ch, repl);
      ReplaceConcat(a[1..], b, ch, repl);
      assert Replace(a, ch, repl) == head + Replace(a[1..], ch, repl);
    } else {
      assert a + b == b;
    }
  }

  lemma {:induction false} WithoutConcat(a: string, b: string, cs: set<char>)
    ensures Without(a + b, cs) == Without(a, cs) + Without(b, cs)
  {
    if a != [] {
      var head := if a[0] in cs then [] else [a[0]];
      assert (a + b)[0] == a[0] && (a + b)[1..] == a[1..] + b;
      assert Without(a + b, cs) == head + Without(a[1..] + b, cs);
      WithoutConcat(a[1..], b, cs);
      assert Without(a, cs) == head + Without(a[1..], cs);
    } else {
      assert a + b == b;
    }
  }

  /** Filtering by `cs` adds `cs` to the characters a string avoids. */
  lemma WithoutAvoids(s: string, cs: set<char>, bad: set<char>)
    requires Avoids(s, bad)
    ensures Avoids(Without(s, cs), bad + cs)
  {
    WithoutChars(s, cs);
  }

  lemma {:induction false} WithoutTwice(s: string, a: set<char>, b: set<char>)
    ensures Without(Without(s, a), b) == Without(s, a + b)
  {
    if s != [] {
      WithoutTwice(s[1..], a, b);
      var q := Without(s[1..], a);
      if s[0] !in a {
        assert Without(s, a) == [s[0]] + q;
        assert ([s[0]] + q)[1..] == q;
        assert Without([s[0]] + q, b) == (if s[0] in b then [] else [s[0]]) + Without(q, b);
      } else {
        assert Without(s, a) == [] + q == q;
      }
    }
  }

  lemma {:induction false} WithoutAbsent(s: string, cs: set<char>)
    requires forall c :: c in s ==> c !in cs
    ensures Without(s, cs) == s
  {
    if s != [] {
      WithoutAbsent(s[1..], cs);
    }
  }

  // ---------------------------------------------------------------------
  // Joining and splitting

  /** `sep.join(parts)`. */
  function Join(sep: string, parts: seq<string>): string {
    if parts == [] then ""
    else if |parts| == 1 then parts[0]
    else parts[0] + sep + Join(sep, parts[1..])
  }

  /** Two parts join to the first, the separator and the second. */
  lemma JoinPair(sep: string, x: string, y: string)
    ensures Join(sep, [x, y]) == x + sep + y
  {
    assert [x, y][1..] == [y];
  }

  /** Every character of the joined string comes from `sep` or from one of the parts. */
  lemma {:induction false} JoinChars(sep: string, parts: seq<string>)
    ensures forall c :: c in Join(sep, parts) ==> c in sep || exists k :: 0 <= k < |parts| && c in parts[k]
  {
    if |parts| > 1 {
      JoinChars(sep, parts[1..]);
      forall c | c in Join(sep, parts[1..]) && c !in sep
        ensures exists k :: 0 <= k < |parts| && c in parts[k]
      {
        var k :| 0 <= k < |parts[1..]| && c in parts[1..][k];
        assert parts[k + 1] == parts[1..][k];
      }
    }
  }

  /** Every character of every part occurs in the joined string. */
  lemma {:induction false} JoinContainsParts(sep: string, parts: seq<string>)
    ensures forall k, c :: 0 <= k < |parts| && c in parts[k] ==> c in Join(sep, parts)
  {
    if |parts| > 1 {
      JoinContainsParts(sep, parts[1..]);
      forall k, c | 1 <= k < |parts| && c in parts[k] ensures c in Join(sep, parts) {
        assert parts[1..][k - 1] == parts[k];
      }
    }
  }

  /** What `output = output + t + " "` accumulates over `ts`. */
  function Terminated(ts: seq<string>): string {
    if ts == [] then "" else Terminated(ts[..|ts| - 1]) + ts[|ts| - 1] + " "
  }

  /** The accumulated text is the space-joined text with one more space. */
  lemma {:induction false} TerminatedJoin(ts: seq<string>)
    requires ts != []
    ensures Terminated(ts) == Join(" ", ts) + " "
  {
    if |ts| > 1 {
      var init := ts[..|ts| - 1];
      TerminatedJoin(init);
      JoinAppend(" ", init, ts[|ts| - 1]);
      assert init + [ts[|ts| - 1]] == ts;
    }
  }

  /** `output.strip()` after the accumulation is the stripped space-joined text. */
  lemma StripTerminated(ts: seq<string>)
    ensures Strip(Terminated(ts)) == Strip(Join(" ", ts))
  {
    if ts != [] {
      TerminatedJoin(ts);
      StripTrailingSpace(Join(" ", ts));
    }
  }

  /** `s.split(sep)`: cut at every leftmost non-overlapping occurrence of `sep`. */
  function Split(s: string, sep: string): (r: seq<string>)
    requires sep != []
    ensures |r| >= 1
    decreases |s|
  {
    if |s| < |sep| then [s]
    else if s[..|sep|] == sep then [""] + Split(s[|sep|..], sep)
    else
      var rest := Split(s[1..], sep);
      [[s[0]] + rest[0]] + rest[1..]
  }

  lemma JoinPrepend(sep: string, c: char, x: string, tail: seq<string>)
    ensures Join(sep, [[c] + x] + tail) == [c] + Join(sep, [x] + tail)
  {
    if tail != [] {
      assert ([[c] + x] + tail)[1..] == tail;
      assert ([x] + tail)[1..] == tail;
    }
  }

  lemma JoinAppend(sep: string, parts: seq<string>, x: string)
    requires parts != []
    ensures Join(sep, parts + [x]) == Join(sep, parts) + sep + x
  {
    if |parts| == 1 {
      assert (parts + [x])[1..] == [x];
    } else {
      assert (parts + [x])[1..] == parts[1..] + [x];
      JoinAppend(sep, parts[1..], x);
    }
  }

  /** Splitting and joining with the same separator gives the text back. */
  lemma {:induction false} JoinSplit(s: string, sep: string)
    requires sep != []
    ensures Join(sep, Split(s, sep)) == s
    decreases |s|
  {
    if |s| < |sep| {
    } else if s[..|sep|] == sep {
      var t := s[|sep|..];
      var rest := Split(t, sep);
      JoinSplit(t, sep);
      var r := [""] + rest;
      assert Split(s, sep) == r;
      assert r[1..] == rest;
      assert Join(sep, r) == "" + sep + Join(sep, rest);
      assert s == sep + t;
    } else {
      var t := s[1..];
      var rest := Split(t, sep);
      JoinSplit(t, sep);
      JoinPrepend(sep, s[0], rest[0], rest[1..]);
      assert [rest[0]] + rest[1..] == rest;
      assert Split(s, sep) == [[s[0]] + rest[0]] + rest[1..];
      assert s == [s[0]] + t;
    }
  }

  /** The first piece of a split is a prefix of the text. */
  lemma {:induction false} SplitFirstIsPrefix(s: string, sep: string)
    requires sep != []
    ensures |Split(s, sep)[0]| <= |s| && s[..|Split(s, sep)[0]|] == Split(s, sep)[0]
    decreases |s|
  {
    var r := Split(s, sep);
    if |s| < |sep| {
      assert r[0] == s;
    } else if s[..|sep|] == sep {
      assert r[0] == "";
    } else {
      var t := s[1..];
      var rest := Split(t, sep);
      SplitFirstIsPrefix(t, sep);
      var p := rest[0];
      assert r[0] == [s[0]] + p;
      assert s[..1 + |p|] == [s[0]] + t[..|p|];
    }
  }

  /** No piece of a split contains the separator. */
  lemma {:induction false} SplitPiecesFree(s: string, sep: string)
    requires sep != []
    ensures forall k :: 0 <= k < |Split(s, sep)| ==> !Contains(Split(s, sep)[k], sep)
    decreases |s|
  {
    var r := Split(s, sep);
    if |s| < |sep| {
      assert r == [s];
    } else if s[..|sep|] == sep {
      SplitPiecesFree(s[|sep|..], sep);
      var rest := Split(s[|sep|..], sep);
      assert r == [""] + rest;
      forall k | 0 <= k < |r| ensures !Contains(r[k], sep) {
        if k > 0 { assert r[k] == rest[k - 1]; }
      }
    } else {
      var rest := Split(s[1..], sep);
      SplitPiecesFree(s[1..], sep);
      SplitFirstIsPrefix(s[1..], sep);
      var q := [s[0]] + rest[0];
      assert r == [q] + rest[1..];
      assert q == s[..|q|];
      if Contains(q, sep) {
        var i :| 0 <= i <= |q| - |sep| && OccursAt(q, sep, i);
        if i > 0 {
          assert rest[0][i - 1..i - 1 + |sep|] == q[i..i + |sep|];
          assert OccursAt(rest[0], sep, i - 1);
        }
      }
      forall k | 0 <= k < |r| ensures !Contains(r[k], sep) {
        if k > 0 { assert r[k] == rest[k]; }
      }
    }
  }

  /** A text without the separator splits into itself. */
  lemma {:induction false} SplitAbsent(s: string, sep: string)
    requires sep != [] && !Contains(s, sep)
    ensures Split(s, sep) == [s]
    decreases |s|
  {
    if |s| < |sep| {
    } else if s[..|sep|] == sep {
      assert OccursAt(s, sep, 0);
    } else {
      if Contains(s[1..], sep) {
        var i :| 0 <= i <= |s[1..]| - |sep| && OccursAt(s[1..], sep, i);
        assert s[i + 1..i + 1 + |sep|] == s[1..][i..i + |sep|];
        assert OccursAt(s, sep, i + 1);
      }
      SplitAbsent(s[1..], sep);
      assert [s[0]] + s[1..] == s;
    }
  }

  /** Every character of a piece occurs in the text. */
  lemma {:induction false} SplitChars(s: string, sep: string)
    requires sep != []
    ensures forall k, c :: 0 <= k < |Split(s, sep)| && c in Split(s, sep)[k] ==> c in s
    decreases |s|
  {
    if |s| < |sep| {
    } else if s[..|sep|] == sep {
      SplitChars(s[|sep|..], sep);
      var rest := Split(s[|sep|..], sep);
      forall k, c | 0 <= k < |Split(s, sep)| && c in Split(s, sep)[k] ensures c in s {
        assert k > 0 && Split(s, sep)[k] == rest[k - 1];
        assert c in s[|sep|..];
      }
    } else {
      SplitChars(s[1..], sep);
      var rest := Split(s[1..], sep);
      forall k, c | 0 <= k < |Split(s, sep)| && c in Split(s, sep)[k] ensures c in s {
        if k == 0 {
          assert c == s[0] || c in rest[0];
        } else {
          assert Split(s, sep)[k] == rest[k];
        }
        assert c in s[1..] ==> c in s;
      }
    }
  }

  /** Splitting on one character right after a piece free of it. */
  lemma {:induction false} SplitAfterPiece(a: string, c: char, b: string)
    requires c !in a
    ensures Split(a + [c] + b, [c]) == [a] + Split(b, [c])
    decreases |a|
  {
    var s := a + [c] + b;
    if a == [] {
      assert s[..1] == [c];
      assert s[1..] == b;
    } else {
      assert s[..1] != [c] by { assert s[0] == a[0]; }
      assert s[1..] == a[1..] + [c] + b;
      SplitAfterPiece(a[1..], c, b);
      assert [a[0]] + a[1..] == a;
    }
  }

  /** Joining pieces free of a one-character separator and splitting again gives the pieces. */
  lemma {:induction false} SplitJoin(parts: seq<string>, c: char)
    requires parts != []
    requires forall k :: 0 <= k < |parts| ==> c !in parts[k]
    ensures Split(Join([c], parts), [c]) == parts
  {
    if |parts| == 1 {
      ContainsChar(parts[0], c);
      SplitAbsent(parts[0], [c]);
    } else {
      SplitJoin(parts[1..], c);
      SplitAfterPiece(parts[0], c, Join([c], parts[1..]));
      assert [parts[0]] + parts[1..] == parts;
    }
  }

  // ---------------------------------------------------------------------
  // Lists

  /** `xs.count(x)`. */
  function Count<T(==)>(xs: seq<T>, x: T): (n: nat)
    ensures n <= |xs|
    ensures n == 0 <==> x !in xs
  {
    if xs == [] then 0 else (if xs[0] == x then 1 else 0) + Count(xs[1..], x)
  }

  lemma CountAppend<T>(xs: seq<T>, y: T, x: T)
    ensures Count(xs + [y], x) == Count(xs, x) + (if y == x then 1 else 0)
  {
    if xs != [] {
      assert (xs + [y])[1..] == xs[1..] + [y];
    }
  }

  /** No element appears twice. */
  predicate Distinct<T(==)>(xs: seq<T>) {
    forall i, j :: 0 <= i < j < |xs| ==> xs[i] != xs[j]
  }

  /** The elements of a list, as a set. */
  function Elements<T(==)>(xs: seq<T>): set<T> {
    set x | x in xs
  }

  /** A list without repetitions has as many elements as its set. */
  lemma {:induction false} DistinctCard<T>(xs: seq<T>)
    requires Distinct(xs)
    ensures |Elements(xs)| == |xs|
    decreases |xs|
  {
    if xs != [] {
      var init := xs[..|xs| - 1];
      var last := xs[|xs| - 1];
      assert Distinct(init);
      DistinctCard(init);
      assert xs == init + [last];
      assert last !in init;
      assert Elements(xs) == Elements(init) + {last};
    }
  }

  lemma ElementsFirst<T>(xs: seq<T>)
    requires xs != []
    ensures Elements(xs) == {xs[0]} + Elements(xs[1..])
  {
    assert xs == [xs[0]] + xs[1..];
  }
}
