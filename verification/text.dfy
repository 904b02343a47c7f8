/** String operations with the meaning of the JavaScript built-ins the
    application relies on: `String.prototype.trim`, `split` on a set of
    separator characters, `Array.prototype.join` and the decimal rendering of
    a non-negative integer inside a template literal. */
module Text {

  /** The code points `trim` strips: ECMAScript WhiteSpace (tab, vertical
      tab, form feed, space, no-break space, the byte-order mark and the
      Unicode space separators) and LineTerminator (LF, CR, U+2028, U+2029). */
  predicate IsWhitespace(c: char) {
    c == '\t' || c == '\n' || c == '\U{B}' || c == '\U{C}' || c == '\r' || c == ' '
    || c == '\U{A0}' || c == '\U{1680}' || ('\U{2000}' <= c <= '\U{200A}')
    || c == '\U{2028}' || c == '\U{2029}' || c == '\U{202F}' || c == '\U{205F}'
    || c == '\U{3000}' || c == '\U{FEFF}'
  }

  predicate AllWhitespace(s: string) {
    forall i :: 0 <= i < |s| ==> IsWhitespace(s[i])
  }

  /** A string that `trim` leaves as it is. */
  predicate IsTrimmed(t: string) {
    t == [] || (!IsWhitespace(t[0]) && !IsWhitespace(t[|t| - 1]))
  }

  /** No character of `t` is one of `seps`. */
  predicate Avoids(t: string, seps: set<char>) {
    forall i :: 0 <= i < |t| ==> t[i] !in seps
  }

  /** Drops the leading whitespace: the result is the longest suffix that
      does not start with whitespace, and everything dropped is whitespace. */
  function TrimStart(s: string): (r: string)
    ensures |r| <= |s| && r == s[|s| - |r|..]
    ensures r == [] || !IsWhitespace(r[0])
    ensures forall i :: 0 <= i < |s| - |r| ==> IsWhitespace(s[i])
  {
    if s != [] && IsWhitespace(s[0]) then TrimStart(s[1..]) else s
  }

  /** Drops the trailing whitespace: the result is the longest prefix that
      does not end with whitespace, and everything dropped is whitespace. */
  function TrimEnd(s: string): (r: string)
    ensures |r| <= |s| && r == s[..|r|]
    ensures r == [] || !IsWhitespace(r[|r| - 1])
    ensures forall i :: |r| <= i < |s| ==> IsWhitespace(s[i])
  {
    if s != [] && IsWhitespace(s[|s| - 1]) then TrimEnd(s[..|s| - 1]) else s
  }

  /** `r` occurs in `s` from position `d` on. */
  predicate InfixAt(r: string, s: string, d: int) {
    0 <= d <= |s| - |r| && r == s[d..d + |r|]
  }

  /** `r` is a contiguous piece of `s`. */
  predicate IsInfix(r: string, s: string) {
    exists d :: 0 <= d <= |s| && InfixAt(r, s, d)
  }

  /** `s.trim()`. */
  function Trim(s: string): (r: string)
    ensures IsTrimmed(r)
    ensures r == [] <==> AllWhitespace(s)
    ensures IsTrimmed(s) ==> r == s
    ensures IsInfix(r, s)
  {
    var t := TrimStart(s);
    TrimIsInfix(s, t, TrimEnd(t));
    TrimEmpty(s, t, TrimEnd(t));
    TrimFixes(s, t, TrimEnd(t));
    TrimEnd(t)
  }

  /** The trimmed text is a contiguous piece of the input with no whitespace
      at either end. */
  lemma TrimIsInfix(s: string, t: string, r: string)
    requires t == TrimStart(s) && r == TrimEnd(t)
    ensures IsTrimmed(r)
    ensures IsInfix(r, s)
  {
    var d := |s| - |t|;
    assert r == t[..|r|] && t == s[d..];
    assert InfixAt(r, s, d);
    if r != [] {
      assert r[0] == t[0];
    }
  }

  /** The trimmed text is empty exactly when the input is all whitespace. */
  lemma TrimEmpty(s: string, t: string, r: string)
    requires t == TrimStart(s) && r == TrimEnd(t)
    ensures r == [] <==> AllWhitespace(s)
  {
    if r != [] {
      assert r[0] == t[0] == s[|s| - |t|];
    }
  }

  /** Text that is already trimmed is left as it is. */
  lemma TrimFixes(s: string, t: string, r: string)
    requires t == TrimStart(s) && r == TrimEnd(t)
    ensures IsTrimmed(s) ==> r == s
  {
    if IsTrimmed(s) && s != [] {
      assert t == s;
    }
  }

  /** What the leading pass drops is whitespace. */
  lemma TrimStartDrops(s: string)
    ensures AllWhitespace(s[..|s| - |TrimStart(s)|])
  {
    var prefix := s[..|s| - |TrimStart(s)|];
    forall i | 0 <= i < |prefix| ensures IsWhitespace(prefix[i]) {
      assert prefix[i] == s[i];
    }
  }

  /** What the trailing pass drops is whitespace. */
  lemma TrimEndDrops(t: string)
    ensures AllWhitespace(t[|TrimEnd(t)|..])
  {
    var suffix := t[|TrimEnd(t)|..];
    forall i | 0 <= i < |suffix| ensures IsWhitespace(suffix[i]) {
      assert suffix[i] == t[|TrimEnd(t)| + i];
    }
  }

  /** A prefix of a suffix of `s`, cut out between two runs of whitespace,
      sits in `s` between an all-whitespace prefix and an all-whitespace
      suffix. */
  lemma InfixBetween(s: string, d: nat, t: string, r: string)
    requires d <= |s| && t == s[d..] && |r| <= |t| && r == t[..|r|]
    requires AllWhitespace(s[..d]) && AllWhitespace(t[|r|..])
    ensures exists e :: InfixAt(r, s, e) && AllWhitespace(s[..e]) && AllWhitespace(s[e + |r|..])
  {
    assert InfixAt(r, s, d);
    assert s[d + |r|..] == t[|r|..];
  }

  /** `trim` drops whitespace and nothing else, and only at the two ends:
      the result sits in the input between an all-whitespace prefix and an
      all-whitespace suffix. */
  lemma TrimDropsOnlyWhitespace(s: string)
    ensures exists d :: InfixAt(Trim(s), s, d) && AllWhitespace(s[..d]) && AllWhitespace(s[d + |Trim(s)|..])
  {
    var t := TrimStart(s);
    TrimStartDrops(s);
    TrimEndDrops(t);
    InfixBetween(s, |s| - |t|, t, TrimEnd(t));
  }

  /** Whatever `trim` returns avoids every separator its input avoided. */
  lemma TrimAvoids(s: string, seps: set<char>)
    requires Avoids(s, seps)
    ensures Avoids(Trim(s), seps)
  {
    var r := Trim(s);
    assert IsInfix(r, s);
    var d :| 0 <= d <= |s| && InfixAt(r, s, d);
    var piece := s[d..d + |r|];
    assert r == piece;
    forall i | 0 <= i < |piece| ensures piece[i] !in seps {
      assert piece[i] == s[d + i];
    }
  }

  /** `s.split(re)` where `re` matches exactly one character of `seps`: the
      pieces between consecutive separators, always at least one (`"".split`
      gives `[""]`). */
  function Split(s: string, seps: set<char>): (r: seq<string>)
    ensures |r| >= 1
    ensures forall i :: 0 <= i < |r| ==> Avoids(r[i], seps)
    ensures Avoids(s, seps) ==> r == [s]
  {
    if s == [] then [[]]
    else
      var rest := Split(s[1..], seps);
      if s[0] in seps then [[]] + rest
      else
        assert s == [s[0]] + s[1..];
        [[s[0]] + rest[0]] + rest[1..]
  }

  /** The total length of the pieces. */
  function Lengths(xs: seq<string>): nat
  {
    if xs == [] then 0 else |xs[0]| + Lengths(xs[1..])
  }

  /** `xs.join(sep)` for a one-character separator: the pieces, in order,
      with one separator between neighbours, so the text is as long as the
      pieces plus one separator fewer than there are pieces; no pieces give
      the empty string. */
  function Join(xs: seq<string>, sep: char): (r: string)
    ensures |xs| >= 1 ==> |r| == Lengths(xs) + |xs| - 1
    ensures |xs| == 0 ==> r == []
  {
    if |xs| == 0 then []
    else if |xs| == 1 then xs[0]
    else xs[0] + [sep] + Join(xs[1..], sep)
  }

  /** Splitting at a separator splits the two sides independently: pieces
      never straddle a separator and keep their order. */
  lemma {:induction false} SplitAt(a: string, c: char, b: string, seps: set<char>)
    requires c in seps
    ensures Split(a + [c] + b, seps) == Split(a, seps) + Split(b, seps)
  {
    if a == [] {
      assert a + [c] + b == [c] + b;
      assert ([c] + b)[1..] == b;
    } else {
      assert (a + [c] + b)[0] == a[0];
      assert (a + [c] + b)[1..] == a[1..] + [c] + b;
      SplitAt(a[1..], c, b, seps);
    }
  }

  /** Joining pieces that contain no separator and splitting again gives the
      pieces back. */
  lemma {:induction false} SplitJoin(xs: seq<string>, sep: char, seps: set<char>)
    requires sep in seps
    requires |xs| >= 1
    requires forall i :: 0 <= i < |xs| ==> Avoids(xs[i], seps)
    ensures Split(Join(xs, sep), seps) == xs
  {
    if |xs| > 1 {
      SplitJoin(xs[1..], sep, seps);
      SplitAt(xs[0], sep, Join(xs[1..], sep), seps);
      assert [xs[0]] + xs[1..] == xs;
    }
  }

  /** Splitting at one separator character and joining with it again gives
      the original text back. */
  lemma {:induction false} JoinSplit(s: string, sep: char)
    ensures Join(Split(s, {sep}), sep) == s
  {
    if s != [] {
      var rest := Split(s[1..], {sep});
      JoinSplit(s[1..], sep);
      if s[0] == sep {
        assert Split(s, {sep}) == [[]] + rest;
        assert ([[]] + rest)[1..] == rest;
      } else {
        var r := Split(s, {sep});
        assert r == [[s[0]] + rest[0]] + rest[1..];
        if |rest| == 1 {
          assert Join(rest, sep) == rest[0];
        } else {
          assert r[1..] == rest[1..];
          assert Join(rest, sep) == rest[0] + [sep] + Join(rest[1..], sep);
        }
        assert s == [s[0]] + s[1..];
      }
    }
  }

  /** A join of separator-free pieces with a character outside `seps` avoids
      `seps`. */
  lemma {:induction false} JoinAvoids(xs: seq<string>, sep: char, seps: set<char>)
    requires sep !in seps
    requires forall i :: 0 <= i < |xs| ==> Avoids(xs[i], seps)
    ensures Avoids(Join(xs, sep), seps)
  {
    if |xs| > 1 {
      JoinAvoids(xs[1..], sep, seps);
      var r := Join(xs, sep);
      var t := Join(xs[1..], sep);
      assert r == xs[0] + [sep] + t;
      forall i | 0 <= i < |r| ensures r[i] !in seps {
        if i < |xs[0]| {
          assert r[i] == xs[0][i];
        } else if i > |xs[0]| {
          assert r[i] == t[i - |xs[0]| - 1];
        }
      }
    }
  }

  predicate IsDigit(c: char) {
    '0' <= c <= '9'
  }

  function DigitChar(d: nat): (c: char)
    requires d < 10
    ensures IsDigit(c) && c as int == '0' as int + d
  {
    ('0' as int + d) as char
  }

  /** The decimal rendering of `n` in a template literal: no sign, no
      leading zero, digits only. */
  function Dec(n: nat): (r: string)
    ensures |r| >= 1
    ensures forall i :: 0 <= i < |r| ==> IsDigit(r[i])
    ensures n < 10 <==> |r| == 1
  {
    if n < 10 then [DigitChar(n)] else Dec(n / 10) + [DigitChar(n % 10)]
  }

  function DigitValue(c: char): nat
    requires IsDigit(c)
  {
    c as int - '0' as int
  }

  /** The number a string of decimal digits spells, most significant digit
      first. */
  function DigitsValue(s: string): nat
    requires forall i :: 0 <= i < |s| ==> IsDigit(s[i])
  {
    if s == [] then 0
    else DigitsValue(s[..|s| - 1]) * 10 + DigitValue(s[|s| - 1])
  }

  /** The rendering spells `n` and has no leading zero (the only rendering
      starting with `0` is the one of zero itself). */
  lemma {:induction false} DecValue(n: nat)
    ensures DigitsValue(Dec(n)) == n
    ensures Dec(n)[0] == '0' <==> n == 0
  {
    if n >= 10 {
      DecValue(n / 10);
      var r := Dec(n);
      assert r[..|r| - 1] == Dec(n / 10);
      assert r[0] == Dec(n / 10)[0];
    }
  }

  /** Distinct numbers render differently. */
  lemma {:induction false} DecInjective(a: nat, b: nat)
    requires Dec(a) == Dec(b)
    ensures a == b
  {
    if a >= 10 && b >= 10 {
      var da, db := Dec(a), Dec(b);
      assert da[|da| - 1] == DigitChar(a % 10);
      assert db[|db| - 1] == DigitChar(b % 10);
      assert da[..|da| - 1] == Dec(a / 10);
      assert db[..|db| - 1] == Dec(b / 10);
      DecInjective(a / 10, b / 10);
    } else if a < 10 && b < 10 {
      assert Dec(a)[0] == DigitChar(a);
      assert Dec(b)[0] == DigitChar(b);
    }
  }

  /** Digits are separator-free for every separator that is not a digit. */
  lemma DecAvoids(n: nat, seps: set<char>)
    requires forall c :: c in seps ==> !IsDigit(c)
    ensures Avoids(Dec(n), seps)
  {
  }
}
