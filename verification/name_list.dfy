/** The name-list editor (components/NameListInput.tsx): the text the user
    types or pastes becomes a list of names, duplicates are reported, and
    "remove duplicates" rewrites the text with each name once. */
module NameList {
  import opened Text
  import opened Types

  /** The separators of `text.split(/\n|,/)`: line feed and comma. */
  const Separators: set<char> := {'\n', ','}

  /** What a parsed name looks like: not empty, trimmed, no separator. */
  predicate IsName(t: string) {
    t != [] && IsTrimmed(t) && Avoids(t, Separators)
  }

  /** `tokens.map(s => s.trim()).filter(s => s)`: a token survives, trimmed,
      exactly when it is not all whitespace. */
  function Clean(tokens: seq<string>): (r: seq<string>)
    ensures |r| <= |tokens|
    ensures forall i :: 0 <= i < |r| ==> r[i] != [] && IsTrimmed(r[i])
  {
    if tokens == [] then []
    else (if Trim(tokens[0]) == [] then [] else [Trim(tokens[0])]) + Clean(tokens[1..])
  }

  /** `currentNames`: the text split at line feeds and commas, each token
      trimmed, blank tokens dropped. */
  function ParseNames(text: string): (r: seq<string>)
    ensures forall i :: 0 <= i < |r| ==> IsName(r[i])
  {
    var tokens := Split(text, Separators);
    var r := Clean(tokens);
    CleanAvoids(tokens);
    r
  }

  lemma {:induction false} CleanAvoids(tokens: seq<string>)
    requires forall i :: 0 <= i < |tokens| ==> Avoids(tokens[i], Separators)
    ensures forall i :: 0 <= i < |Clean(tokens)| ==> Avoids(Clean(tokens)[i], Separators)
  {
    if tokens != [] {
      var rest := tokens[1..];
      assert forall i :: 0 <= i < |rest| ==> Avoids(rest[i], Separators) by {
        forall i | 0 <= i < |rest| ensures Avoids(rest[i], Separators) {
          assert rest[i] == tokens[i + 1];
        }
      }
      CleanAvoids(rest);
      TrimAvoids(tokens[0], Separators);
      var head := if Trim(tokens[0]) == [] then [] else [Trim(tokens[0])];
      AvoidsConcat(head, Clean(rest));
      assert Clean(tokens) == head + Clean(rest);
    }
  }

  /** Two lists of tokens free of separators concatenate to one. */
  lemma AvoidsConcat(a: seq<string>, b: seq<string>)
    requires forall i :: 0 <= i < |a| ==> Avoids(a[i], Separators)
    requires forall i :: 0 <= i < |b| ==> Avoids(b[i], Separators)
    ensures forall i :: 0 <= i < |a + b| ==> Avoids((a + b)[i], Separators)
  {
    forall i | 0 <= i < |a + b| ensures Avoids((a + b)[i], Separators) {
      if i >= |a| {
        assert (a + b)[i] == b[i - |a|];
      }
    }
  }

  /** Cleaning keeps the order of the tokens: the survivors of a
      concatenation are the survivors of each part, in turn. */
  lemma {:induction false} CleanAppend(a: seq<string>, b: seq<string>)
    ensures Clean(a + b) == Clean(a) + Clean(b)
  {
    if a != [] {
      assert (a + b)[0] == a[0];
      assert (a + b)[1..] == a[1..] + b;
      CleanAppend(a[1..], b);
    } else {
      assert a + b == b;
    }
  }

  /** Names that are already trimmed and non-empty pass through unchanged. */
  lemma {:induction false} CleanKeepsNames(names: seq<string>)
    requires forall i :: 0 <= i < |names| ==> names[i] != [] && IsTrimmed(names[i])
    ensures Clean(names) == names
  {
    if names != [] {
      CleanKeepsNames(names[1..]);
    }
  }

  /** The parse treats the text on either side of a separator independently
      and keeps their order: the names before the separator come first. */
  lemma ParseAt(a: string, c: char, b: string)
    requires c in Separators
    ensures ParseNames(a + [c] + b) == ParseNames(a) + ParseNames(b)
  {
    SplitAt(a, c, b, Separators);
    CleanAppend(Split(a, Separators), Split(b, Separators));
  }

  /** Writing names one per line and parsing the text again gives the same
      list: the parse is a left inverse of `join('\n')` on names. */
  lemma ParseJoin(names: seq<string>)
    requires forall i :: 0 <= i < |names| ==> IsName(names[i])
    ensures ParseNames(Join(names, '\n')) == names
  {
    if names != [] {
      SplitJoin(names, '\n', Separators);
      CleanKeepsNames(names);
    } else {
      assert Split([], Separators) == [[]];
      assert Trim([]) == [];
    }
  }

  /** `Set.prototype.add` on a set kept in insertion order: a new element
      goes last, an element already there changes nothing. */
  function SetAdd<T(==,!new)>(s: seq<T>, x: T): (r: seq<T>)
    ensures x in r
    ensures |r| == (if x in s then |s| else |s| + 1)
    ensures forall i :: 0 <= i < |s| ==> r[i] == s[i]
    ensures NoRepeats(s) ==> NoRepeats(r)
    ensures forall y :: y in r <==> y in s || y == x
  {
    if x in s then s else s + [x]
  }

  /** The `duplicates` memo: scanning the names from the left, each name met
      while already in `seen` is added to `dupes`. */
  function Duplicates(names: seq<string>): (r: seq<string>)
    ensures NoRepeats(r)
  {
    if names == [] then []
    else
      var p := names[..|names| - 1];
      var x := names[|names| - 1];
      if x in p then SetAdd(Duplicates(p), x) else Duplicates(p)
  }

  /** The duplicate scan, as the source runs it: one pass with a `seen` set
      and an insertion-ordered `dupes` set. */
  method FindDuplicates(names: seq<string>) returns (dupes: seq<string>)
    ensures dupes == Duplicates(names)
    ensures forall x :: x in dupes <==> multiset(names)[x] >= 2
    ensures NoRepeats(dupes)
  {
    var seen: set<string> := {};
    dupes := [];
    var i := 0;
    while i < |names|
      invariant 0 <= i <= |names|
      invariant forall x :: x in seen <==> x in names[..i]
      invariant dupes == Duplicates(names[..i])
    {
      var name := names[i];
      assert names[..i + 1][..i] == names[..i];
      if name in seen {
        dupes := SetAdd(dupes, name);
      }
      seen := seen + {name};
      i := i + 1;
    }
    assert names[..i] == names;
    DuplicatesIff(names);
  }

  /** A name is reported exactly when it occurs at least twice. */
  lemma {:induction false} DuplicatesIff(names: seq<string>)
    ensures forall x :: x in Duplicates(names) <==> multiset(names)[x] >= 2
  {
    if names != [] {
      var p := names[..|names| - 1];
      var x := names[|names| - 1];
      assert names == p + [x];
      DuplicatesIff(p);
      assert multiset(names) == multiset(p) + multiset{x};
      assert x in p <==> multiset(p)[x] >= 1;
    }
  }

  /** Names become duplicates in scan order: what the scan reports for a
      prefix of the list is a prefix of what it reports for the whole list,
      so a name seen twice earlier is listed before one seen twice later. */
  lemma {:induction false} DuplicatesPrefix(names: seq<string>, k: nat)
    requires k <= |names|
    ensures var d := Duplicates(names[..k]);
      |d| <= |Duplicates(names)| && d == Duplicates(names)[..|d|]
  {
    if k < |names| {
      var p := names[..|names| - 1];
      assert p[..k] == names[..k];
      DuplicatesPrefix(p, k);
    } else {
      assert names[..k] == names;
    }
  }

  /** `Array.from(new Set(names))`: the names with every later repetition
      dropped. */
  function Dedup(names: seq<string>): (r: seq<string>)
    ensures NoRepeats(r)
    ensures forall x :: x in r <==> x in names
    ensures |r| <= |names|
  {
    if names == [] then []
    else
      var p := names[..|names| - 1];
      var x := names[|names| - 1];
      SetAdd(Dedup(p), x)
  }

  /** The position of the first occurrence of `x`. */
  function FirstIndex(s: seq<string>, x: string): (i: nat)
    requires x in s
    ensures i < |s| && s[i] == x && x !in s[..i]
  {
    if s[0] == x then 0 else 1 + FirstIndex(s[1..], x)
  }

  lemma FirstIndexUnique(s: seq<string>, x: string, i: nat)
    requires i < |s| && s[i] == x && x !in s[..i]
    ensures FirstIndex(s, x) == i
  {
  }

  lemma FirstIndexAppend(p: seq<string>, y: string, x: string)
    requires x in p
    ensures FirstIndex(p + [y], x) == FirstIndex(p, x)
  {
    var i := FirstIndex(p, x);
    assert (p + [y])[..i] == p[..i];
    FirstIndexUnique(p + [y], x, i);
  }

  /** De-duplication keeps first occurrences in their original order: of two
      kept names, the one that first occurs earlier in the input comes
      earlier in the output. */
  lemma {:induction false} DedupKeepsFirstOrder(names: seq<string>, a: string, b: string)
    requires a in names && b in names
    ensures FirstIndex(Dedup(names), a) < FirstIndex(Dedup(names), b)
        <==> FirstIndex(names, a) < FirstIndex(names, b)
  {
    var p := names[..|names| - 1];
    var x := names[|names| - 1];
    assert names == p + [x];
    var d := Dedup(p);
    if a in p && b in p {
      DedupKeepsFirstOrder(p, a, b);
      FirstIndexAppend(p, x, a);
      FirstIndexAppend(p, x, b);
      if x !in p {
        FirstIndexAppend(d, x, a);
        FirstIndexAppend(d, x, b);
      }
    } else if a in p {
      // b is the last name and occurs nowhere before it
      assert b == x && x !in d;
      FirstIndexAppend(p, x, a);
      FirstIndexAppend(d, x, a);
      FirstIndexUnique(names, b, |p|);
      FirstIndexUnique(d + [x], b, |d|);
    } else if b in p {
      assert a == x && x !in d;
      FirstIndexAppend(p, x, b);
      FirstIndexAppend(d, x, b);
      FirstIndexUnique(names, a, |p|);
      FirstIndexUnique(d + [x], a, |d|);
    }
  }

  /** A list without repetitions is its own de-duplication. */
  lemma {:induction false} DedupOfDistinct(names: seq<string>)
    requires NoRepeats(names)
    ensures Dedup(names) == names
  {
    if names != [] {
      var p := names[..|names| - 1];
      DedupOfDistinct(p);
      assert names == p + [names[|names| - 1]];
    }
  }

  /** `removeDuplicates` is idempotent. */
  lemma DedupIdempotent(names: seq<string>)
    ensures Dedup(Dedup(names)) == Dedup(names)
  {
    DedupOfDistinct(Dedup(names));
  }

  /** A name appended to a list that already holds it is dropped by
      de-duplication. */
  lemma DedupRepeat(p: seq<string>, x: string)
    requires x in p
    ensures Dedup(p + [x]) == Dedup(p)
  {
    assert (p + [x])[..|p|] == p;
    assert x in Dedup(p);
  }

  /** Appending names that already occur changes nothing after
      de-duplication. */
  lemma {:induction false} DedupAbsorbs(s: seq<string>, t: seq<string>)
    requires forall i :: 0 <= i < |t| ==> t[i] in s
    ensures Dedup(s + t) == Dedup(s)
  {
    if t == [] {
      assert s + t == s;
    } else {
      var t', x := t[..|t| - 1], t[|t| - 1];
      assert x in s + t';
      calc {
        Dedup(s + t);
        { assert s + t == (s + t') + [x]; }
        Dedup((s + t') + [x]);
        { DedupRepeat(s + t', x); }
        Dedup(s + t');
        { forall i | 0 <= i < |t'| ensures t'[i] in s { assert t'[i] == t[i]; }
          DedupAbsorbs(s, t'); }
        Dedup(s);
      }
    }
  }

  /** The scan reports nothing exactly when no name repeats. */
  lemma NoDuplicatesIff(names: seq<string>)
    ensures Duplicates(names) == [] <==> NoRepeats(names)
  {
    DuplicatesIff(names);
    if !NoRepeats(names) {
      var i, j :| 0 <= i < j < |names| && names[i] == names[j];
      var x := names[i];
      assert names == names[..i] + [x] + names[i + 1..];
      assert names[i + 1..][j - i - 1] == x;
      assert multiset(names[i + 1..])[x] >= 1;
      assert multiset(names)[x] >= 2;
      assert x in Duplicates(names);
    }
  }

  /** `removeDuplicates`: the new text of the editor, each distinct name
      once, one per line. Parsed again it gives exactly the de-duplicated
      list: the same names, first occurrences in order, and no duplicate
      left to report. */
  function RemoveDuplicates(text: string): (r: string)
    ensures ParseNames(r) == Dedup(ParseNames(text))
    ensures Duplicates(ParseNames(r)) == []
    ensures forall x :: x in ParseNames(r) <==> x in ParseNames(text)
  {
    RemoveDuplicatesReparses(text);
    Join(Dedup(ParseNames(text)), '\n')
  }

  lemma RemoveDuplicatesReparses(text: string)
    ensures ParseNames(Join(Dedup(ParseNames(text)), '\n')) == Dedup(ParseNames(text))
    ensures Duplicates(Dedup(ParseNames(text))) == []
  {
    var parsed := ParseNames(text);
    var names := Dedup(parsed);
    forall i | 0 <= i < |names| ensures IsName(names[i]) {
      assert names[i] in parsed;
    }
    ParseJoin(names);
    NoDuplicatesIff(names);
  }

  /** A text pasted twice, separated by a line break, de-duplicates to the
      same list as the text pasted once. */
  lemma PastedTwice(text: string)
    ensures Dedup(ParseNames(text + "\n" + text)) == Dedup(ParseNames(text))
  {
    assert text + "\n" + text == text + ['\n'] + text;
    ParseAt(text, '\n', text);
    DedupAbsorbs(ParseNames(text), ParseNames(text));
  }
}
