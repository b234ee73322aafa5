/** Python string operations the log checkers rely on: `str.split` with a
    one-character separator, its inverse `join`, and the code-point order
    `sorted` uses on strings. */
module Strings {

  /** How many times `c` occurs in `s`. */
  function Occurrences(s: string, c: char): nat
  {
    if |s| == 0 then 0
    else (if s[0] == c then 1 else 0) + Occurrences(s[1..], c)
  }

  lemma {:induction false} OccurrencesPositive(s: string, c: char)
    ensures Occurrences(s, c) > 0 <==> c in s
  {
    if |s| > 0 {
      OccurrencesPositive(s[1..], c);
      assert c in s <==> s[0] == c || c in s[1..];
    }
  }

  /** Python's `s.split(sep)`: the maximal separator-free pieces, empty ones
      included, so there is always one more piece than separators. */
  function Split(s: string, sep: char): (parts: seq<string>)
    ensures |parts| == Occurrences(s, sep) + 1
    ensures forall i :: 0 <= i < |parts| ==> sep !in parts[i]
    decreases |s|
  {
    if |s| == 0 then [""]
    else
      var rest := Split(s[1..], sep);
      if s[0] == sep then [""] + rest
      else [[s[0]] + rest[0]] + rest[1..]
  }

  /** Python's `sep.join(parts)`. */
  function Join(parts: seq<string>, sep: char): string
    requires |parts| >= 1
  {
    if |parts| == 1 then parts[0] else parts[0] + [sep] + Join(parts[1..], sep)
  }

  /** Prefixing a character to the first piece prefixes it to the join. */
  lemma JoinConsHead(c: char, parts: seq<string>, sep: char)
    requires |parts| >= 1
    ensures Join([[c] + parts[0]] + parts[1..], sep) == [c] + Join(parts, sep)
  {
    var head := [[c] + parts[0]] + parts[1..];
    if |parts| > 1 {
      assert head[1..] == parts[1..];
    }
  }

  /** Joining the pieces of a split gives back the original string. */
  lemma {:induction false} JoinSplit(s: string, sep: char)
    ensures Join(Split(s, sep), sep) == s
    decreases |s|
  {
    if |s| > 0 {
      JoinSplit(s[1..], sep);
      var rest := Split(s[1..], sep);
      if s[0] != sep {
        JoinConsHead(s[0], rest, sep);
        assert s == [s[0]] + s[1..];
      } else {
        assert ([""] + rest)[1..] == rest;
        assert s == [sep] + s[1..];
      }
    }
  }

  /** Splitting a separator-free string gives that string alone. */
  lemma {:induction false} SplitWithoutSeparator(s: string, sep: char)
    requires sep !in s
    ensures Split(s, sep) == [s]
    decreases |s|
  {
    if |s| > 0 {
      assert sep !in s[1..];
      SplitWithoutSeparator(s[1..], sep);
      assert [s[0]] + s[1..] == s;
    }
  }

  /** A separator after a separator-free head cuts exactly there. */
  lemma {:induction false} SplitAfterHead(a: string, b: string, sep: char)
    requires sep !in a
    ensures Split(a + [sep] + b, sep) == [a] + Split(b, sep)
    decreases |a|
  {
    if |a| == 0 {
      assert a + [sep] + b == [sep] + b;
      assert ([sep] + b)[1..] == b;
    } else {
      assert sep !in a[1..];
      SplitAfterHead(a[1..], b, sep);
      assert (a + [sep] + b)[1..] == a[1..] + [sep] + b;
      assert [a[0]] + a[1..] == a;
    }
  }

  /** `p` is the separator-free run of `s` that starts at `j` and reaches
      the next separator or the end. */
  predicate PieceAt(s: string, j: nat, p: string, sep: char)
  {
    && j + |p| <= |s|
    && s[j..j + |p|] == p
    && sep !in p
    && (j + |p| == |s| || s[j + |p|] == sep)
  }

  /** The first piece of a split is the run before the first separator. */
  lemma {:induction false} SplitFirstPiece(s: string, sep: char)
    ensures PieceAt(s, 0, Split(s, sep)[0], sep)
    decreases |s|
  {
    if |s| > 0 && s[0] != sep {
      SplitFirstPiece(s[1..], sep);
      var p := Split(s[1..], sep)[0];
      assert Split(s, sep)[0] == [s[0]] + p;
      assert s[..1 + |p|] == [s[0]] + s[1..][..|p|];
    }
  }

  /** The second piece of a split is the run after the first separator. */
  lemma SplitSecondPiece(s: string, sep: char, i: nat)
    requires i < |s| && s[i] == sep && sep !in s[..i]
    ensures |Split(s, sep)| >= 2
    ensures PieceAt(s, i + 1, Split(s, sep)[1], sep)
  {
    var b := s[i + 1..];
    assert s == s[..i] + [sep] + b;
    SplitAfterHead(s[..i], b, sep);
    SplitFirstPiece(b, sep);
    var p := Split(b, sep)[0];
    assert s[i + 1..i + 1 + |p|] == b[..|p|];
  }

  /** The position of the first `c` in `s`. */
  function FirstIndex(s: string, c: char): (i: nat)
    requires c in s
    ensures i < |s| && s[i] == c && c !in s[..i]
  {
    if s[0] == c then 0
    else
      assert c in s[1..];
      var j := FirstIndex(s[1..], c);
      assert s[..j + 1] == [s[0]] + s[1..][..j];
      j + 1
  }

  /** A string with exactly one separator splits into the two sides. */
  lemma SplitAtOneSeparator(a: string, b: string, sep: char)
    requires sep !in a && sep !in b
    ensures Split(a + [sep] + b, sep) == [a, b]
  {
    SplitAfterHead(a, b, sep);
    SplitWithoutSeparator(b, sep);
  }

  /** Splitting a join of separator-free pieces gives back the pieces. */
  lemma {:induction false} SplitJoin(parts: seq<string>, sep: char)
    requires |parts| >= 1
    requires forall i :: 0 <= i < |parts| ==> sep !in parts[i]
    ensures Split(Join(parts, sep), sep) == parts
    decreases |parts|
  {
    if |parts| == 1 {
      SplitWithoutSeparator(parts[0], sep);
    } else {
      SplitJoin(parts[1..], sep);
      SplitAfterHead(parts[0], Join(parts[1..], sep), sep);
      assert [parts[0]] + parts[1..] == parts;
    }
  }

  /** Python's string `<`: lexicographic by code point, a proper prefix first. */
  predicate Less(a: string, b: string)
    decreases |a|
  {
    if |a| == 0 then |b| > 0
    else if |b| == 0 then false
    else if a[0] != b[0] then a[0] < b[0]
    else Less(a[1..], b[1..])
  }

  lemma {:induction false} LessIrreflexive(a: string)
    ensures !Less(a, a)
    decreases |a|
  {
    if |a| > 0 {
      LessIrreflexive(a[1..]);
    }
  }

  lemma {:induction false} LessTransitive(a: string, b: string, c: string)
    requires Less(a, b) && Less(b, c)
    ensures Less(a, c)
    decreases |a|
  {
    if |a| > 0 && a[0] == b[0] && b[0] == c[0] {
      LessTransitive(a[1..], b[1..], c[1..]);
    }
  }

  /** Any two different strings are ordered one way or the other. */
  lemma {:induction false} LessTotal(a: string, b: string)
    requires a != b
    ensures Less(a, b) || Less(b, a)
    decreases |a|
  {
    if |a| > 0 && |b| > 0 && a[0] == b[0] {
      assert a == [a[0]] + a[1..] && b == [b[0]] + b[1..];
      LessTotal(a[1..], b[1..]);
    }
  }
}
