/** The word split of index.js:14: `masterMnemonic.split(' ')`, i.e. JavaScript's
    String.prototype.split with a one-character separator, and its inverse `join`. */
module Words {

  /** JavaScript `s.split(sep)` for a single-character separator: the maximal runs
      between separators, keeping empty pieces (so "" gives [""] and "a  b" gives
      ["a", "", "b"]). */
  function Split(s: string, sep: char): (parts: seq<string>)
    ensures |parts| >= 1
    decreases |s|
  {
    if s == [] then [[]]
    else
      var rest := Split(s[1..], sep);
      if s[0] == sep then [[]] + rest
      else [[s[0]] + rest[0]] + rest[1..]
  }

  /** JavaScript `parts.join(sep)` for a non-empty array of strings. */
  function Join(parts: seq<string>, sep: char): string
    requires |parts| >= 1
    decreases |parts|
  {
    if |parts| == 1 then parts[0]
    else parts[0] + [sep] + Join(parts[1..], sep)
  }

  /** Unfolds a join at its first piece. */
  lemma JoinCons(first: string, rest: seq<string>, sep: char)
    requires |rest| >= 1
    ensures Join([first] + rest, sep) == first + [sep] + Join(rest, sep)
  {
    assert ([first] + rest)[1..] == rest;
  }

  /** The word count of index.js:14: the length of `split(' ')`. */
  function WordCount(mnemonic: string): (count: nat)
    ensures count >= 1
  {
    |Split(mnemonic, ' ')|
  }

  predicate NoSeparator(parts: seq<string>, sep: char)
  {
    forall i :: 0 <= i < |parts| ==> sep !in parts[i]
  }

  /** split yields exactly one more piece than there are separators. */
  lemma {:induction false} SplitLength(s: string, sep: char)
    ensures |Split(s, sep)| == multiset(s)[sep] + 1
    decreases |s|
  {
    if s != [] {
      SplitLength(s[1..], sep);
      assert s == [s[0]] + s[1..];
      assert multiset(s) == multiset{s[0]} + multiset(s[1..]);
    }
  }

  /** No piece of a split contains the separator. */
  lemma {:induction false} SplitPiecesNoSeparator(s: string, sep: char)
    ensures NoSeparator(Split(s, sep), sep)
    decreases |s|
  {
    if s != [] {
      SplitPiecesNoSeparator(s[1..], sep);
    }
  }

  /** Joining the pieces of a split gives the original string back. */
  lemma {:induction false} JoinSplit(s: string, sep: char)
    ensures Join(Split(s, sep), sep) == s
    decreases |s|
  {
    if s != [] {
      var rest := Split(s[1..], sep);
      JoinSplit(s[1..], sep);
      if s[0] == sep {
        assert ([[]] + rest)[1..] == rest;
      } else if |rest| == 1 {
      } else {
        assert ([[s[0]] + rest[0]] + rest[1..])[1..] == rest[1..];
      }
    }
  }

  /** A string without the separator splits into itself. */
  lemma {:induction false} SplitNoSeparator(p: string, sep: char)
    requires sep !in p
    ensures Split(p, sep) == [p]
    decreases |p|
  {
    if p != [] {
      SplitNoSeparator(p[1..], sep);
      assert p[0] != sep;
      assert [p[0]] + p[1..] == p;
    }
  }

  /** A separator-free prefix followed by a separator becomes the first piece. */
  lemma {:induction false} SplitAfterPiece(p: string, sep: char, t: string)
    requires sep !in p
    ensures Split(p + [sep] + t, sep) == [p] + Split(t, sep)
    decreases |p|
  {
    if p == [] {
      assert p + [sep] + t == [sep] + t;
      assert ([sep] + t)[1..] == t;
    } else {
      SplitAfterPiece(p[1..], sep, t);
      var s := p + [sep] + t;
      assert s[0] == p[0] && p[0] != sep;
      assert s[1..] == p[1..] + [sep] + t;
      assert [p[0]] + p[1..] == p;
    }
  }

  /** Splitting a join of separator-free pieces gives the pieces back. */
  lemma {:induction false} SplitJoin(parts: seq<string>, sep: char)
    requires |parts| >= 1
    requires NoSeparator(parts, sep)
    ensures Split(Join(parts, sep), sep) == parts
    decreases |parts|
  {
    if |parts| == 1 {
      SplitNoSeparator(parts[0], sep);
    } else {
      SplitJoin(parts[1..], sep);
      SplitAfterPiece(parts[0], sep, Join(parts[1..], sep));
    }
  }

  /** The word count is the number of space characters plus one: a phrase of n words
      separated by single spaces counts n, and the empty string counts 1. */
  lemma WordCountIsSpacesPlusOne(mnemonic: string)
    ensures WordCount(mnemonic) == multiset(mnemonic)[' '] + 1
  {
    SplitLength(mnemonic, ' ');
  }

  /** A phrase built by joining space-free words with single spaces counts exactly
      those words. */
  lemma WordCountOfJoin(words: seq<string>)
    requires |words| >= 1
    requires NoSeparator(words, ' ')
    ensures WordCount(Join(words, ' ')) == |words|
  {
    SplitJoin(words, ' ');
  }
}
