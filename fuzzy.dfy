/** Correction of mistyped values against a vocabulary (deploy_script.py,
    `fix_word`): `difflib.get_close_matches(word, options, n=1, cutoff=0.7)`,
    falling back to the word itself when nothing is close enough.

    The similarity score (difflib's `SequenceMatcher.ratio`) is a parameter:
    any function with values in [0, 1] that scores 1 exactly on identical
    strings. `similarity(x, word)` is the score of option `x` against `word`. */
module FuzzyMatch {

  /** The `cutoff` of the call. */
  const Cutoff: real := 0.7

  /** What the correction relies on about the score. */
  ghost predicate IsSimilarity(similarity: (string, string) -> real)
  {
    forall a, b :: 0.0 <= similarity(a, b) <= 1.0 && (similarity(a, b) == 1.0 <==> a == b)
  }

  // ---------------------------------------------------------------------
  // Python's ordering of strings

  /** `a < b` on Python strings: code point by code point, a proper prefix first. */
  predicate StrLess(a: string, b: string)
  {
    if a == [] then b != []
    else if b == [] then false
    else a[0] < b[0] || (a[0] == b[0] && StrLess(a[1..], b[1..]))
  }

  lemma {:induction false} StrLessIrreflexive(a: string)
    ensures !StrLess(a, a)
  {
    if a != [] {
      StrLessIrreflexive(a[1..]);
    }
  }

  lemma {:induction false} StrLessTotal(a: string, b: string)
    requires a != b
    ensures StrLess(a, b) || StrLess(b, a)
  {
    if a != [] && b != [] && a[0] == b[0] {
      assert a == [a[0]] + a[1..] && b == [b[0]] + b[1..];
      StrLessTotal(a[1..], b[1..]);
    }
  }

  lemma {:induction false} StrLessTransitive(a: string, b: string, c: string)
    requires StrLess(a, b) && StrLess(b, c)
    ensures StrLess(a, c)
  {
    if a != [] && a[0] == b[0] && b[0] == c[0] {
      StrLessTransitive(a[1..], b[1..], c[1..]);
    }
  }

  // ---------------------------------------------------------------------
  // Ranking of the close matches

  /** `get_close_matches` keeps the largest `(score, option)` pair: a higher
      score wins, and between equal scores the greater string. */
  predicate Outranks(similarity: (string, string) -> real, word: string, x: string, y: string)
    ensures Outranks(similarity, word, x, y) ==> x != y
  {
    StrLessIrreflexive(x);
    similarity(x, word) > similarity(y, word)
    || (similarity(x, word) == similarity(y, word) && StrLess(y, x))
  }

  /** Two distinct options are always ranked, one way and not the other. */
  lemma OutranksStrictTotal(similarity: (string, string) -> real, word: string, x: string, y: string)
    ensures !(Outranks(similarity, word, x, y) && Outranks(similarity, word, y, x))
    ensures x != y ==> Outranks(similarity, word, x, y) || Outranks(similarity, word, y, x)
  {
    if similarity(x, word) == similarity(y, word) {
      if StrLess(y, x) && StrLess(x, y) {
        StrLessTransitive(x, y, x);
        StrLessIrreflexive(x);
      }
      if x != y {
        StrLessTotal(x, y);
      }
    }
  }

  lemma OutranksTransitive(similarity: (string, string) -> real, word: string, x: string, y: string, z: string)
    requires Outranks(similarity, word, x, y) && Outranks(similarity, word, y, z)
    ensures Outranks(similarity, word, x, z)
  {
    if similarity(x, word) == similarity(y, word) == similarity(z, word) {
      StrLessTransitive(z, y, x);
    }
  }

  /** The options scoring at least the cutoff, in the order given. */
  function CloseMatches(similarity: (string, string) -> real, word: string, options: seq<string>): (c: seq<string>)
    ensures forall x :: x in c <==> x in options && similarity(x, word) >= Cutoff
  {
    if options == [] then []
    else
      var rest := CloseMatches(similarity, word, options[1..]);
      assert forall x :: x in options <==> x == options[0] || x in options[1..];
      if similarity(options[0], word) >= Cutoff then [options[0]] + rest else rest
  }

  /** The best-ranked of some candidates. */
  function Best(similarity: (string, string) -> real, word: string, candidates: seq<string>): (b: string)
    requires candidates != []
    ensures b in candidates
  {
    if |candidates| == 1 then candidates[0]
    else
      var b := Best(similarity, word, candidates[1..]);
      if Outranks(similarity, word, candidates[0], b) then candidates[0] else b
  }

  /** No candidate outranks the chosen one. */
  lemma {:induction false} BestIsMaximal(similarity: (string, string) -> real, word: string, candidates: seq<string>)
    requires candidates != []
    ensures forall y :: y in candidates ==> !Outranks(similarity, word, y, Best(similarity, word, candidates))
  {
    var b := Best(similarity, word, candidates);
    if |candidates| > 1 {
      var rest := candidates[1..];
      var b' := Best(similarity, word, rest);
      BestIsMaximal(similarity, word, rest);
      forall y | y in candidates ensures !Outranks(similarity, word, y, b) {
        if y == candidates[0] {
          if b == b' {
            assert !Outranks(similarity, word, candidates[0], b');
          } else {
            StrLessIrreflexive(b);
          }
        } else {
          assert y in rest;
          if b != b' && Outranks(similarity, word, y, b) {
            OutranksTransitive(similarity, word, y, b, b');
          }
        }
      }
    } else {
      StrLessIrreflexive(b);
    }
  }

  /** `fix_word`: the best close match, or the word itself when there is none. */
  function FixWord(similarity: (string, string) -> real, word: string, options: seq<string>): (r: string)
    ensures r == word || r in options
  {
    var close := CloseMatches(similarity, word, options);
    if close == [] then word else Best(similarity, word, close)
  }

  // ---------------------------------------------------------------------
  // Properties of the correction

  /** An option is returned only if it reaches the cutoff and no option that
      reaches the cutoff outranks it. */
  lemma FixWordChoosesBestMatch(similarity: (string, string) -> real, word: string, options: seq<string>)
    requires exists x :: x in options && similarity(x, word) >= Cutoff
    ensures FixWord(similarity, word, options) in options
    ensures similarity(FixWord(similarity, word, options), word) >= Cutoff
    ensures forall y :: y in options && similarity(y, word) >= Cutoff ==>
              !Outranks(similarity, word, y, FixWord(similarity, word, options))
  {
    var close := CloseMatches(similarity, word, options);
    var x :| x in options && similarity(x, word) >= Cutoff;
    assert x in close;
    BestIsMaximal(similarity, word, close);
  }

  /** With no option close enough the word comes back unchanged. */
  lemma FixWordFallsBack(similarity: (string, string) -> real, word: string, options: seq<string>)
    requires forall x :: x in options ==> similarity(x, word) < Cutoff
    ensures FixWord(similarity, word, options) == word
  {
    var close := CloseMatches(similarity, word, options);
    if close != [] {
      assert close[0] in close;
    }
  }

  /** With a strictly best close option, that option is the answer. */
  lemma FixWordUniqueBest(similarity: (string, string) -> real, word: string, options: seq<string>, x: string)
    requires x in options && similarity(x, word) >= Cutoff
    requires forall y :: y in options && y != x ==> similarity(y, word) < similarity(x, word)
    ensures FixWord(similarity, word, options) == x
  {
    FixWordChoosesBestMatch(similarity, word, options);
  }

  /** A word of the vocabulary is left as it is. */
  lemma FixWordKeepsOption(similarity: (string, string) -> real, word: string, options: seq<string>)
    requires IsSimilarity(similarity)
    requires word in options
    ensures FixWord(similarity, word, options) == word
  {
    assert similarity(word, word) == 1.0;
    FixWordChoosesBestMatch(similarity, word, options);
    var r := FixWord(similarity, word, options);
    assert !Outranks(similarity, word, word, r);
    assert similarity(r, word) <= 1.0;
  }

  /** Correcting twice is correcting once. */
  lemma FixWordIdempotent(similarity: (string, string) -> real, word: string, options: seq<string>)
    requires IsSimilarity(similarity)
    ensures FixWord(similarity, FixWord(similarity, word, options), options) == FixWord(similarity, word, options)
  {
    var r := FixWord(similarity, word, options);
    if r in options {
      FixWordKeepsOption(similarity, r, options);
    }
  }
}
