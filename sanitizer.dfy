/** The surrogate sanitiser applied to every chunk before it is indexed: it
    deletes each code point of the surrogate range U+D800..U+DFFF, which
    section 3.8 of the Unicode Standard reserves for UTF-16 encoding and which
    cannot stand alone in well-formed text. */
module Sanitizer {
  import opened Strings

  predicate IsSurrogate(c: CodePoint) {
    0xD800 <= c <= 0xDFFF
  }

  predicate NoSurrogates(s: Text) {
    forall k :: 0 <= k < |s| ==> !IsSurrogate(s[k])
  }

  /** The number of surrogate code points in `s`. */
  function SurrogateCount(s: Text): (n: nat)
    ensures n <= |s|
    ensures n == 0 <==> NoSurrogates(s)
  {
    if s == [] then 0
    else (if IsSurrogate(s[0]) then 1 else 0) + SurrogateCount(s[1..])
  }

  /** The regular-expression substitution that replaces every code point of
      the surrogate range with nothing. */
  function RemoveInvalidSurrogates(s: Text): (r: Text)
    ensures NoSurrogates(r)
    ensures |r| == |s| - SurrogateCount(s)
  {
    if s == [] then []
    else
      assert s == [s[0]] + s[1..];
      (if IsSurrogate(s[0]) then [] else [s[0]]) + RemoveInvalidSurrogates(s[1..])
  }

  /** Text without surrogates passes through unchanged. */
  lemma {:induction false} CleanTextUnchanged(s: Text)
    requires NoSurrogates(s)
    ensures RemoveInvalidSurrogates(s) == s
  {
    if s != [] {
      CleanTextUnchanged(s[1..]);
    }
  }

  /** Every code point outside the surrogate range keeps its number of
      occurrences; with `NoSurrogates` on the result, exactly the surrogates
      are deleted. */
  lemma {:induction false} SanitiseKeepsOthers(s: Text, c: CodePoint)
    requires !IsSurrogate(c)
    ensures multiset(RemoveInvalidSurrogates(s))[c] == multiset(s)[c]
  {
    if s != [] {
      assert s == [s[0]] + s[1..];
      SanitiseKeepsOthers(s[1..], c);
    }
  }

  /** Sanitising twice is sanitising once. */
  lemma SanitiseIdempotent(s: Text)
    ensures RemoveInvalidSurrogates(RemoveInvalidSurrogates(s)) == RemoveInvalidSurrogates(s)
  {
    CleanTextUnchanged(RemoveInvalidSurrogates(s));
  }

  /** Sanitising works code point by code point: the sanitised halves of a
      string, in order, make up the sanitised string. With the single code
      point case this pins the result down as `s` with exactly its surrogates
      deleted and everything else kept in order. */
  lemma {:induction false} SanitiseConcat(a: Text, b: Text)
    ensures RemoveInvalidSurrogates(a + b) == RemoveInvalidSurrogates(a) + RemoveInvalidSurrogates(b)
  {
    if a != [] {
      var head: Text := if IsSurrogate(a[0]) then [] else [a[0]];
      assert (a + b)[0] == a[0] && (a + b)[1..] == a[1..] + b;
      calc {
        RemoveInvalidSurrogates(a + b);
        head + RemoveInvalidSurrogates(a[1..] + b);
        { SanitiseConcat(a[1..], b); }
        head + (RemoveInvalidSurrogates(a[1..]) + RemoveInvalidSurrogates(b));
        (head + RemoveInvalidSurrogates(a[1..])) + RemoveInvalidSurrogates(b);
        RemoveInvalidSurrogates(a) + RemoveInvalidSurrogates(b);
      }
    } else {
      assert a + b == b;
    }
  }

  /** A single code point survives exactly when it is not a surrogate. */
  lemma SanitiseSingle(c: CodePoint)
    ensures RemoveInvalidSurrogates([c]) == if IsSurrogate(c) then [] else [c]
  {
    assert [c][1..] == [];
  }
}
