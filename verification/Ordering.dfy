/**
 Three-way comparison, as Python's tuples, strings and lists compare: item by item,
 a proper prefix first.
 */
module Ordering {

  /** A comparison that ranks everything, possibly with ties. */
  ghost predicate Ranks<T(!new)>(cmp: (T, T) -> int) {
    && (forall a, b :: cmp(a, b) == -cmp(b, a))
    && (forall a, b, c :: cmp(a, b) <= 0 && cmp(b, c) <= 0 ==> cmp(a, c) <= 0)
  }

  function Lex<T>(cmp: (T, T) -> int, a: seq<T>, b: seq<T>): int
    decreases |a|
  {
    if a == [] then (if b == [] then 0 else -1)
    else if b == [] then 1
    else if cmp(a[0], b[0]) != 0 then cmp(a[0], b[0])
    else Lex(cmp, a[1..], b[1..])
  }

  lemma {:induction false} LexAntisymmetric<T(!new)>(cmp: (T, T) -> int, a: seq<T>, b: seq<T>)
    requires Ranks(cmp)
    ensures Lex(cmp, a, b) == -Lex(cmp, b, a)
    decreases |a|
  {
    if a != [] && b != [] {
      assert cmp(a[0], b[0]) == -cmp(b[0], a[0]);
      LexAntisymmetric(cmp, a[1..], b[1..]);
    }
  }

  lemma {:induction false} LexTransitive<T(!new)>(cmp: (T, T) -> int, a: seq<T>, b: seq<T>, c: seq<T>)
    requires Ranks(cmp)
    requires Lex(cmp, a, b) <= 0 && Lex(cmp, b, c) <= 0
    ensures Lex(cmp, a, c) <= 0
    decreases |a|
  {
    if a != [] && b != [] && c != [] {
      assert cmp(a[0], b[0]) <= 0 && cmp(b[0], c[0]) <= 0;
      assert cmp(a[0], c[0]) <= 0;
      if cmp(a[0], c[0]) == 0 {
        assert cmp(c[0], a[0]) <= 0;
        assert cmp(b[0], a[0]) <= 0 && cmp(c[0], b[0]) <= 0;
        assert cmp(a[0], b[0]) == -cmp(b[0], a[0]) && cmp(b[0], c[0]) == -cmp(c[0], b[0]);
        LexTransitive(cmp, a[1..], b[1..], c[1..]);
      }
    }
  }

  /** The position that decides a comparison: ties before it, and there either the
      items differ or one list has ended. */
  predicate DecidedAt<T>(cmp: (T, T) -> int, a: seq<T>, b: seq<T>, k: nat) {
    && k <= |a| && k <= |b|
    && (forall i :: 0 <= i < k ==> cmp(a[i], b[i]) == 0)
    && (k == |a| || k == |b| || cmp(a[k], b[k]) != 0)
  }

  /** `Lex` is decided at one position, by the items there or by the lengths. */
  lemma {:induction false} LexDecided<T(!new)>(cmp: (T, T) -> int, a: seq<T>, b: seq<T>, k: nat)
    requires DecidedAt(cmp, a, b, k)
    ensures Lex(cmp, a, b) == if k < |a| && k < |b| then cmp(a[k], b[k])
                              else if k < |b| then -1 else if k < |a| then 1 else 0
    decreases k
  {
    if k > 0 {
      assert cmp(a[0], b[0]) == 0;
      assert forall i :: 0 <= i < k - 1 ==> a[1..][i] == a[i + 1] && b[1..][i] == b[i + 1];
      LexDecided(cmp, a[1..], b[1..], k - 1);
    }
  }

  function CompareChar(a: char, b: char): int {
    if a < b then -1 else if b < a then 1 else 0
  }

  /** Python's `<` and `>` on `str`: by code point. */
  function CompareText(a: string, b: string): int {
    Lex(CompareChar, a, b)
  }

  lemma {:induction false} TextRanks()
    ensures Ranks(CompareText)
  {
    forall a: string, b: string
      ensures CompareText(a, b) == -CompareText(b, a)
    {
      LexAntisymmetric(CompareChar, a, b);
    }
    forall a: string, b: string, c: string | CompareText(a, b) <= 0 && CompareText(b, c) <= 0
      ensures CompareText(a, c) <= 0
    {
      LexTransitive(CompareChar, a, b, c);
    }
  }

  lemma {:induction false} TextTie(a: string, b: string)
    ensures CompareText(a, b) == 0 <==> a == b
    decreases |a|
  {
    if a != [] && b != [] {
      TextTie(a[1..], b[1..]);
      assert a == [a[0]] + a[1..] && b == [b[0]] + b[1..];
    }
  }

  /** Alphabetical order by code point: at the first difference the greater character,
      or the longer text if one is the beginning of the other. */
  ghost predicate After(a: string, b: string) {
    exists k: nat ::
      && k <= |a| && k <= |b| && a[..k] == b[..k]
      && ((k < |a| && k < |b| && a[k] > b[k]) || k == |b| < |a|)
  }

  /** Where two texts part. */
  function Parting(a: string, b: string): (k: nat)
    ensures DecidedAt(CompareChar, a, b, k)
    decreases |a|
  {
    if a == [] || b == [] || a[0] != b[0] then 0
    else
      var k := Parting(a[1..], b[1..]);
      assert forall i :: 0 < i < k + 1 ==> a[i] == a[1..][i - 1] && b[i] == b[1..][i - 1];
      k + 1
  }

  /** The comparison of texts is that order. */
  lemma {:induction false} TextOrderExactly(a: string, b: string)
    ensures CompareText(a, b) > 0 <==> After(a, b)
  {
    var d := Parting(a, b);
    LexDecided(CompareChar, a, b, d);
    if CompareText(a, b) > 0 {
      assert a[..d] == b[..d];
    }
    if After(a, b) {
      var k: nat :| && k <= |a| && k <= |b| && a[..k] == b[..k]
                    && ((k < |a| && k < |b| && a[k] > b[k]) || k == |b| < |a|);
      assert forall i :: 0 <= i < k ==> a[i] == a[..k][i] == b[..k][i] == b[i];
      assert DecidedAt(CompareChar, a, b, k);
      LexDecided(CompareChar, a, b, k);
    }
  }
}
