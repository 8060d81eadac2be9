/**
 * The parts of java.lang.String and java.util that the documentation model relies on:
 * the natural order of strings (`String.compareTo`) and the `int` hash codes of
 * strings, lists and `Objects.hash`, with Java's 32-bit wrap-around written out.
 */
module JavaStrings {

  const Int32Min: int := -0x8000_0000
  const Int32Modulus: int := 0x1_0000_0000

  predicate IsInt32(x: int) {
    Int32Min <= x < Int32Min + Int32Modulus
  }

  /** Java `int` arithmetic: the value congruent to `x` modulo 2^32 in the `int` range. */
  function Wrap32(x: int): (r: int)
    ensures IsInt32(r)
    ensures (r - x) % Int32Modulus == 0
    ensures IsInt32(x) ==> r == x
  {
    (x - Int32Min) % Int32Modulus + Int32Min
  }

  /**
   * `a.compareTo(b)`: the difference of the first pair of differing characters,
   * or the difference of the lengths when one string is a prefix of the other.
   */
  function CompareTo(a: string, b: string): (c: int)
    decreases |a|
  {
    if a == [] || b == [] then |a| - |b|
    else if a[0] != b[0] then a[0] as int - b[0] as int
    else CompareTo(a[1..], b[1..])
  }

  /** The strict order a name comparator built on `compareTo` imposes. */
  predicate Less(a: string, b: string) {
    CompareTo(a, b) < 0
  }

  /** Strings strictly increase along `ns`; in particular they are pairwise distinct. */
  predicate StrictlyIncreasing(ns: seq<string>) {
    forall i, j :: 0 <= i < j < |ns| ==> Less(ns[i], ns[j])
  }

  lemma {:induction false} CompareToZeroIffEqual(a: string, b: string)
    ensures CompareTo(a, b) == 0 <==> a == b
    decreases |a|
  {
    if a != [] && b != [] && a[0] == b[0] {
      CompareToZeroIffEqual(a[1..], b[1..]);
      assert a == [a[0]] + a[1..] && b == [b[0]] + b[1..];
    }
  }

  lemma {:induction false} CompareToAntisymmetric(a: string, b: string)
    ensures CompareTo(b, a) == -CompareTo(a, b)
    decreases |a|
  {
    if a != [] && b != [] && a[0] == b[0] {
      CompareToAntisymmetric(a[1..], b[1..]);
    }
  }

  lemma {:induction false} LessTransitive(a: string, b: string, c: string)
    requires Less(a, b) && Less(b, c)
    ensures Less(a, c)
    decreases |a|
  {
    if a != [] && b != [] && c != [] && a[0] == b[0] && b[0] == c[0] {
      LessTransitive(a[1..], b[1..], c[1..]);
    }
  }

  lemma LessIrreflexive(a: string)
    ensures !Less(a, a)
  {
    CompareToZeroIffEqual(a, a);
  }

  lemma LessAsymmetric(a: string, b: string)
    requires Less(a, b)
    ensures !Less(b, a)
  {
    CompareToAntisymmetric(a, b);
  }

  /** Two different strings are ordered one way or the other. */
  lemma LessConnected(a: string, b: string)
    requires a != b && !Less(a, b)
    ensures Less(b, a)
  {
    CompareToZeroIffEqual(a, b);
    CompareToAntisymmetric(a, b);
  }

  /** Every string of `ns` is above `a`. */
  predicate Below(a: string, ns: seq<string>) {
    forall n :: n in ns ==> Less(a, n)
  }

  /** A string below the first of a strictly increasing sequence is below all of it, hence not in it. */
  lemma BelowFirstIsBelowAll(a: string, ns: seq<string>)
    requires StrictlyIncreasing(ns) && ns != [] && Less(a, ns[0])
    ensures Below(a, ns) && a !in ns
  {
    forall n | n in ns ensures Less(a, n) {
      var j :| 0 <= j < |ns| && ns[j] == n;
      if j > 0 {
        LessTransitive(a, ns[0], n);
      }
    }
    if a in ns {
      LessIrreflexive(a);
    }
  }

  lemma ConsIncreasing(a: string, ns: seq<string>)
    requires Below(a, ns) && StrictlyIncreasing(ns)
    ensures StrictlyIncreasing([a] + ns)
  {
  }

  /** A strictly increasing sequence of strings is fixed by the set of strings it holds. */
  lemma {:induction false} StrictlyIncreasingIsDeterminedByMembers(a: seq<string>, b: seq<string>)
    requires StrictlyIncreasing(a) && StrictlyIncreasing(b)
    requires forall n :: n in a <==> n in b
    ensures a == b
    decreases |a|
  {
    assert b != [] ==> b[0] in a;
    if a != [] {
      assert a[0] in b;
      assert b[0] in a;
      if a[0] != b[0] {
        var j :| 0 <= j < |b| && b[j] == a[0];
        var i :| 0 <= i < |a| && a[i] == b[0];
        LessAsymmetric(b[0], a[0]);
      }
      forall n ensures n in a[1..] <==> n in b[1..] {
        assert a == [a[0]] + a[1..] && b == [b[0]] + b[1..];
        if n in a[1..] {
          var i :| 1 <= i < |a| && a[i] == n;
          assert Less(a[0], n);
          LessIrreflexive(n);
          assert n in a && n in b;
          var j :| 0 <= j < |b| && b[j] == n;
          assert b[1..][j - 1] == n;
        }
        if n in b[1..] {
          var j :| 1 <= j < |b| && b[j] == n;
          assert Less(b[0], n);
          LessIrreflexive(n);
          assert n in b && n in a;
          var i :| 0 <= i < |a| && a[i] == n;
          assert a[1..][i - 1] == n;
        }
      }
      StrictlyIncreasingIsDeterminedByMembers(a[1..], b[1..]);
      assert a == [a[0]] + a[1..] && b == [b[0]] + b[1..];
    }
  }

  /** `s.hashCode()`: h := 31 * h + c over the characters, in `int` arithmetic. */
  function StringHash(s: string): (h: int)
    ensures IsInt32(h)
  {
    if s == [] then 0 else Wrap32(31 * StringHash(s[..|s| - 1]) + s[|s| - 1] as int)
  }

  /**
   * `list.hashCode()` as the `java.util.List` contract defines it: h := 31 * h + e.hashCode(),
   * starting from 1. The element hash is a parameter.
   */
  function ListHash<T>(xs: seq<T>, elementHash: T -> int): (h: int)
    ensures IsInt32(h)
  {
    if xs == [] then 1 else Wrap32(31 * ListHash(xs[..|xs| - 1], elementHash) + elementHash(xs[|xs| - 1]))
  }

  /** `Objects.hash(x, y)` for two arguments whose hash codes are `hx` and `hy`. */
  function ObjectsHash2(hx: int, hy: int): (h: int)
    ensures IsInt32(h)
  {
    Wrap32(31 * Wrap32(31 * 1 + hx) + hy)
  }
}
