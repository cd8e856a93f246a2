/** The rotation that the doc comment of `offsetMetadata` promises:
    position `i` of the result holds `metadata[(i + seed) % n]`, where `%`
    is the non-negative modulus (Dafny's Euclidean `%`), so that every
    position wraps around to an element of the input. */
module Rotation {
  import opened Arithmetic

  function Rotate<T>(s: seq<T>, seed: int): (r: seq<T>)
    ensures |r| == |s|
  {
    seq(|s|, i requires 0 <= i < |s| => s[(i + seed) % |s|])
  }

  /** A rotation by `seed` is the input cut at `seed % n`, with the tail
      moved to the front. */
  lemma RotateSplit<T>(s: seq<T>, seed: int)
    requires |s| > 0
    ensures var k := seed % |s|; Rotate(s, seed) == s[k..] + s[..k]
  {
    var n, k := |s|, seed % |s|;
    var r, t := Rotate(s, seed), s[k..] + s[..k];
    forall i | 0 <= i < n
      ensures r[i] == t[i]
    {
      ModAddLeft(seed, i, n);
      if i < n - k {
        ModUnique(k + i, n, 0, k + i);
      } else {
        ModUnique(k + i, n, 1, k + i - n);
      }
    }
  }

  /** A rotation rearranges the input: it is a permutation. */
  lemma RotatePermutes<T>(s: seq<T>, seed: int)
    ensures multiset(Rotate(s, seed)) == multiset(s)
  {
    if |s| > 0 {
      var k := seed % |s|;
      RotateSplit(s, seed);
      assert s == s[..k] + s[k..];
    }
  }

  /** Only the seed's modulus matters. */
  lemma RotateNormalises<T>(s: seq<T>, seed: int)
    requires |s| > 0
    ensures Rotate(s, seed) == Rotate(s, seed % |s|)
  {
    var n := |s|;
    forall i | 0 <= i < n
      ensures Rotate(s, seed)[i] == Rotate(s, seed % n)[i]
    {
      ModAddLeft(seed, i, n);
      assert seed % n + i == i + seed % n;
    }
  }

  /** Seeds that differ by `n` give the same rotation. */
  lemma RotatePeriodic<T>(s: seq<T>, seed: int)
    ensures Rotate(s, seed + |s|) == Rotate(s, seed)
  {
    var n := |s|;
    forall i | 0 <= i < n
      ensures Rotate(s, seed + n)[i] == Rotate(s, seed)[i]
    {
      var x := i + seed;
      ModUnique(x + n, n, x / n + 1, x % n);
    }
  }

  /** A seed of zero leaves the input as it was. */
  lemma RotateZero<T>(s: seq<T>)
    ensures Rotate(s, 0) == s
  {
    forall i | 0 <= i < |s|
      ensures Rotate(s, 0)[i] == s[i]
    {
      ModUnique(i, |s|, 0, i);
    }
  }

  /** Position `i` of a rotation. */
  lemma RotateAt<T>(s: seq<T>, seed: int, i: int)
    requires 0 <= i < |s|
    ensures Rotate(s, seed)[i] == s[(i + seed) % |s|]
  {
  }

  /** The index arithmetic behind RotateCompose. */
  lemma ComposeIndex(i: int, a: int, b: int, n: nat)
    requires n > 0
    ensures ((i + b) % n + a) % n == (i + (a + b)) % n
  {
    ModAddLeft(i + b, a, n);
    assert i + b + a == i + (a + b);
  }

  /** Rotating twice is rotating once by the sum of the seeds. */
  lemma RotateCompose<T>(s: seq<T>, a: int, b: int)
    ensures Rotate(Rotate(s, a), b) == Rotate(s, a + b)
  {
    var n := |s|;
    var once := Rotate(s, a);
    forall i | 0 <= i < n
      ensures Rotate(once, b)[i] == Rotate(s, a + b)[i]
    {
      RotateAt(once, b, i);
      RotateAt(s, a, (i + b) % n);
      RotateAt(s, a + b, i);
      ComposeIndex(i, a, b, n);
    }
  }

  /** Rotating back by the negated seed restores the input. */
  lemma {:induction false} RotateInverse<T>(s: seq<T>, seed: int)
    ensures Rotate(Rotate(s, seed), -seed) == s
  {
    assert Rotate(Rotate(s, seed), -seed) == Rotate(s, 0) by {
      RotateCompose(s, seed, -seed);
    }
    RotateZero(s);
  }
}
