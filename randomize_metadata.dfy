/** `offsetMetadata` from randomize-metadata.js, as the code computes it:
    the offset is JavaScript's truncating `seed % metadata.length`, and
    position `index` of the result reads `metadata[index + offset]` with no
    second reduction, so a read past either end of the array is
    `undefined` (here `None`). The lemmas compare it with the rotation its
    doc comment promises (Rotation.Rotate). */
module RandomizeMetadata {
  import opened Wrappers
  import opened JsNumber
  import opened Rotation
  import opened Arithmetic

  /** A metadata record; only its `id` distinguishes it. */
  datatype Item = Item(id: int)

  /** The ten records the script offsets. */
  const METADATA: seq<Item> := [
    Item(0), Item(1), Item(2), Item(3), Item(4),
    Item(5), Item(6), Item(7), Item(8), Item(9)
  ]

  /** `metadata.map((_, index) => metadata[index + offset])` with
      `offset = seed % metadata.length`. A new sequence of the input's
      length; the input, a value, is not changed. For an empty input the
      offset is NaN, but the map has no position to read it at. */
  function OffsetMetadata<T>(metadata: seq<T>, seed: int): (r: seq<Option<T>>)
    ensures |r| == |metadata|
    ensures forall i | 0 <= i < |r| && r[i].Some? :: r[i].value in metadata
  {
    var offset := Remainder(seed, |metadata|);
    seq(|metadata|, index requires 0 <= index < |metadata| =>
      Read(metadata, Plus(index, offset)))
  }

  /** Every element of `s`, each defined. */
  function Defined<T>(s: seq<T>): seq<Option<T>>
  {
    seq(|s|, i requires 0 <= i < |s| => Some(s[i]))
  }

  /** `k` reads of `undefined`. */
  function Undefined<T>(k: nat): seq<Option<T>>
  {
    seq(k, _ => None)
  }

  /** Position `i` holds the element `offset` places further on when there
      is one, and `undefined` when `i + offset` falls outside the array:
      nothing wraps around. */
  lemma OffsetMetadataAt<T>(metadata: seq<T>, seed: int, i: int)
    requires 0 <= i < |metadata|
    ensures var n, offset := |metadata|, Remainder(seed, |metadata|).value;
      -n < offset < n &&
      OffsetMetadata(metadata, seed)[i] ==
        if 0 <= i + offset < n then Some(metadata[i + offset]) else None
  {
  }

  /** For a non-negative seed the offset is `seed % n`: the result is the
      input from position `seed % n` on, followed by that many
      `undefined`s. */
  lemma OffsetMetadataNonNegativeSeed<T>(metadata: seq<T>, seed: int)
    requires |metadata| > 0 && seed >= 0
    ensures var k := seed % |metadata|;
      OffsetMetadata(metadata, seed) == Defined(metadata[k..]) + Undefined(k)
  {
    var n, k := |metadata|, seed % |metadata|;
    assert Remainder(seed, n) == Int(k);
    var r, t := OffsetMetadata(metadata, seed), Defined(metadata[k..]) + Undefined(k);
    forall i | 0 <= i < n
      ensures r[i] == t[i]
    {
      if i < n - k {
        assert t[i] == Some(metadata[k..][i]);
      }
    }
  }

  /** For a negative seed the offset is `-((-seed) % n)`: the result starts
      with `(-seed) % n` reads of `undefined`, followed by the input's first
      elements in order. */
  lemma OffsetMetadataNegativeSeed<T>(metadata: seq<T>, seed: int)
    requires |metadata| > 0 && seed < 0
    ensures var k := (-seed) % |metadata|;
      OffsetMetadata(metadata, seed) == Undefined(k) + Defined(metadata[..|metadata| - k])
  {
    var n, k := |metadata|, (-seed) % |metadata|;
    assert Remainder(seed, n) == Int(-k);
    var r, t := OffsetMetadata(metadata, seed), Undefined(k) + Defined(metadata[..n - k]);
    forall i | 0 <= i < n
      ensures r[i] == t[i]
    {
      if i >= k {
        assert t[i] == Some(metadata[..n - k][i - k]);
      }
    }
  }

  /** Against the doc comment's rotation, for a non-negative seed: the first
      `n - seed % n` positions agree with it and the last `seed % n`, where
      the rotation would wrap around, are `undefined`. */
  lemma OffsetMetadataAgreesBeforeWrap<T>(metadata: seq<T>, seed: int)
    requires |metadata| > 0 && seed >= 0
    ensures var n, k := |metadata|, seed % |metadata|;
      var r := OffsetMetadata(metadata, seed);
      r[..n - k] == Defined(Rotate(metadata, seed)[..n - k]) &&
      r[n - k..] == Undefined(k)
  {
    var n, k := |metadata|, seed % |metadata|;
    OffsetMetadataNonNegativeSeed(metadata, seed);
    RotateSplit(metadata, seed);
    var r, rot := OffsetMetadata(metadata, seed), Rotate(metadata, seed);
    assert rot[..n - k] == metadata[k..];
  }

  /** Against the doc comment's rotation, for a negative seed: the first
      `(-seed) % n` positions, where the rotation wraps around to the end of
      the input, are `undefined`, and the rest agree with it. */
  lemma OffsetMetadataAgreesAfterWrap<T>(metadata: seq<T>, seed: int)
    requires |metadata| > 0 && seed < 0
    ensures var k := (-seed) % |metadata|;
      var r := OffsetMetadata(metadata, seed);
      r[..k] == Undefined(k) &&
      r[k..] == Defined(Rotate(metadata, seed)[k..])
  {
    var n, k := |metadata|, (-seed) % |metadata|;
    OffsetMetadataNegativeSeed(metadata, seed);
    RotateSplit(metadata, seed);
    var r, rot := OffsetMetadata(metadata, seed), Rotate(metadata, seed);
    if k > 0 {
      // seed == n * (-q - 1) + (n - k), so seed % n == n - k
      var q := (-seed) / n;
      ModUnique(seed, n, -q - 1, n - k);
      assert rot[k..] == metadata[..n - k];
    } else {
      assert rot == metadata;
    }
  }

  /** The result is the doc comment's rotation, with no `undefined` in it,
      exactly when the seed is a multiple of the length; then it is the
      input itself, in its order. */
  lemma OffsetMetadataIsRotationIff<T>(metadata: seq<T>, seed: int)
    requires |metadata| > 0
    ensures var r := OffsetMetadata(metadata, seed);
      ((forall i | 0 <= i < |r| :: r[i].Some?) <==> seed % |metadata| == 0) &&
      (r == Defined(Rotate(metadata, seed)) <==> seed % |metadata| == 0) &&
      (seed % |metadata| == 0 ==> r == Defined(metadata))
  {
    var n, r := |metadata|, OffsetMetadata(metadata, seed);
    var offset := Remainder(seed, n).value;
    if seed % n == 0 {
      RemainderUnique(seed, n, 0);
      assert r == Defined(metadata);
      RotateNormalises(metadata, seed);
      RotateZero(metadata);
    } else {
      assert offset != 0;
      if offset > 0 {
        assert r[n - 1] == None;
      } else {
        assert r[0] == None;
      }
    }
  }

  /** The repair of `offsetMetadata` that its doc comment calls for, still
      in JavaScript's operators: normalise the offset to
      `((seed % n) + n) % n` and reduce `index + offset` by `n` again. */
  function CorrectedOffsetMetadata<T>(metadata: seq<T>, seed: int): (r: seq<Option<T>>)
    ensures |r| == |metadata|
  {
    var n := |metadata|;
    if n == 0 then []
    else
      var offset := Remainder(Remainder(seed, n).value + n, n).value;
      seq(n, index requires 0 <= index < n => Read(metadata, Remainder(index + offset, n)))
  }

  /** With the repair every position is defined and the result is the
      rotation the doc comment promises, for every seed of either sign. */
  lemma {:induction false} CorrectedOffsetMetadataRotates<T>(metadata: seq<T>, seed: int)
    ensures CorrectedOffsetMetadata(metadata, seed) == Defined(Rotate(metadata, seed))
  {
    var n := |metadata|;
    if n > 0 {
      var offset := Remainder(Remainder(seed, n).value + n, n).value;
      var r, rot := CorrectedOffsetMetadata(metadata, seed), Rotate(metadata, seed);
      forall index | 0 <= index < n
        ensures r[index] == Some(rot[index])
      {
        assert r[index] == Read(metadata, Remainder(index + offset, n));
        WrappedIndex(seed, index, n);
      }
      assert r == Defined(rot);
    }
  }

  /** The repaired index computation lands on `(index + seed) % n`. */
  lemma WrappedIndex(seed: int, index: nat, n: nat)
    requires n > 0
    ensures Remainder(index + Remainder(Remainder(seed, n).value + n, n).value, n)
      == Int((index + seed) % n)
  {
    NormalisedRemainder(seed, n);
    var offset := seed % n;
    assert Remainder(index + offset, n) == Int((index + offset) % n);
    ModAddLeft(seed, index, n);
    assert index + offset == offset + index;
  }

  /** The script's own call: seed 720823774 on the ten records gives offset
      4, so the result is records 4 to 9 followed by four `undefined`s, not
      the rotation 4, ..., 9, 0, ..., 3 the doc comment describes. A seed of
      -1 leaves position 0 `undefined` where the rotation has record 9. */
  lemma OffsetMetadataMissesWrapAround()
    ensures OffsetMetadata(METADATA, 720823774) == [
      Some(Item(4)), Some(Item(5)), Some(Item(6)), Some(Item(7)), Some(Item(8)),
      Some(Item(9)), None, None, None, None]
    ensures Rotate(METADATA, 720823774) == [
      Item(4), Item(5), Item(6), Item(7), Item(8),
      Item(9), Item(0), Item(1), Item(2), Item(3)]
    ensures OffsetMetadata(METADATA, -1)[0] == None && Rotate(METADATA, -1)[0] == Item(9)
  {
    OffsetMetadataNonNegativeSeed(METADATA, 720823774);
    RotateSplit(METADATA, 720823774);
    OffsetMetadataAt(METADATA, -1, 0);
  }
}
