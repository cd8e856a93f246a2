# offsetMetadata, modelled in Dafny

`randomize-metadata.js` reorders a fixed list of ten metadata records
(`{ id: 0 }` to `{ id: 9 }`) by a numeric seed. Its one function,
`offsetMetadata(metadata, seed)`, computes `offset = seed % metadata.length`
with JavaScript's truncating remainder. It then returns
`metadata.map((_, index) => metadata[index + offset])`, a new array of the
same length.

Its doc comment promises a wrap-around rotation,
`metadata[id] => metadata[(id + seed) % metadata.length]`. The body does not
reduce `index + offset` a second time. So reads past the end of the array,
and before its start when the seed is negative, give `undefined`.

This project models the function as the code computes it, and proves,
position by position and for seeds of either sign, where it agrees with
the promised rotation and where it does not.

- `arithmetic.dfy` (module `Arithmetic`): facts about Euclidean division
  and remainder that the other modules are proved from.
- `wrappers.dfy`: `Option`, where `None` stands for JavaScript's `undefined`.
- `js_number.dfy` (module `JsNumber`): the JavaScript number operations the
  function uses. A number is an integer or NaN. `Remainder` is JavaScript's
  truncating `%`, which gives NaN for a zero divisor. `Plus` is
  `index + offset`. `Read` is an array read at a computed index.
- `rotation.dfy` (module `Rotation`): the doc comment's rotation `Rotate`,
  with the non-negative modulus, and its algebra.
- `randomize_metadata.dfy` (module `RandomizeMetadata`): the `METADATA`
  records and `OffsetMetadata` itself, generic over the element type. It also
  holds the lemmas comparing `OffsetMetadata` with `Rotate`, and the repaired
  function `CorrectedOffsetMetadata`.

On an empty array the function raises no error: `seed % 0` is NaN, but
`map` over an empty array never reads it, so the result is `[]`. The model
takes the same route, with NaN modelled as a number.

`Rotate` reads the doc comment's `%` as the non-negative modulus. Taken
literally in JavaScript, the comment's formula also goes negative for
negative seeds.

## Model

| member | source | states |
|---|---|---|
| `JsNumber.Remainder` | randomize-metadata.js:24 | The offset is NaN exactly when the array is empty. Otherwise it lies strictly between `-n` and `n`. It is non-negative for a positive seed and non-positive for a negative seed. `seed - offset` is a multiple of `n`. |
| `JsNumber.RemainderUnique` | randomize-metadata.js:24 | Those four properties determine the offset: any value that has them is JavaScript's `seed % n`. |
| `JsNumber.NormalisedRemainder` | randomize-metadata.js:24 | Normalising the truncating remainder as `((seed % n) + n) % n` gives the non-negative modulus of `seed` by `n`. |
| `RandomizeMetadata.OffsetMetadata` | randomize-metadata.js:23-27 | The result has the input's length for every seed, so an empty input gives an empty result. Every defined entry is an element of the input. |
| `RandomizeMetadata.OffsetMetadataAt` | randomize-metadata.js:24-26 | Position `i` holds `metadata[i + offset]` when `0 <= i + offset < n`, and `undefined` otherwise. Nothing wraps around, and `abs(offset) < n`. |
| `RandomizeMetadata.OffsetMetadataNonNegativeSeed` | randomize-metadata.js:24-26 | For a seed of at least 0, with `k = seed mod n`, the result is `metadata[k..]` followed by `k` reads of `undefined`. |
| `RandomizeMetadata.OffsetMetadataNegativeSeed` | randomize-metadata.js:24-26 | For a negative seed, with `k = (-seed) mod n`, the result is `k` reads of `undefined` followed by `metadata[..n-k]` in order. |
| `RandomizeMetadata.OffsetMetadataAgreesBeforeWrap` | randomize-metadata.js:17-26 | For a seed of at least 0, the first `n - k` positions equal the doc comment's rotation. The last `k` positions, where the rotation would wrap, are `undefined`. |
| `RandomizeMetadata.OffsetMetadataAgreesAfterWrap` | randomize-metadata.js:17-26 | For a negative seed, with `k = (-seed) mod n`, the first `k` positions are `undefined`, where the rotation wraps to the end of the input. The remaining positions equal the rotation. |
| `RandomizeMetadata.OffsetMetadataIsRotationIff` | randomize-metadata.js:17-26 | For non-empty input, these three are equivalent: no position is `undefined`; the result is the promised rotation; the seed is a multiple of `n`. In that case the result is the input in its original order. |
| `RandomizeMetadata.OffsetMetadataMissesWrapAround` | randomize-metadata.js:29 | The script's own call, seed 720823774 on the ten records, gives records 4 to 9 then four `undefined`s. The rotation would give 4 to 9 then 0 to 3. Seed -1 leaves position 0 `undefined`, where the rotation has record 9. |
| `RandomizeMetadata.CorrectedOffsetMetadata` | randomize-metadata.js:23-27 | The repaired function keeps the input's length. |
| `RandomizeMetadata.CorrectedOffsetMetadataRotates` | randomize-metadata.js:17 | The repaired function, still written with JavaScript's `%`, equals the doc comment's rotation for every seed of either sign, with no `undefined`. |
| `Rotation.Rotate` | randomize-metadata.js:17 | The promised rotation keeps the input's length. |
| `Rotation.RotateSplit` | randomize-metadata.js:17 | Rotating by `seed` cuts the input at `seed mod n` and moves the tail to the front. |
| `Rotation.RotatePermutes` | randomize-metadata.js:17 | A rotation has the same multiset of elements as its input, so it is a permutation. |
| `Rotation.RotateNormalises` | randomize-metadata.js:17 | Rotating by `seed` equals rotating by `seed mod n`. |
| `Rotation.RotatePeriodic` | randomize-metadata.js:17 | Rotating by `seed + n` equals rotating by `seed`. |
| `Rotation.RotateZero` | randomize-metadata.js:17 | A seed of 0 gives back the input. |
| `Rotation.RotateCompose` | randomize-metadata.js:17 | Rotating by `a` and then by `b` equals rotating once by `a + b`. |
| `Rotation.RotateInverse` | randomize-metadata.js:17 | Rotating by `seed` and then by `-seed` gives back the input. |

## Left out

- The `console.log` of the script's call (randomize-metadata.js:29) is output only. The call itself appears as the concrete lemma `OffsetMetadataMissesWrapAround`.
- The seed is a mathematical integer. Fractional, infinite and NaN seeds, and seeds beyond 2^53, are not modelled. A fractional offset generally makes the reads `undefined`.
- JavaScript's `-0` is identified with `0`. It arises for a negative multiple of `n`, and it reads the same array slot.
- The records are never inspected, so `OffsetMetadata` is generic over the element type.
- Arrays are modelled as immutable sequences. That the input array is not modified, and that `map` returns a fresh array, holds by construction. It is not stated as a contract.
- The input is taken as a dense array whose elements are all defined. Holes in a sparse array, which `map` skips and keeps in its result, are not modelled. Neither is an element that is itself `undefined`, which JavaScript cannot tell apart from an out-of-range read, while the model would keep it apart from `None`.

## Findings

| source | as written | input that shows it | evidently intended | confidence | as-written member | corrected member |
|---|---|---|---|---|---|---|
| randomize-metadata.js:24-26 | `metadata[index + offset]` with the truncating `offset = seed % length`, not reduced again | Seed 720823774 on the ten records leaves positions 6 to 9 `undefined`; seed -1 leaves position 0 `undefined` | `metadata[(index + seed) mod length]`, the wrap-around rotation of the doc comment at line 17 | high; not executed | `RandomizeMetadata.OffsetMetadataMissesWrapAround` | `RandomizeMetadata.CorrectedOffsetMetadataRotates` |
