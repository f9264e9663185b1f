# harsh: a verified model of the hashids codec

`harsh` turns a sequence of unsigned 64-bit integers into a short string (a
hashid) and back again. A caller-chosen salt drives every permutation, so the
output is hard to guess, though the scheme is not cryptographic. This project
models the codec's core in Dafny and proves its contracts:

- `Bytes`: bytes, `u64`, `Option`/`Result`, and the slice operations the
  codec uses: `position`, `rposition`, `filter`, `split`, swaps. It also holds
  the duplicate-freedom and disjointness predicates the proofs rely on.
- `Shuffle`: the salt-keyed Fisher–Yates variant.
  - `Shuffled` specifies it as a function.
  - `Shuffle.Shuffle` implements it in place on an `array<byte>` and is
    proved equal to `Shuffled`.
- `Math`: `wrapping_pow`, square-and-multiply modulo 2^64, proved to compute
  `base^exp mod 2^64`.
- `Errors`: the decode error kinds.
- `Codec`:
  - the `Harsh` configuration;
  - the helpers `create_nhash`, `hash` and `unhash`;
  - `encode` and `decode`, each as a specification function plus an
    imperative method proved to compute it.
  - The main theorems are the round trip, injectivity, the length guarantee
    and the integrity check in `decode`.
- `HexCodec`: `encode_hex` and `decode_hex`, which read hex strings as
  12-digit chunks behind a leading `1`.
- `Builder`:
  - `HarshBuilder` and its setters;
  - `unique_alphabet`, `alphabet_and_separators`, `guards` and `build`;
  - the proof that a build's digits, separators and guards are
    duplicate-free, pairwise disjoint and drawn from the alphabet;
  - the proof that the default configuration decodes every hashid it
    encodes.
- `Vectors`: the source's unit-test values that the prover can evaluate:
  - the checksum of `[1, 2, 3]`;
  - `hash(22, "a..z")`;
  - the shuffle of `"asdfzxcvqwer"` with salt `"1234"`.

Strings are byte sequences. Every Rust function that loops or mutates is a
Dafny `method` with loop invariants. Its `ensures` ties the result to a
specification function, and the lemmas are stated about those functions.

Where the behaviour of the code differs from its prose description, the
model follows the code:
- A space in a custom alphabet is rejected with `IllegalCharacter(' ')`.
- `unhash` adds its terms without an overflow check. The model keeps that
  fold twice: unbounded as `UnhashAsWritten`, and wrapping as a release build
  runs it, as `UnhashWrapping`. `DecodedAsWritten` is `decode` over the
  wrapping fold. The codec itself decodes with the checked fold `Unhash`;
  `DecodedAsWrittenAgrees` states exactly where the two decoders differ
  (see Findings and the `Codec.Decoded` line under Left out).
- `build` never produces the `Separator` error.

`shuffle` (crate root) is specified here from its algorithm:
- walk `i` from the last index down to 1;
- `v` cycles through the salt and `p` sums the salt bytes read;
- swap `i` with `(salt[v] + v + p) mod i`.

The model is pinned to the source's own shuffle test (`Vectors.ShuffleVector`).

## Model

| member | source | states |
|---|---|---|
| Shuffle.Shuffled | src/harsh.rs:116 | a shuffle is a permutation of its input (same length and multiset); an empty salt or fewer than two bytes leaves the input unchanged |
| Shuffle.Shuffle | src/harsh.rs:616-623 | shuffling the array in place leaves exactly `Shuffled(old contents, salt)` in it |
| Shuffle.ShuffledNoDup | src/builder.rs:181 | shuffling a duplicate-free sequence keeps it duplicate-free |
| Shuffle.ShuffledMembers | src/builder.rs:198 | a byte is in the shuffled sequence exactly when it is in the original |
| Shuffle.ShuffleStep | src/harsh.rs:616-623 | one swap of index `i` with `(n + v + p) mod i` targets an index below `i` and advances the shuffle by one step |
| Math.WrappingPow | src/math.rs:4-27 | the result is `base^exp mod 2^64` for every base and exponent, with the exponent 0 giving 1 |
| Math.StripEven | src/math.rs:9-12 | the first loop ends with an odd exponent `e` and a base `b` such that `b^e ≡ base^exp (mod 2^64)` |
| Math.FoldBits | src/math.rs:14-26 | the second loop of square-and-multiply returns `base^exp mod 2^64` |
| Codec.NHashIsSum | src/harsh.rs:260-266 | the checksum fold equals the sum of `values[i] mod (i + 100)` over all indices |
| Codec.HashOf | src/harsh.rs:268-281 | a hash has at least one digit, and every digit is a byte of the alphabet |
| Codec.Hash | src/harsh.rs:268-281 | the digit loop (push the low digit, divide, reverse at the end) returns `HashOf(value, alphabet)` |
| Codec.HornerHash | src/harsh.rs:268-281 | reading a hash back as a numeral in the alphabet's base, most significant digit first, gives the value |
| Codec.HashLengthBound | src/harsh.rs:268-281 | a hash has no leading zero digit: the base raised to one less than its digit count does not exceed the value |
| Codec.UnhashHash | src/harsh.rs:283-290 | `unhash(hash(v))` is `Some(v)` for every `u64` value and every duplicate-free alphabet of at least two bytes |
| Codec.UnhashAbsent | src/harsh.rs:285 | a byte of the input missing from the alphabet makes `unhash` return `None` |
| Codec.UnhashOverflow | src/harsh.rs:286-288 | a place value (the base to the power `len - 1`) or a numeral that does not fit in 64 bits makes `unhash` return `None` |
| Codec.UnhashIsValue | src/harsh.rs:283-290 | the checked fold is the numeral's value when every byte is a digit and it fits in 64 bits, and `None` otherwise |
| Codec.UnhashPrefixAsWrittenSum | src/harsh.rs:284-289 | with every term defined, the fold as written (unchecked addition) sums `digit * base^(len - 1 - idx)` |
| Codec.UnhashAsWrittenOverflows | src/harsh.rs:288 | on a 44-byte alphabet, a 12-digit input passes every checked power and product but sums to at least 2^64, so the unchecked addition overflows; the wrapping fold accepts it and the corrected `Unhash` returns `None` |
| Codec.UnhashFoldsAgree | src/harsh.rs:284-289 | the unchecked, wrapping and checked folds fail on the same inputs; otherwise the wrapping fold is the unbounded sum modulo 2^64 and the checked fold is the sum when it fits in 64 bits, `None` when it does not |
| Codec.UnhashAgree | src/harsh.rs:283-290 | a segment the checked `unhash` accepts has the same value under the wrapping `unhash`, and one the wrapping `unhash` rejects is rejected by the checked one |
| Codec.ReshuffledAlphabet | src/harsh.rs:108-116 | each per-value reshuffle keeps the alphabet's bytes and its duplicate-freedom |
| Codec.ReshuffledPermutes | src/harsh.rs:110-116 | every per-value reshuffle is a permutation of the configured alphabet |
| Codec.Body | src/harsh.rs:99-126 | the unpadded hashid has at least two bytes and starts with the lottery byte, the alphabet's byte at `nhash` modulo the alphabet length |
| Codec.Wrapped | src/harsh.rs:144-164 | the padding loop never shortens the buffer and ends with at least the minimum length |
| Codec.WrappedLength | src/harsh.rs:144-164 | padding a buffer shorter than the minimum gives exactly the minimum length |
| Codec.Encoded | src/harsh.rs:94-97 | a hashid is empty exactly when there are no values |
| Codec.Encode | src/harsh.rs:94-167 | the imperative encoder (in-place reshuffles, guard insertion, padding loop) returns `Encoded(h, values)` |
| Codec.AddGuards | src/harsh.rs:128-142 | the guard step returns the buffer with a front guard and, if still short, a back guard, each chosen by the checksum plus a buffer byte |
| Codec.Pad | src/harsh.rs:144-164 | the padding loop returns `Wrapped(alphabet, buffer, length)` |
| Codec.EncodedLength | src/harsh.rs:128-164 | a body at least the minimum length is returned as it is; a shorter one is padded to exactly the minimum; so every hashid is at least the minimum length |
| Codec.StripGuards | src/harsh.rs:173-179 | removing everything up to the first guard and from the last guard on never lengthens the input |
| Codec.Decoded | src/harsh.rs:170-215 | `decode` returns values only when they encode back to the very input, so appended garbage is rejected; an input shorter than two bytes is `Err(Decode(Hash))` |
| Codec.Decode | src/harsh.rs:170-215 | the imperative decoder (in-place reshuffle per segment, stop at the first failed segment) returns `Decoded(h, input)` |
| Codec.DecodedAsWritten | src/harsh.rs:170-215 | `decode` over the wrapping fold returns values only when they encode back to the very input |
| Codec.DecodedAsWrittenAgrees | src/harsh.rs:185-213 | on a well-formed configuration the checked decode returns what the source's decode returns, except where a segment's sum overflows: there the source gives `Err(Decode(Hash))` and the checked decode `Err(Decode(Value))` |
| Codec.UnhashSegments | src/harsh.rs:185-203 | the segment loop returns the unhash of each segment over its alphabet, or `None` at the first failure |
| Codec.RoundTrip | src/harsh.rs:338-382 | on a well-formed configuration, decoding the hashid of any non-empty sequence returns that sequence |
| Codec.EncodedInjective | src/harsh.rs:205-213 | two non-empty sequences have the same hashid exactly when they are equal |
| Codec.BodyAvoidsGuards | src/harsh.rs:108-126 | no guard byte occurs in the unpadded hashid, so stripping guards recovers it |
| Codec.StripEncoded | src/harsh.rs:173-179 | stripping the guards and padding from a hashid gives back its unpadded body |
| HexCodec.DigitValue | src/harsh.rs:225 | a hex digit, upper or lower case, has a value below 16 |
| HexCodec.Lower | src/harsh.rs:245 | lower-casing a hex string keeps its length and lower-cases each digit |
| HexCodec.Chunks | src/harsh.rs:221 | a hex string is cut into no chunks exactly when it is empty |
| HexCodec.ChunkParses | src/harsh.rs:222-226 | a chunk of at most 12 bytes parses, behind a leading `1`, exactly when it is all hex digits, and its value is that numeral |
| HexCodec.ChunkValues | src/harsh.rs:219-227 | when every chunk parses, there is one value per chunk |
| HexCodec.HexChunks | src/harsh.rs:218-251 | the chunks of a string parse exactly when it is all hex, and printing their values without the leading `1` gives the lower-cased string |
| HexCodec.EncodedHexFails | src/harsh.rs:229-232 | `encode_hex` fails exactly when the input is not all hex digits, and then the error is `Hex` |
| HexCodec.DecodedHex | src/harsh.rs:236-239 | `decode_hex` fails exactly when `decode` fails, with the same error |
| HexCodec.DecodeHex | src/harsh.rs:236-251 | the imperative hex decoder returns `DecodedHex(h, input)` |
| HexCodec.PrintValues | src/harsh.rs:241-250 | the print loop appends each value's lower-case hex form without its first digit, giving `HexOf(values)` |
| HexCodec.HexOfSnoc | src/harsh.rs:244-248 | the printed form of `values + [v]` is the printed form of `values` followed by `v`'s digits after the first |
| HexCodec.HexRoundTrip | src/harsh.rs:475-536 | on a well-formed configuration, decoding the hex hashid of a non-empty hex string gives the string lower-cased |
| Builder.New | src/builder.rs:54-61 | a new builder has no salt, alphabet or separators and minimum length 0 |
| Builder.WithSalt | src/builder.rs:67-70 | sets the salt and leaves every other field as it was |
| Builder.WithAlphabet | src/builder.rs:76-79 | sets the alphabet and leaves every other field as it was |
| Builder.WithSeparators | src/builder.rs:85-88 | sets the separators and leaves every other field as it was |
| Builder.WithLength | src/builder.rs:93-96 | sets the minimum length and leaves every other field as it was |
| Builder.Run | src/builder.rs:4 | a run of `n` consecutive byte values starting at `first`, as in the default alphabet |
| Builder.DefaultAlphabetNoDup | src/builder.rs:4 | the default alphabet has 62 bytes and no duplicate |
| Builder.DefaultSeparatorsNoDup | src/builder.rs:5 | the default separators have no duplicate |
| Builder.Dedup | src/builder.rs:135-147 | first-seen deduplication gives a duplicate-free sequence with exactly the input's bytes |
| Builder.DedupOrder | src/builder.rs:143-146 | deduplication keeps the bytes in the order of their first occurrence |
| Builder.DistinctAlphabet | src/builder.rs:124-156 | a successful result is duplicate-free and has at least 16 bytes |
| Builder.DistinctAlphabetErrors | src/builder.rs:138-153 | a space gives `IllegalCharacter(' ')` exactly when one is present; `AlphabetLength` exactly when there is no space and fewer than 16 distinct bytes; otherwise the distinct bytes of the input |
| Builder.UniqueAlphabet | src/builder.rs:124-156 | the imperative deduplication loop returns `DistinctAlphabet(alphabet)` |
| Builder.SeparatorTarget | src/builder.rs:184-187 | the target `ceil(a / 3.5)`, with 1 raised to 2, is zero only for no digits, and otherwise at least 2 and the least count reaching 3.5 digits per separator |
| Builder.Rebalance | src/builder.rs:189-195 | a rebalance leaves exactly the target number of separators |
| Builder.Rebalanced | src/builder.rs:183-196 | if the test `s == 0 or 2a > 7s` holds, the separators reach the target and no byte is lost; otherwise digits and separators are unchanged |
| Builder.RebalanceParts | src/builder.rs:183-196 | the imperative rebalance returns `Rebalanced(alphabet, separators)` |
| Builder.RebalanceRule | src/builder.rs:170-198 | after the partition, the separators number exactly the target when a rebalance was due; otherwise they are the shuffled filtered candidates and every digit is kept |
| Builder.PartitionFits | src/builder.rs:183-195 | filtering leaves enough bytes for a rebalance to reach its target |
| Builder.AlphabetAndSeparators | src/builder.rs:158-200 | the imperative partition (filter, shuffle, rebalance, shuffle) returns `Partitioned(separators, alphabet, salt)` |
| Builder.PartitionedSplit | src/builder.rs:158-200 | digits and separators come from the alphabet, are disjoint, the digits are duplicate-free, and there are separators whenever there are digits |
| Builder.RebalancedSplit | src/builder.rs:189-195 | a rebalance keeps digits duplicate-free, disjoint from the separators and within the original bytes |
| Builder.FilterSplit | src/builder.rs:170-179 | the filtered separators are bytes of the alphabet, and the remaining digits are duplicate-free and disjoint from them |
| Builder.GuardCount | src/builder.rs:205 | `ceil(a / 12)` lies between 1 and `a` for a positive `a` |
| Builder.Guards | src/builder.rs:202-215 | the imperative guard split returns `GuardSplit(alphabet, separators)` |
| Builder.GuardSplitParts | src/builder.rs:205-214 | there are `ceil(a / 12)` guards, taken from the front of the digits when there are at least 3, else from the front of the separators |
| Builder.GuardSplitDisjoint | src/builder.rs:202-215 | guards, digits and separators stay pairwise disjoint and within their sources |
| Builder.Built | src/builder.rs:101-121 | a build fails exactly when the alphabet check does, with the same error |
| Builder.Build | src/builder.rs:101-121 | the imperative build returns `Built(b)` |
| Builder.BuiltPassesThrough | src/builder.rs:109-120 | the built configuration has the builder's minimum length and its salt, or the empty salt |
| Builder.BuiltNoSeparatorError | src/builder.rs:19 | no builder yields the `Separator` error |
| Builder.BuiltWellFormed | src/builder.rs:101-215 | a build's digits are duplicate-free, digits, separators and guards are pairwise disjoint and drawn from the distinct alphabet, so an encodable build is well-formed |
| Builder.BuiltEncodable | src/builder.rs:101-121 | an alphabet without a zero byte that leaves at least four digits after filtering builds an encodable configuration |
| Builder.DefaultBuildWellFormed | src/harsh.rs:66-70 | the default alphabet and separators always build, whatever the salt and minimum length, and the result is well-formed |
| Builder.DefaultRoundTrip | src/builder.rs:128-132 | with the default alphabet and separators, any salt and minimum length, every non-empty sequence decodes from its hashid |
| Vectors.NHashVector | src/harsh.rs:603-608 | the checksum of `[1, 2, 3]` is 6 |
| Vectors.HashVector | src/harsh.rs:610-614 | `hash(22, "abcdefghijklmnopqrstuvwxyz")` is `"w"` |
| Vectors.ShuffleVector | src/harsh.rs:616-623 | `"asdfzxcvqwer"` shuffled with salt `"1234"` is `"vdwqfrzcsxae"` |

## Left out

- Characters and UTF-8: strings are byte sequences, the `as char` conversions are the identity on bytes, and `from_utf8` cannot fail.
- `from_str_radix`: modelled as a digit table that accepts both cases of `a`–`f`.
- Floating point: the thresholds `a / s > 3.5`, `ceil(a / 3.5)` and `ceil(a / 12)` are their exact integer forms `2a > 7s`, `(2a + 6) / 7` and `(a + 11) / 12`. These agree with the `f64` results for every length below 2^50.
- `HashSet` in `unique_alphabet`: modelled as membership in the output sequence, which holds the same bytes.
- Codec.NHash: computed on unbounded integers. The `u64` fold cannot overflow for fewer than 2^32 values, because term `i` is below `i + 100`.
- Codec.Encoded: does not model `usize` overflow of `nhash + buffer[0]`, of the separator modulus `first byte + idx`, or of the `i32` cast of `excess`. Each would need inputs or lengths beyond 2^31.
- Codec.Unhash: does not model the `u32` cast of the exponent, which truncates only for segments longer than 2^32 bytes.
- Codec.CanEncode: a sufficient condition for `encode` to finish without a panic, not a necessary one. It asks for:
  - an alphabet of at least two bytes;
  - for several values, separators and no zero byte in the alphabet;
  - guards whenever the minimum length exceeds 2.

  `Encoded` and `Encode` therefore leave out inputs the source encodes:
  - several values over an alphabet holding byte 0, when the first value's hash does not start with byte 0. The separator modulus `last[0] + idx` (src/harsh.rs:122) is zero only at index 0 with that first byte.
  - a configuration without guards whose unpadded hashid already reaches the minimum length, since guards are indexed only for shorter ones (src/harsh.rs:128-141);
  - a one-byte alphabet with every value 0, which `hash` writes as one digit.
- Codec.Decoded: decodes with the checked fold `Unhash`. On a segment whose terms fit in `u64` but whose sum does not (src/harsh.rs:288), the source panics in a debug build. In a release build it wraps, and the re-encode check then answers `Err(Decode(Hash))`, where `Decoded` answers `Err(Decode(Value))`. The release behaviour is `DecodedAsWritten`, and `DecodedAsWrittenAgrees` proves this is the only difference; the debug-build panic is not modelled.
- Codec.Decoded: requires `Encodable` because `decode` re-encodes its result, which needs separators and guards. A configuration without them may panic in the source; the model does not say when it would not.
- Builder.Built: a custom alphabet whose digits fall below two after filtering builds in the source but cannot encode. The model builds it too, but `BuiltEncodable` and `BuiltWellFormed` only speak about configurations large enough to encode.
- `alphabet_and_separators` with a single distinct byte that is not a separator candidate panics in the source. A build cannot reach this, because it requires 16 distinct bytes; the partition function requires `CanPartition` instead.
- Builder.Guards: modelled on sequence values returning three parts, not on two vectors drained in place.
- The remaining unit-test vectors are stated only through the universal theorems that cover them (`RoundTrip`, `DefaultRoundTrip`, `HexRoundTrip`, `EncodedLength`, `PartitionedSplit`), not evaluated on their concrete bytes. These are:
  - the alphabet/separator vectors at src/builder.rs:219-260;
  - `"laHquq"`, `"GlaHquq0"` and `"9LGlaHquq06D"`;
  - `"kRNrpKlJ"`;
  - `"ejR"`.
  Each needs tens of shuffle steps over 44–62-byte alphabets, which is beyond what the prover can evaluate.
- The `Display` and `Error` impls, src/error.rs, src/lib.rs, the examples, the benchmarks and the property tests are not part of this model. `Harsh::builder` is `Builder.New`.

## Findings

| source | as written | input that shows it | evidently intended | confidence | as-written member | corrected member |
|---|---|---|---|---|---|---|
| src/harsh.rs:288 | the fold's closure adds each term with a plain `a + c`, so it adds the terms of `unhash` without an overflow check, while the power and the product beside it are checked | on a 44-byte alphabet, the segment of digit 15 followed by eleven copies of the last digit: every term fits in `u64`, but their sum is `16 * 44^11 - 1 >= 2^64`, which panics in a debug build and wraps to a wrong value in a release build, which `decode` then rejects as `Decode(Hash)` | a checked addition, so that the segment fails to unhash and `decode` reports `Decode(Value)` | not executed | Codec.UnhashAsWrittenOverflows | Codec.UnhashIsValue |
