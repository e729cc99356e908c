# Bloom filter for malicious URLs, modelled in Dafny

The program keeps a Bloom filter of 1000001 bits. The constructor loads it
from a list of known-bad strings. `contains` then answers "possibly present"
or "certainly absent" for a query string. Each string owns three bit
indices ("slots"), one from each of three string hashes:

- a polynomial rolling hash with base p = 31 and modulus m = 1000000009;
- DJB2, `hash * 33 + c` from the seed 5381;
- SDBM, `hash * 65599 + c` from 0, written with shifts.

The DJB2 and SDBM values are reduced modulo m. All three values are then
reduced modulo the size of the bitset.

The project has four modules:

- `CInt` (`cint.dfy`) defines the C++ integer and character semantics the
  hashes depend on.
  - A `char` is signed, -128..127.
  - `unsigned long long` arithmetic wraps modulo 2^64 (`ToULong`).
    `ToULong` itself has no postcondition, because it is applied in almost every
    proof. The lemmas `ToULongOfInRange` and `ToULongCongruent` state its rule.
  - A `long long` value is a subset type. Every signed intermediate result
    therefore carries a proof that it does not overflow, which would be
    undefined behaviour.
  - The signed `%` truncates toward zero (`Rem`).
- `Hashes` (`hashes.dfy`) holds the three hash functions.
  - Each is a method with the source's loop.
  - Each loop is proved against a recursive specification that consumes the
    string one char at a time.
  - Lemmas relate each specification to its textbook formula.
- `Bloom` (`bloom_filter.dfy`) holds the filter.
  - The abstract state is a sequence of N bits, with the specification
    functions `Slots`, `Insert`, `Mem`, `Load` and `Matching`.
  - The filter's properties are lemmas about those functions.
  - The class `BloomFilter` keeps the bits in an `array<bool>` that `Add`
    updates in place. Each of its methods is proved against the
    specification functions.
- `Scenarios` (`scenarios.dfy`) works through the filter on concrete strings.

### Where the code differs from its own comment

The comment above `polynomial_hash` gives the hash as
`(s[0] + s[1]*p + s[2]*p^2 + ...) % m`. The code can differ for a char below
'`' (digits, '.', '/', upper-case letters).

- For such a char, the term `(c - 'a' + 1) * p_pow` is a negative
  `long long`.
- It is added to the `unsigned long long` accumulator, so it wraps modulo 2^64.
- When the running sum `hash + term` is still non-negative, the unsigned sum
  wraps back to the exact value and the result is the textbook one.
- When the running sum is negative, it stays wrapped modulo 2^64 before `% m`
  is taken, and the result is not the textbook sum modulo m.
- For printable chars this case is certain when the first char below '`' is
  among the first seven. Each printable char from '`' on has a digit of at
  most 30 < p. At index i <= 6, `p_pow` is still exactly 31^i, because
  31^i < m. The hash so far is then at most 31^i - 1, and the negative term is
  at most -31^i.
- With other chars the running sum can stay non-negative. For example, the
  two chars 127 and '_' give a running sum of 31 - 31 = 0.

The model follows the code. `Hashes.PolyRunIsPolynomial` proves that the two
agree when no term is negative. `Hashes.NegativeTermWraps` exhibits the
one-char string "." on which they differ.

## Model

| member | source | states |
|---|---|---|
| CInt.Rem | main.cpp:28 | The C++ `%` on `long long`: the remainder has the sign of the dividend and a smaller magnitude than the divisor; `LONG_MIN % -1` and division by zero are excluded |
| CInt.ToULongOfInRange | main.cpp:27 | The conversion to `unsigned long long` leaves a value that is already in [0, 2^64) unchanged |
| CInt.ToULongCongruent | main.cpp:27 | The converted value differs from the original by a multiple of 2^64; together with its range [0, 2^64) this is the C++ rule for the conversion |
| CInt.AddU | main.cpp:50 | Unsigned `a + b` is the exact sum when that is below 2^64 |
| CInt.SubU | main.cpp:70 | Unsigned `a - b` is the exact difference when a >= b |
| CInt.UnsignedWrapsOnce | main.cpp:70 | Otherwise the unsigned sum or difference wraps around exactly once: the sum loses 2^64 and the difference gains 2^64 |
| CInt.ShiftLeftU | main.cpp:50 | Unsigned `a << k` for k < 64 is `a * 2^k` when no bit is shifted out of the top |
| Hashes.MulLL | main.cpp:27-28 | The signed `*` on `long long` requires the product to be in range, because overflow is undefined behaviour; the magnitude of the result is the product of the magnitudes |
| Hashes.Digit | main.cpp:27 | `c - 'a' + 1` has magnitude at most 224 for a signed char, is non-negative exactly when c >= '`', and is 1 for 'a' |
| Hashes.UnsignedModulus | main.cpp:27 | In `hash % m` the modulus is converted to `unsigned long long`; it is positive, and equal to m when m > 0 |
| Hashes.HashUpdate | main.cpp:27 | One update of `hash` stays below the unsigned modulus |
| Hashes.PowerUpdate | main.cpp:28 | One update of `p_pow` keeps its magnitude within the bound that rules out signed overflow of `p_pow * p` and `(c - 'a' + 1) * p_pow` |
| Hashes.PolyStep | main.cpp:25-29 | One loop iteration keeps both accumulators in their bounds |
| Hashes.PolyRun | main.cpp:21-31 | After any number of iterations `hash` is below the modulus and `p_pow` is within its bound |
| Hashes.PolynomialHash | main.cpp:21-31 | `polynomial_hash` returns a value below m for m > 0, and 0 for the empty string |
| Hashes.ComputePolynomialHash | main.cpp:21-31 | The loop computes `PolynomialHash`, with no signed overflow on the way |
| Hashes.PolyRunSnoc | main.cpp:25-29 | One more char is one more loop iteration |
| Hashes.Term | main.cpp:27 | The term `(c - 'a' + 1) * p_pow` is within the no-overflow bound, and it is negative exactly when the digit and the power have opposite signs |
| Hashes.Polynomial | main.cpp:14 | The textbook sum of the comment, over the mathematical integers: 0 for the empty string and the digit itself for a one-char string |
| Hashes.PolyRunPower | main.cpp:24-28 | For p >= 0 and m > 0, `p_pow` stays in [0, m) after its initial 1, and is congruent to p^i modulo m |
| Hashes.PolyRunIsPolynomial | main.cpp:10-31 | For p >= 0, m > 0 and no char below '`', the hash is the sum of `(c - 'a' + 1) * p^i` modulo m, as the comment states |
| Hashes.HashStepIsPolynomial | main.cpp:27 | A non-negative term keeps `hash` equal to the textbook partial sum modulo m |
| Hashes.CongruentStep | main.cpp:27 | Replacing the running power by a congruent value does not change the updated hash modulo m |
| Hashes.NegativeTermWraps | main.cpp:27 | For "." with p = 31 and m = 1000000009 the hash is 688856403, while the textbook value is 999999959 |
| Hashes.HashUpdateWithoutWrap | main.cpp:27 | With a non-negative term, the unsigned sum does not wrap and the update is `(hash + term) % m` |
| Hashes.HashUpdateValue | main.cpp:27 | For m > 0 the update is the sum wrapped modulo 2^64 and then reduced modulo m |
| Hashes.PowerUpdateWithoutSign | main.cpp:28 | For non-negative operands the truncating remainder is the mathematical one and is non-negative |
| Hashes.Djb2Snoc | main.cpp:48-51 | DJB2 of s + [c] is `Djb2(s) * 33 + c` modulo 2^64 |
| Hashes.Djb2 | main.cpp:45-53 | DJB2 as its comment states it: 5381 for the empty string, `5381 * 33 + c` for a one-char string |
| Hashes.Djb2Round | main.cpp:50 | `((hash << 5) + hash) + c` is `hash * 33 + c` modulo 2^64, as the comment on that line says |
| Hashes.ComputeDjb2 | main.cpp:45-53 | The loop computes `Djb2`; the empty string gives 5381 |
| Hashes.Djb2IsHorner | main.cpp:43-53 | DJB2 is the exact value `5381 * 33^n + s[0] * 33^(n-1) + ... + s[n-1]` modulo 2^64 |
| Hashes.SdbmSnoc | main.cpp:68-71 | SDBM of s + [c] is `Sdbm(s) * 65599 + c` modulo 2^64 |
| Hashes.Sdbm | main.cpp:65-73 | SDBM as its comment states it: 0 for the empty string, the char converted to `unsigned long long` for a one-char string |
| Hashes.SdbmRound | main.cpp:70 | `c + (hash << 6) + (hash << 16) - hash` is `hash * 65599 + c` modulo 2^64, the formula of the comment |
| Hashes.ComputeSdbm | main.cpp:65-73 | The loop computes `Sdbm`; the empty string gives 0 |
| Hashes.SdbmIsHorner | main.cpp:63-73 | SDBM is the exact value `s[0] * 65599^(n-1) + ... + s[n-1]` modulo 2^64 |
| Bloom.FilterParamsSafe | main.cpp:78-79 | With p = 31 and m = 1000000009 no intermediate product of the polynomial hash can overflow `long long`, for any string |
| Bloom.Slots | main.cpp:106-111 | A string has three slots, each below the bitset size 1000001 |
| Bloom.Empty | main.cpp:82-85 | The bitset starts with all 1000001 bits clear |
| Bloom.Insert | main.cpp:104-112 | `add` keeps the bitset size |
| Bloom.Mem | main.cpp:114-121 | `contains(s)` holds exactly when every slot of s is set |
| Bloom.Load | main.cpp:85-95 | Bulk loading keeps the bitset size |
| Bloom.Matching | main.cpp:132-141 | Every line collected by `test` is one of the input lines and is present in the filter |
| Bloom.InsertSetsSlots | main.cpp:104-112 | After `add(s)` a bit is set exactly when it was set before or it is a slot of s: no other bit changes and no bit is cleared |
| Bloom.InsertCovers | main.cpp:109-111 | `add` only sets bits |
| Bloom.MemCovered | main.cpp:114-121 | A string reported present stays present when more bits are set |
| Bloom.LoadCovers | main.cpp:85-95 | Bulk loading only sets bits |
| Bloom.LoadAppend | main.cpp:85-95 | Loading one batch and then another is loading the concatenation |
| Bloom.NoFalseNegatives | main.cpp:104-121 | After `add(s)`, `contains(s)` holds, and it still holds after any further adds |
| Bloom.LoadRemembers | main.cpp:85-121 | Every bulk-loaded line is reported present |
| Bloom.InsertIdempotent | main.cpp:109-111 | Adding a string twice gives the same bits as adding it once |
| Bloom.InsertCommutes | main.cpp:109-111 | Two adds commute |
| Bloom.LoadSetsSlots | main.cpp:85-95 | After bulk loading, a bit is set exactly when it was set before or it is a slot of some loaded line |
| Bloom.LoadOrderIndependent | main.cpp:85-95 | The bits after bulk loading depend only on the set of loaded lines, not on their order or on repetitions |
| Bloom.EmptyHasNoMembers | main.cpp:85-120 | On the freshly constructed filter `contains` is false for every string, the empty string included |
| Bloom.MatchingExactly | main.cpp:132-141 | A line is reported by `test` exactly when it is among the lines and `contains` holds for it |
| Bloom.MatchingBounded | main.cpp:132-141 | `test` never reports more lines than it was given |
| Bloom.BloomFilter.constructor | main.cpp:85-95 | The constructor's bits are the all-clear bitset with every line added in order, and `size` is the number of lines |
| Bloom.BloomFilter.Add | main.cpp:104-112 | The new bits are the old bits with the three slots of s set |
| Bloom.BloomFilter.Contains | main.cpp:114-121 | The result is true exactly when all three slots of s are set |
| Bloom.BloomFilter.Test | main.cpp:123-143 | `maliciousUrls` is the in-order subsequence of lines present in the filter, `positives` is its length and `positives + negatives` is the number of lines; the method has no `modifies` clause, so the bits are unchanged |
| Scenarios.PolyRunSnocValue | main.cpp:27-28 | One iteration of the polynomial hash with the filter's parameters, as a concrete value |
| Scenarios.Djb2SdbmSlots | main.cpp:107-111 | The DJB2 and SDBM slots of a string follow from its two hash values |
| Scenarios.EvilComDjb2 | main.cpp:45-53 | DJB2 of "evil.com" is 7572345869776258 |
| Scenarios.EvilComSdbm | main.cpp:65-73 | SDBM of "evil.com" is 1228690785140581383 |
| Scenarios.SafeComDjb2 | main.cpp:45-53 | DJB2 of "safe.com" is 7572915281442961 |
| Scenarios.SafeComSdbm | main.cpp:65-73 | SDBM of "safe.com" is 7209870630618926880 |
| Scenarios.EvilComScenario | main.cpp:104-121 | After adding "evil.com" to the empty filter, "evil.com" is reported present and "safe.com" is not |
| Scenarios.OneCharSlots | main.cpp:106-111 | The three slots of a one-char string with a non-negative digit |
| Scenarios.BulkScenario | main.cpp:85-143 | Loading "a", "b", "c" and testing "a", "d" reports exactly "a" |
| Scenarios.BulkScenarioOnFilter | main.cpp:85-143 | A filter object constructed from "a", "b", "c" and tested on "a", "d" returns the list ["a"] with one positive and one negative |

## Left out

- File input: the `ifstream`/`getline` loops of the constructor and of `test`, and the "Unable to open file" paths (main.cpp:87-101, 128-148). The lines read are a parameter, a sequence of strings.
- Console output: the per-line report and the summary printed by `test` (main.cpp:135, 150-165).
- The interactive menu in `main` (main.cpp:171-221). It is user interface and `cin` parsing.
- `get_bits` (main.cpp:168). It returns a copy of the bitset and is used only to print its size.
- The `filename` field. It is used only for file input.
- The false-positive rate. It is a probabilistic claim; only the deterministic properties are proved.
- The `double` literal `1e9 + 9`. It converts exactly to 1000000009, which is the integer constant `Bloom.M`.
- Bloom.BloomFilter.Test: the counters are unbounded integers here. The source's `int` counters would overflow only past 2^31 - 1 lines.
- Bloom.BloomFilter.constructor: `size` is an unbounded integer. The source's `long long` would overflow only past 2^63 - 1 lines.
- Hashes.PolynomialHash: it is modelled only for the p and m for which the bound `|p_pow| <= PowerBound(m)` rules out overflow of `long long` on every string (`PolyParams`). That condition is sufficient, not necessary: p = 1 with m = 2^62 never overflows but is excluded. The filter's own parameters meet it (`Bloom.FilterParamsSafe`).
- CInt.Rem: its contract states the sign and the magnitude bound of the remainder, not its value. Where the value matters, `Hashes.PowerUpdateWithoutSign` states it for non-negative operands.
- Scenarios.EvilComScenario: it states the DJB2 and SDBM slots of "evil.com" and "safe.com" but not their polynomial slots. The argument that "safe.com" is absent needs only the other four slots.
- There is no scenario with a 101-bit filter, because the bitset size is fixed at 1000001 in the source.
