# Card shuffler with a frugal unbiased random source

This project models `shuffle.c`, the card shuffler of card-server, in Dafny and proves its
properties. The program has three parts, stacked on each other:

- **`secure_random_bit`** is a buffered entropy reader. It holds 256 32-bit words and refills
  them in bulk from the entropy device. It then serves them one bit at a time, the least
  significant bit of the current word first, shifting that word right in place.
- **`secure_random(max)`** draws a value in `[0, max)` with no modulo bias, using as few bits
  as it can.
  - A growth loop puts each new bit in at position `rmax` and doubles `rmax` until
    `rmax >= max`.
  - A rejection loop then rejects `r` while it lies in the biased top region
    `[rmax - rmax % max, rmax)`. On each rejection it folds in one more bit. It doubles `rmax`
    while `rmax` is below `1 << 28`; at that cap it drops `r`'s lowest bit instead.
  - The result is `r / (rmax / max)`.
- **`init_deck`** lays out 52 cards. **`shuffle_deck`** is a Fisher-Yates shuffle that swaps
  slot `i` with a slot drawn from `[0, i]`, for `i` from 51 down to 1.

The model has five files:

- `common.dfy`: the error outcomes, which replace the source's `exit(1)`, and a `Result` type.
- `bitmath.dfy`: powers of two, a bitwise OR on naturals, the value of a bit string read least
  significant bit first, and the ceiling of log2.
- `entropy.dfy`: `secure_random_bit`, as the class `BitSource` with the buffer and the three
  cursors as fields. The device read is a parameter.
- `sampler.dfy`: `secure_random`.
  - Its specification is the function `Sample`, which reads a finite bit stream from an index.
  - Its implementation is the method `SecureRandom`, with the two loops `GrowthPhase` and
    `RejectionPhase`.
  - The module `SamplerFacts` proves properties of the specification: equal preimages,
    worked examples, and dependence on consumed bits only.
- `deck.dfy`: `init_deck` and `shuffle_deck`.
  - `shuffle_deck` runs in place on an array, specified by the recursive function
    `FisherYates`.
  - It is generalised to any length and any element type.

The sampler's `rmax` is an unbounded natural, not the source's uint32, so the model covers every
uint32 `max`. With a uint32 `rmax`, every `max` above 2^31 makes the growth loop run forever;
see "Findings".

## Model

| member | source | states |
|---|---|---|
| Entropy.BitSource.constructor | shuffle.c:43-46 | The buffer starts with `max_winx`, `winx` and `bcnt` all 0. A refill is therefore due, and nothing is pending, so the first call refills. |
| Entropy.BitSource.Pending | shuffle.c:43-46 | The bits still to be served number `32 * (max_winx - winx) - bcnt`. They are empty exactly when `winx == max_winx`, i.e. when a refill is due. |
| Entropy.BitSource.NextBit | shuffle.c:41-87 | A refill happens exactly when `winx == max_winx`. A failed open and a read of under one word are errors that leave the state unchanged. Otherwise the result is 0 or 1 and is the first pending bit. Without a refill it is the lowest bit of `rand_buf[winx]` and the cursor moves on by exactly one bit. After a refill, `max_winx == rv / 4` and the bit is the first of the words read. |
| Entropy.BitSource.Refill | shuffle.c:48-71 | Errors for a failed open and for `rv < 4`, with nothing changed. Otherwise `max_winx = rv / 4` (1 to 256, a trailing partial word ignored), `winx = bcnt = 0`, and the pending bits are exactly the bits of the words read. |
| Entropy.BitSource.TakeBit | shuffle.c:73-86 | The bit is `rand_buf[winx] & 1`. That word, and only that word, becomes `rand_buf[winx] >> 1`. `bcnt` goes up by one and, at 32, wraps to 0 with `winx` advancing by one. The bit served is the first pending bit and the rest stay pending in order. |
| Entropy.LowBitsAt | shuffle.c:74-78 | Serving a word's bits by `& 1` then `>>= 1` yields bit i of the word as the i-th bit. |
| Entropy.StreamBitsAt | shuffle.c:74-84 | Over a run of words, the i-th bit served is bit `i % 32` of word `i / 32`. |
| Entropy.FilledWindow | shuffle.c:59-71 | After a refill of n whole words, the pending bits are the bits of those n words in order. |
| Entropy.DrawStep | shuffle.c:74-84 | One draw removes exactly the first pending bit: the low bit comes out, the word is halved, and after 32 bits the cursor moves to the next word. |
| BitMath.LsbValue | shuffle.c:101-106 | n bits put in at positions 1, 2, 4, ... give a value below 2^n. |
| BitMath.CeilLog2 | shuffle.c:101-106 | The least k with `max <= 2^k`, both bounds stated: the number of times the growth loop doubles `rmax`. |
| BitMath.BitOr | shuffle.c:105 | Bitwise OR of two unsigned values, bit by bit. The result is at least each operand and at most their sum. |
| BitMath.OrIntoClearTopBit | shuffle.c:104-105 | `r \| rmax == r + rmax` whenever `rmax` is a power of two above `r`, so the OR never loses bits. |
| BitMath.Pow2Gap | shuffle.c:120-123 | A power of two below another is at most half of it, so doubling below the cap stays at or under the cap. |
| BitMath.HalveThenDivide | shuffle.c:78 | Shifting right by one and then dividing by p is dividing by 2p. So a word shifted right i times holds bit i of the original word at the bottom. |
| Sampler.Accepted | shuffle.c:109-112 | The loop's exit test `r < rmax - defect`, where `defect = rmax % max`. It holds exactly when `r < max * (rmax / max)`, i.e. when `r` lies in whole copies of `[0, max)`. |
| Sampler.Output | shuffle.c:129-130 | The final `r / (rmax / max)` is the index `v` of the cell holding `r`: `v * (rmax / max) <= r < (v + 1) * (rmax / max)`. |
| Sampler.AcceptedRegion | shuffle.c:109-112 | `rmax - defect == max * (rmax / max)`, and `rmax / max >= 1`. |
| Sampler.OutputInRange | shuffle.c:112-130 | Every accepted `r` gives `r / (rmax / max) < max`. |
| Sampler.GrowthFits | shuffle.c:98-107 | For every uint32 `max` (at most 2^32), growth takes at most 32 bits and ends with `rmax = 2^CeilLog2(max) <= 2^32`. |
| Sampler.CapIsPow2 | shuffle.c:38 | The cap `1 << MAX_RAND_BITS` is 2^28: a power of two below 2^32. |
| Sampler.WrappedRmax | shuffle.c:98-106 | The source's uint32 `rmax` after n growth steps, each `rmax <<= 1` reducing modulo 2^32. It is always below 2^32. |
| Sampler.WrappedRmaxValues | shuffle.c:98-106 | The uint32 `rmax` takes the values 1, 2, 4, ..., 2^31. From step 32 on it is 0. |
| Sampler.GrowthNeverEndsAsWritten | shuffle.c:101-107 | For every uint32 `max` above 2^31, the uint32 `rmax` is below `max` after any number of steps, so the growth loop never exits. |
| Sampler.GrowStep | shuffle.c:101-106 | A growth step puts the bit in at the clear position `rmax`, and `rmax` doubles. |
| Sampler.GrowthEnds | shuffle.c:101 | The growth loop stops exactly after CeilLog2(max) steps. |
| Sampler.Reject | shuffle.c:109-130 | The rejection phase's result is below `max` and consumes only bits that exist. It fails only by running out of bits. |
| Sampler.RejectAccepts | shuffle.c:112-130 | An accepted `r` ends the loop at once with the output `r / (rmax / max)`. |
| Sampler.RejectFullRange | shuffle.c:109-130 | When `rmax == max`, nothing is rejected and `r` itself is returned. |
| Sampler.RejectStarves | shuffle.c:112-116 | A rejected `r` with no bit left is the out-of-bits error. |
| Sampler.RejectStep | shuffle.c:112-127 | One rejection step keeps several invariants: `r < rmax`, `rmax` a power of two in `[max, 2^32]`, and `rmax` doubled only while below `1 << 28`. This includes the cap branch, where the bit ORed at `rmax` is followed by `r >>= 1`. The phase's outcome is unchanged by the step. |
| Sampler.Sample | shuffle.c:90-131 | Defined for every uint32 `max`, with `rmax` unbounded. Fails with the range error exactly when `max == 0`, and otherwise only by running out of bits. On success the value is in `[0, max)` and at least CeilLog2(max) bits were consumed. |
| Sampler.GrownRange | shuffle.c:98-107 | After growth `rmax` is a power of two with `max <= rmax <= 2^32`. |
| Sampler.SampleAfterGrowth | shuffle.c:98-112 | The sample equals the rejection phase run from the grown `r` and `rmax`. |
| Sampler.GrowthPhase | shuffle.c:98-107 | The growth loop succeeds exactly when CeilLog2(max) bits remain. It then consumes exactly that many bits, `rmax == 2^CeilLog2(max)`, and `r` is the value of the bits read. |
| Sampler.RejectionPhase | shuffle.c:109-130 | The rejection loop and the final division compute exactly `Reject`. |
| Sampler.SecureRandom | shuffle.c:90-131 | `secure_random` returns exactly `Sample`: a value in `[0, max)` on success, and the range error for `max == 0`. |
| SamplerFacts.PreimageCell | shuffle.c:109-130 | An accepted `r` maps to `v` exactly when it lies in the v-th block of `rmax / max` consecutive values. |
| SamplerFacts.EqualPreimages | shuffle.c:7-21 | For each `v < max`, the accepted `r < rmax` that map to `v` form one block of exactly `rmax / max` values, the same count for every output. |
| SamplerFacts.SampleOfOne | shuffle.c:98-107 | `secure_random(1)` consumes no bits and returns 0. |
| SamplerFacts.PowerOfTwoRange | shuffle.c:98-130 | For `max = 2^m`, no rejection happens. Exactly m bits are consumed, and their value (least significant first) is returned. |
| SamplerFacts.RangeOfFive | shuffle.c:98-130 | The trace for max 5, step by step. Growth takes 3 bits: 1,0,1 give r = 5 at rmax = 8. The defect is 3, so 5 is rejected, and with no fourth bit the stream runs out. A fourth bit 0 leaves r = 5 at rmax = 16 and gives 5 / 3 = 1. A fourth bit 1 gives r = 13 and 13 / 3 = 4. |
| SamplerFacts.RejectReadsOnlyConsumed | shuffle.c:109-127 | The rejection phase reads no bit beyond the index it returns. |
| SamplerFacts.SampleReadsOnlyConsumed | shuffle.c:90-131 | Two streams that agree from `start` up to the returned index give the same sample. |
| Deck.CardAt | shuffle.c:150-151 | Card i has suit `suits[i / 13]` and rank `ranks[i % 13]`, both from the two letter lists. |
| Deck.LettersDistinct | shuffle.c:145-146 | No suit letter and no rank letter is listed twice. |
| Deck.CardAtInjective | shuffle.c:148-152 | Different indices hold different cards. |
| Deck.NewDeck | shuffle.c:143-152 | The array `init_deck` produces: 52 cards, slot i holding `CardAt(i)`. That it is complete and has no repeats is proved in `NewDeckComplete` and `NewDeckDistinct`. |
| Deck.NewDeckComplete | shuffle.c:145-152 | Every (suit, rank) pair from the two lists is in the new deck. |
| Deck.NewDeckDistinct | shuffle.c:143-152 | The new deck has 52 cards with no repeats. |
| Deck.InitDeck | shuffle.c:143-152 | `init_deck` fills slot i with `CardAt(i)` for all 52 slots. |
| Deck.Swap | shuffle.c:162-165 | The swap exchanges slots i and j and leaves every other slot as it was. |
| Deck.SwapPermutes | shuffle.c:162-165 | A swap keeps the multiset of cards. |
| Deck.FisherYates | shuffle.c:158-166 | The passes from i down to 1 keep the length and fail only by running out of bits. |
| Deck.FisherYatesStep | shuffle.c:158-166 | One pass draws j from `secure_random(i + 1)` and swaps slots i and j. The remaining passes then run on the swapped deck. |
| Deck.FisherYatesPermutes | shuffle.c:158-166 | A successful shuffle is a permutation: the same multiset of cards. |
| Deck.FisherYatesKeepsTail | shuffle.c:158-166 | The passes for i down to 1 never touch the slots above i. |
| Deck.Shuffle | shuffle.c:156-167 | `shuffle_deck` on a sequence of any length: the passes for the last index down to 1. A deck of 0 or 1 cards is returned as it is, with no bits consumed. Otherwise the length is kept, only bits that exist are consumed, and the only failure is running out of bits. `ShufflePermutes` proves it is a permutation. |
| Deck.ShuffleStarts | shuffle.c:158 | A non-empty shuffle starts with the pass for the last index. |
| Deck.ShufflePermutes | shuffle.c:156-167 | A shuffle keeps the multiset, consumes only bits that exist, and fails only by running out of bits. |
| Deck.ShuffledDeckIsADeck | shuffle.c:143-167 | A shuffled new deck has 52 cards. Each of the 4 suits times 13 ranks appears in it exactly once. |
| Deck.ShuffleOfTwo | shuffle.c:158-166 | With two cards, one bit decides: 1 keeps the order and 0 swaps the cards. |
| Deck.ShuffleDeck | shuffle.c:156-167 | The in-place loop leaves the array equal to `Shuffle` of its old contents and returns where the bits were left. On an out-of-bits error it stops, and the array is still a permutation of the old one. |

## Left out

- The device I/O of `secure_random_bit` (`open`, `read` and `close` of `/dev/urandom`, shuffle.c:51-60) is left out. `NextBit` takes the outcome of that one read as a `DeviceRead` parameter. That parameter is either a failed open, or the count read with the whole words it filled. `perror` plus `exit(1)` become error results.
- The byte order that turns the bytes read into words is platform-defined and is not modelled. The device delivers words.
- A failed refill leaves the old state untouched in the model. The source may have overwritten part of the buffer before exiting, but the process ends there.
- The sampler is not composed with `BitSource`. `secure_random` reads its bits from a finite `seq<bool>` with a consumption index, and running out of bits is the `OutOfBits` error. An endless stream is not modelled. On an adversarial stream the rejection loop need not terminate: at the cap, an all-ones stream stays rejected.
- Probabilistic uniformity of `secure_random` and of the shuffle is left out: it needs probability theory. The model proves only the combinatorial fact behind it (`EqualPreimages`). Whether the cap branch keeps exact uniformity under repeated rejection is not addressed; the model keeps the cap policy as written.
- Deck.ShuffleDeck: generalised from 52 cards to any length and element type, the empty deck left as it is. It also leaves open what the array holds after an error beyond "a permutation of the input", since the source exits there.
- `main` (argument parsing and the repeat loop) and `print_deck` (formatting) are left out: they are I/O.
- `& 1` and `>>= 1` on uint32 words are modelled as `% 2` and `/ 2` on naturals below 2^32. The sampler's `<<= 1` is `* 2` on an unbounded `rmax` (see "Findings"). `r |= rmax` is modelled as `BitMath.BitOr` and shown to be addition where the source uses it.

## Findings

| source | as written | input that shows it | evidently intended | confidence | as-written member | corrected member |
|---|---|---|---|---|---|---|
| shuffle.c:98-107 | `rmax` is a uint32. For `max > 2^31` the growth loop doubles it from 2^31 to 0, where it stays below `max`, so the loop never exits. | `secure_random(0x80000001)` | A value in `[0, max - 1]` for every uint32 `max` above 0, as the comment at shuffle.c:89 promises. This needs `rmax` in a type wide enough for 2^32. | high (not executed); `shuffle_deck` only asks for `max <= 52` | Sampler.GrowthNeverEndsAsWritten | Sampler.Sample |
