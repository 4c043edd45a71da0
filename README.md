# Swaplace light-swap helpers in Dafny

Swaplace is a non-custodial protocol for swapping bundles of ERC-20 and
ERC-721 assets in one atomic transaction. Its "light" swap format packs each
asset and the swap configuration into single 256-bit words. This project
models the client-side helper `test/utils/LightSwapFactory.ts`, which builds
light swaps for the test suite:

- `makeLightAsset` checks a contract address and an amount or token id, then
  packs them as `addr << 96 | amountOrId`.
- `decodeConfig` splits a configuration word into four fields: the allowed
  counterparty (bits 96..255), the expiry (bits 64..95), the value receiver
  (bits 56..63) and the value to receive (bits 0..55).
- `makeLightSwap` checks the decoded expiry against the latest block's
  timestamp, then checks that neither asset list is empty.
- `composeLightSwap` checks that the parallel address and amount lists have
  equal lengths, packs every pair and passes the result to `makeLightSwap`.

Files:

- `Bits.dfy` (module `Bits`) defines the BigInt operations the helper uses on
  non-negative values. `x | y` and `x & y` are defined bit by bit. The module
  proves that OR-ing a value into the free low bits of a shifted word is
  addition, and that AND with a mask of w ones is the remainder modulo 2^w.
- `LightSwapFactory.dfy` (module `LightSwapFactory`) holds the four helpers.
  Each error message becomes a constructor of `Error`, and each helper returns
  a `Result`. `composeLightSwap` is modelled twice:
  - As written. Its two `forEach` loops take `async` callbacks that nothing
    awaits, so a pair that fails to pack is skipped and its error never
    reaches the caller. `EncodeEach` is the array such a loop leaves, and
    `ComposeAsWritten` is the helper built on it.
  - As evidently intended (see "## Findings"). The pairs are packed in
    index order and the first failure is the result. `EncodeAll` specifies
    this packing. The method `EncodeAssets` performs it with a `while` loop
    that appends to a sequence. `Compose` and the method `ComposeLightSwap`
    are the corrected helper. The rows for these members cite the loops
    they correct, not code that behaves this way.

Two values the helper gets from outside are abstracted:

- An address argument is an `AddressString`. It is either `WellFormed(value)`,
  a string that `ethers.utils.isAddress` accepts together with the number
  below 2^160 that `BigInt(addr)` gives, or `NotAnAddress`.
- The block timestamp, which the helper fetches with
  `ethers.provider.getBlock("latest")`, is the parameter `now`.

The model follows the code where the protocol's design and the code differ:

- The code accepts an expiry equal to the current timestamp, because it only
  rejects `expiry < currentTimestamp`. This agrees with the requirement in
  the doc comment of `composeLightSwap` that the expiry not be in the past.
- The code has no `decodeAsset` and no `encodeConfig`.
  - `AssetAddress` and `AssetAmountOrId` are modelling helpers that unpack
    an asset word with the same shift-and-mask style as `decodeConfig`.
  - `PackConfig` is a modelling helper that packs four fields at bit
    positions 96, 64, 56 and 0, the layout that `decodeConfig`'s masks imply.
    The on-chain encoder that the tests call is not part of this model.

## Model

| member | source | states |
|---|---|---|
| `LightSwapFactory.MakeLightAsset` | test/utils/LightSwapFactory.ts:22-51 | The checks run in the source's order. A malformed address gives InvalidAddressFormat whatever the amount. Then a negative amount gives AmountOrIdCannotBeNegative. Then an amount above 2^96 - 1 gives the uint96 error. It succeeds exactly when the address is well formed and 0 <= amount < 2^96. The packed word (address shifted left 96, OR the amount) is then address * 2^96 + amount, and it is below 2^256. |
| `LightSwapFactory.LightAssetRoundTrip` | test/utils/LightSwapFactory.ts:36-48 | Packing loses nothing. For any asset the helper returns, word >> 96 is the address and word & (2^96 - 1) is the amount or id. |
| `LightSwapFactory.LightAssetRepack` | test/utils/LightSwapFactory.ts:46-48 | Every word below 2^256 is what the helper returns for the word's own high 160 bits and low 96 bits. So packing reaches every EVM word. |
| `LightSwapFactory.DecodeConfig` | test/utils/LightSwapFactory.ts:53-60 | Each field is bounded by its mask: allowed < 2^160, expiry < 2^32, value receiver < 2^8 and value to receive < 2^56. |
| `LightSwapFactory.ConfigRoundTrip` | test/utils/LightSwapFactory.ts:53-60 | Take four fields that fit their widths and pack them at bit positions 96/64/56/0. The word is below 2^256, and decoding it gives back every field. |
| `LightSwapFactory.ConfigRepack` | test/utils/LightSwapFactory.ts:53-60 | Any configuration below 2^256 is rebuilt exactly by packing its four decoded fields again. |
| `LightSwapFactory.MakeLightSwap` | test/utils/LightSwapFactory.ts:65-100 | It succeeds exactly when the decoded expiry is at or after `now` and both lists are non-empty, so an expiry equal to `now` is accepted. On success it returns the config and both lists unchanged. An expired config reports InvalidExpiryInThePast even when a side is empty, because that check runs first. Otherwise an empty side reports InvalidAssetsLength. InvalidExpiryTooBig never occurs. |
| `LightSwapFactory.MakeLightSwapPackedExpiry` | test/utils/LightSwapFactory.ts:70-80 | For a config packed from fitting fields, the swap is accepted exactly when the packed expiry is at or after `now` and both sides are non-empty. A packed expiry before `now` gives InvalidExpiryInThePast. |
| `LightSwapFactory.EncodeAll` | test/utils/LightSwapFactory.ts:136-145 | The corrected packing loop, not the code as written. Packing the pairs in order succeeds exactly when every pair packs. The result then has one asset per pair, and asset i is what makeLightAsset returns for pair i. |
| `LightSwapFactory.EncodeAllFirstError` | test/utils/LightSwapFactory.ts:138-145 | For the corrected packing loop: when packing fails, the error is that of the first pair that does not pack. |
| `LightSwapFactory.EncodeAssets` | test/utils/LightSwapFactory.ts:137-145 | The corrected packing loop, run in index order and stopping at the first pair that fails (the code as written never stops). Its invariant ties each prefix to EncodeAll, and it returns exactly EncodeAll's result. |
| `LightSwapFactory.Compose` | test/utils/LightSwapFactory.ts:121-148 | The corrected composeLightSwap, not the code as written. A length mismatch on either side gives InvalidAssetsLength before any pair is packed. A swap comes out exactly when the lists pair up, every pair packs, the expiry is not in the past and both sides are non-empty. It keeps the config, and side by side it holds the packing of each pair in index order, as many assets as addresses. |
| `LightSwapFactory.ComposeBidingError` | test/utils/LightSwapFactory.ts:137-147 | When the lists pair up, the first biding pair that does not pack decides the error, whatever the asking side and the config hold. |
| `LightSwapFactory.ComposeAskingError` | test/utils/LightSwapFactory.ts:142-147 | When every biding pair packs, the first asking pair that does not pack decides the error, whatever the config holds. |
| `LightSwapFactory.ComposeLightSwap` | test/utils/LightSwapFactory.ts:121-148 | The corrected composeLightSwap as a method, not the code as written. It checks the lengths, runs the two corrected packing loops in turn and then validates. Its result equals Compose for all inputs. |
| `LightSwapFactory.EncodeEach` | test/utils/LightSwapFactory.ts:137-145 | This is the array the un-awaited `forEach` callbacks leave: the assets of the pairs that pack, in index order. It never holds more assets than there are pairs. The lemmas below state its contents. |
| `LightSwapFactory.EncodeEachAgrees` | test/utils/LightSwapFactory.ts:137-145 | When every pair packs, the array is exactly what the corrected packing returns. When some pair fails, the array holds fewer assets than there are pairs. |
| `LightSwapFactory.EncodeEachAllOk` | test/utils/LightSwapFactory.ts:137-145 | When every pair packs, the corrected packing returns exactly the array. |
| `LightSwapFactory.EncodeEachDropsFailure` | test/utils/LightSwapFactory.ts:137-145 | A single pair that fails leaves the array shorter than the address list. |
| `LightSwapFactory.EncodeEachSnoc` | test/utils/LightSwapFactory.ts:138-140 | One more pair at the end of the lists adds that pair's asset at the end of the array when it packs, and nothing when it fails. |
| `LightSwapFactory.EncodeEachSingle` | test/utils/LightSwapFactory.ts:139 | For a single pair, the array holds that pair's asset when it packs and nothing otherwise. |
| `LightSwapFactory.EncodeEachAppend` | test/utils/LightSwapFactory.ts:137-145 | The array for two lists joined end to end is the array for the first followed by the array for the second. |
| `LightSwapFactory.EncodeEachAround` | test/utils/LightSwapFactory.ts:137-145 | For lists made of a prefix, one pair and a suffix, the array is the prefix's array, then that pair's share, then the suffix's array. |
| `LightSwapFactory.EncodeEachSkipsFailure` | test/utils/LightSwapFactory.ts:137-145 | Removing a pair that fails, from any position, leaves the array unchanged. |
| `LightSwapFactory.EncodeEachKeepsSuccess` | test/utils/LightSwapFactory.ts:137-145 | A pair that packs, at any position, contributes exactly its asset, between the assets of the pairs before it and those of the pairs after it. |
| `LightSwapFactory.EncodeEachNone` | test/utils/LightSwapFactory.ts:137-145 | When no pair packs, the array is empty. |
| `LightSwapFactory.ComposeAsWritten` | test/utils/LightSwapFactory.ts:121-148 | This is the code as written. A length mismatch gives InvalidAssetsLength. When every pair packs, it agrees with Compose. |
| `LightSwapFactory.ComposeAsWrittenEmptiedSide` | test/utils/LightSwapFactory.ts:121-148 | In the code as written, under an unexpired config, a side none of whose pairs pack is left empty. The swap is then rejected with InvalidAssetsLength rather than with the error of a pair. |
| `LightSwapFactory.ComposeAsWrittenDropsAsset` | test/utils/LightSwapFactory.ts:137-145 | The lists are biding [malformed, zero address], amounts [1, 1], and asking [zero address], amount [1]. Under any unexpired config, the code as written returns a swap with one biding asset, while Compose fails with InvalidAddressFormat. |
| `Bits.Or` | test/utils/LightSwapFactory.ts:47 | BigInt `x \| y` on non-negative values, defined bit by bit. It has no contract of its own. `Bits.OrShiftedIsAdd` states the fact about it that makeLightAsset relies on. |
| `Bits.And` | test/utils/LightSwapFactory.ts:55-58 | BigInt `x & y` on non-negative values, defined bit by bit. It has no contract of its own. `Bits.AndOnesIsMod` and `Bits.AndAtMost` state the facts about it that decodeConfig relies on. |
| `Bits.OrShiftedIsAdd` | test/utils/LightSwapFactory.ts:47 | (hi << k) OR lo equals hi * 2^k + lo whenever lo < 2^k. |
| `Bits.AndOnesIsMod` | test/utils/LightSwapFactory.ts:55-58 | x AND ((1 << w) - 1) equals x mod 2^w. |
| `Bits.AndAtMost` | test/utils/LightSwapFactory.ts:55-58 | x AND m is at most m, which is where decodeConfig's field bounds come from. |

## Findings

| source | as written | input that shows it | evidently intended | confidence | as-written member | corrected member |
|---|---|---|---|---|---|---|
| test/utils/LightSwapFactory.ts:137-145 | The `forEach` callbacks are `async` and nothing awaits them. When makeLightAsset rejects for a pair, that rejection settles a promise that composeLightSwap never awaits, so it never reaches composeLightSwap's caller, and the pair is left out of `biding` or `asking`. composeLightSwap then builds the swap from the remaining assets. | bidingAddr = [a malformed string, the zero address], bidingAmountOrId = [1, 1], askingAddr = [the zero address], askingAmountOrId = [1], with an unexpired config | Fail with the error of the first pair that does not pack (here InvalidAddressFormat), before validating the swap. | not executed; high | `LightSwapFactory.ComposeAsWrittenDropsAsset` | `LightSwapFactory.ComposeLightSwap` |

## Left out

- The Swaplace contracts are not part of this model: `createLightSwap`, `acceptLightSwap`, `encode`, `encodeConfig`, `totalSwaps`, the swap lifecycle and the atomic transfer executor. Their source is not available. The three Hardhat test files only observe them through transactions.
- Address parsing: `ethers.utils.isAddress` and `BigInt(addr)` are library calls. They become the `AddressString` argument. The model does not cover a string that `isAddress` accepts but `BigInt` cannot parse, such as the ICAP form, for which `BigInt` throws.
- `ethers.provider.getBlock("latest")` is a network call. Its timestamp is the parameter `now`.
- Promise scheduling: the model does not cover the order in which the `forEach` callbacks run against `makeLightSwap`'s `await`, or the unhandled rejection that a failing pair causes. `ComposeAsWritten` captures what the returned swap holds as a result.
- JavaScript `number` inputs: the model takes `amountOrId` as an integer and `config` as a non-negative integer. It does not cover the precision a `number` above 2^53 loses, the RangeError that `BigInt` throws for a fractional amount, or two's-complement shifts of a negative `config`.
- The doc comment's requirement that `owner` not be the zero address: no code enforces it, and composeLightSwap takes no owner at all.
- Configuration bits above bit 255: `DecodeConfig` masks them away as the source does, and no lemma states what is lost. The round-trip lemmas cover words below 2^256.
