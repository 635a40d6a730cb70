# Snowflake identifier generator — Dafny model

This project models the Snowflake identifier generator of `idgenerator/`. The generator packs three fields into one integer identifier:

- the milliseconds elapsed since a configured epoch;
- a configured instance id;
- a per-millisecond sequence value.

The generator also renders an identifier as a 13-character token in the "Extended Hex" Base 32 alphabet of section 7 of RFC 4648.

Before any generator is built, a chain of guards checks the bit widths and the instance id when the configuration is loaded.

Modules:

- `Results`: `Option` and `Result`.
- `Bits`: Python's integer operators on unbounded integers, as the generator uses them.
  - `<<` is multiplication by a power of two and `>>` is floor division.
  - `~x` is `-x - 1`.
  - `&`, `|` and `^` are defined bit by bit.
  - Lemmas connect each operator to arithmetic: masking is a remainder, disjoint or is addition, and `2 ^ n` is `n ± 2`.
- `Packing`: the layout a generator is built with, with its derived shifts and mask; the `Sequence` record; `get_id`. Proved about them:
  - the round trip of the packing;
  - a bound on the packed id;
  - packing preserves issue order.
- `Tokens`: `get_char`, the 13-step encoding loop of `next_str` (a method over a `char` array), and a decoder. Proved about them:
  - the round trip;
  - injectivity;
  - string order agrees with numeric order;
  - the first token character of a 64-bit identifier.
- `IdGenerator`:
  - `Next`, the state transition of `next_id`, as a function of the previous sequence and the clock readings;
  - `Run`, successive calls over one clock;
  - the generator class `SnowflakeIdGenerator`, whose `NextId` and `NextStr` update the stored `current` sequence and are proved against `Next`;
  - `WaitNextTimestamp`, the wait loop.
- `Configuration`: the guard chain as written, and the guard chain with the evidently intended instance bound.

### How the clock is modelled

The wall clock is a sequence of integer millisecond readings.

- `next_id` takes the first reading.
- When the millisecond's sequence space is used up, the wait loop takes further readings until one differs from the first.
- The wait has no timeout, so on that path the model requires that some later reading differs.

## Model

| member | source | states |
|---|---|---|
| Bits.LowMask | idgenerator/IdGenerator.py:16 | `~(-1 << n)` equals 2^n - 1, the mask of the n low bits |
| Bits.ShiftLeft | idgenerator/IdGenerator.py:16 | Python's `x << k`: multiplication by 2^k, keeping the sign of x |
| Bits.ShiftRight | idgenerator/IdGenerator.py:108 | Python's `x >> k` on a non-negative x: floor division by 2^k, never above x and 0 when x < 2^k |
| Bits.BitNot | idgenerator/IdGenerator.py:16 | Python's `~x`, -x - 1: it flips the sign, mapping non-negative values to negative ones and back |
| Bits.BitAnd | idgenerator/IdGenerator.py:84 | Python's `a & b` bit by bit; the result is at most either operand |
| Bits.BitOr | idgenerator/IdGenerator.py:38-40 | Python's bitwise or, bit by bit; the result is at least either operand and at most their sum |
| Bits.BitXor | idgenerator/config.py:32 | Python's `a ^ b` bit by bit; the result is at most the sum and has the parity of the sum |
| Bits.OrSelf | idgenerator/IdGenerator.py:38-40 | or-ing a value with itself gives it back, as two overlapping fields do |
| Bits.AndLowMask | idgenerator/IdGenerator.py:84 | and-ing with 2^n - 1 keeps exactly the n low bits: the result is x mod 2^n |
| Bits.OrDisjoint | idgenerator/IdGenerator.py:38-40 | or-ing `a << k` with a value below 2^k is their sum: the fields do not overlap |
| Bits.XorTwo | idgenerator/config.py:32 | Python's `2 ^ n` for n >= 1 is n + 2 or n - 2, depending on bit 1 of n, and never 2^n |
| Packing.Layout.SequenceMask | idgenerator/IdGenerator.py:14-16 | the mask `~(-1 << sequence_bits)` plus one is 2^sequence_bits |
| Packing.Layout.InstanceShift | idgenerator/IdGenerator.py:14 | the instance field starts at bit S: 2^shift is the sequence mask plus one |
| Packing.Layout.TimestampShift | idgenerator/IdGenerator.py:15 | the timestamp field starts at bit S + I: 2^shift is 2^S * 2^I |
| Packing.GetId | idgenerator/IdGenerator.py:38-40 | `get_id` or-s the shifted timestamp offset, the shifted instance id and the value; when every field fits, the id is their weighted sum |
| Packing.PackedSum | idgenerator/IdGenerator.py:38-40 | when every field fits its width, the or-ed id is offset * 2^(S+I) + instance * 2^S + value, and the two low fields stay below 2^(S+I) |
| Packing.GetIdRoundTrip | idgenerator/IdGenerator.py:38-40 | from the id, masking recovers the sequence value, shifting and masking recovers the instance id, and shifting recovers the timestamp offset |
| Packing.IdBound | idgenerator/IdGenerator.py:38-40 | an id whose timestamp offset fits in t bits fits in S + I + t bits |
| Packing.GetIdMonotone | idgenerator/IdGenerator.py:38-40 | a sequence issued before another (earlier millisecond, or same millisecond and lower value) packs to a strictly smaller id |
| IdGenerator.FirstChange | idgenerator/IdGenerator.py:51-55 | the index where the wait stops: that reading differs from the timestamp and every earlier one equals it |
| IdGenerator.WaitStopsOnEarlierReading | idgenerator/IdGenerator.py:51-55 | a reading earlier than the timestamp ends the wait at once and is returned, although it is not a later millisecond |
| IdGenerator.WaitAdvances | idgenerator/IdGenerator.py:51-55 | under a clock that never goes back, the wait returns a millisecond strictly after the timestamp |
| IdGenerator.SnowflakeIdGenerator.WaitNextTimestamp | idgenerator/IdGenerator.py:44-55 | the polling loop returns the first reading that differs from the timestamp, having seen only equal readings before it |
| IdGenerator.Next | idgenerator/IdGenerator.py:79-91 | the call fails exactly when the reading is before the stored timestamp, and then only with 'clock moves backward'; an issued value is within the mask; the issued timestamp is one of the readings taken |
| IdGenerator.NextNewMillisecond | idgenerator/IdGenerator.py:81-82 | on the first call or at a later millisecond, value 0 is issued at the current reading |
| IdGenerator.NextSameMillisecond | idgenerator/IdGenerator.py:83-87 | in the same millisecond with room left, the value goes up by one and the timestamp stays |
| IdGenerator.ExhaustedAtMask | idgenerator/IdGenerator.py:84-85 | `(value + 1) & mask == 0` holds exactly when the value equals the mask |
| IdGenerator.NextExhausted | idgenerator/IdGenerator.py:84-87 | with the value at the mask, the value wraps to 0 at a different millisecond, which is strictly later under a clock that never goes back |
| IdGenerator.NextBackward | idgenerator/IdGenerator.py:88-89 | a reading before the stored timestamp raises 'clock moves backward' |
| IdGenerator.NextAdvances | idgenerator/IdGenerator.py:79-91 | under a clock that never goes back, every call succeeds and issues a sequence strictly after the previous one |
| IdGenerator.AsWrittenDiffersOnlyWhenExhausted | idgenerator/IdGenerator.py:83-89 | the code as written agrees with the intended transition everywhere except the exhaustion path, where it raises TypeError |
| IdGenerator.NextAsWritten | idgenerator/IdGenerator.py:79-91 | `next_id` as written fails exactly on a backward reading or an exhausted millisecond, the latter with TypeError; otherwise it issues a value within the mask at the current reading |
| IdGenerator.MissingArgumentWitness | idgenerator/IdGenerator.py:86 | with one sequence bit, the second id in a millisecond makes the code as written raise TypeError; the intended code issues value 0 at the next millisecond |
| IdGenerator.Run | idgenerator/IdGenerator.py:79-91 | in successive calls over one clock, every issued value is within the mask and every issued timestamp is a clock reading |
| IdGenerator.RunOrdered | idgenerator/IdGenerator.py:79-91 | under a clock that never goes back, successive calls issue sequences in strictly increasing order, all after the starting one |
| IdGenerator.RunIdsIncrease | idgenerator/IdGenerator.py:38-40 | under a clock that never goes back, the ids of successive calls strictly increase, so no id repeats |
| IdGenerator.RunTokensIncrease | idgenerator/IdGenerator.py:102-109 | when the fields fit in 64 bits, the tokens of successive calls are strictly increasing strings |
| IdGenerator.SnowflakeIdGenerator.constructor | idgenerator/IdGenerator.py:9-16 | a new generator holds its layout and no current sequence |
| IdGenerator.SnowflakeIdGenerator.NextId | idgenerator/IdGenerator.py:67-91 | the stored sequence becomes the one `Next` issues and its packed id is returned; on a backward clock the exception is returned and the stored sequence is kept; the value stays within the mask |
| IdGenerator.SnowflakeIdGenerator.NextStr | idgenerator/IdGenerator.py:102-109 | as NextId, but returns the 13-character token of the issued id |
| Tokens.GetChar | idgenerator/IdGenerator.py:96-100 | each 5-bit digit maps to a character of the token alphabet '0'..'9', 'A'..'V' |
| Tokens.GetCharAlphabet | idgenerator/IdGenerator.py:96-100 | digit d maps to the d-th symbol of the Extended Hex alphabet |
| Tokens.DigitValue | idgenerator/IdGenerator.py:96-100 | the inverse of get_char on the alphabet |
| Tokens.GetCharOrder | idgenerator/IdGenerator.py:96-100 | get_char is injective and preserves order |
| Tokens.Digits | idgenerator/IdGenerator.py:104-109 | k digits give a string of length k over the alphabet |
| Tokens.Token | idgenerator/IdGenerator.py:102-109 | the string `next_str` returns: 13 characters, all from the alphabet |
| Tokens.EncodeId | idgenerator/IdGenerator.py:104-109 | the loop's 13 characters are the token of the id, all from the alphabet |
| Tokens.DigitsRoundTrip | idgenerator/IdGenerator.py:104-109 | decoding k digits of x gives x back whenever x < 2^(5k) |
| Tokens.TokenRoundTrip | idgenerator/IdGenerator.py:104-109 | decoding the token gives back every id below 2^65 |
| Tokens.TokenInjective | idgenerator/IdGenerator.py:104-109 | different ids below 2^65 have different tokens |
| Tokens.LexLessAppend | idgenerator/IdGenerator.py:104-109 | two equally long strings with one character appended compare by their prefixes first, then by the appended characters |
| Tokens.DigitsOrder | idgenerator/IdGenerator.py:104-109 | k-digit strings compare as strings exactly as their numbers compare |
| Tokens.TokenOrder | idgenerator/IdGenerator.py:104-109 | token string order is id order, in both directions, below 2^65 |
| Tokens.LeadingDigit | idgenerator/IdGenerator.py:104-109 | the first of k digits is the character of `x >> 5(k - 1)`, the group above the k - 1 lower ones |
| Tokens.LeadingSymbol | idgenerator/IdGenerator.py:104-109 | for an id below 2^64 the first token character is one of '0'..'F' |
| Configuration.Validate | idgenerator/config.py:24-37 | accepted exactly when no guard fails; a rejection names a failing guard with every earlier guard passing |
| Configuration.ValidateIntended | idgenerator/config.py:24-37 | accepted exactly when all widths are positive, they sum to 64 and 0 <= instanceId < 2^instanceBits |
| Configuration.RejectsNonPositiveWidth | idgenerator/config.py:24-31 | a non-positive width is rejected by one of the four width guards |
| Configuration.RejectsBadSum | idgenerator/config.py:36-37 | widths not summing to 64 are rejected |
| Configuration.RejectsNegativeInstanceId | idgenerator/config.py:32-33 | a negative instance id is rejected |
| Configuration.TimestampNegativeUnreachable | idgenerator/config.py:34-35 | the `timestampBits < 0` guard never decides: the earlier `<= 0` guard catches every such value |
| Configuration.EpochNotValidated | idgenerator/config.py:20 | the epoch is not checked: changing it never changes the outcome |
| Configuration.AcceptedBounds | idgenerator/config.py:24-37 | an accepted configuration has positive widths summing to 64 and an instance id below the xor bound, which is instanceBits ± 2 |
| Configuration.DefaultsAccepted | idgenerator/config.py:12-18 | with the fallback widths 1/41/10/12, the configuration is accepted exactly when 0 <= instanceId < 8, and otherwise fails the instance guard |
| Configuration.Defaults | idgenerator/config.py:12-20 | the fallback widths are positive and sum to 64; epoch and instance id are the given values |
| Configuration.XorRejectsValidInstanceId | idgenerator/config.py:32-33 | with 10 instance bits, the id 8 fits its field and the intended check accepts it, but the guard as written rejects it |
| Configuration.XorAcceptsOverflowingInstanceId | idgenerator/config.py:32-33 | with 1 instance bit, the id 2 is accepted as written, though the intended check rejects it and it does not fit the field |
| Configuration.XorOverflowCollides | idgenerator/config.py:32-33 | with 1 instance bit and id 2, accepted as written, milliseconds 0 and 1 pack to the same id |
| Configuration.XorRejectsEveryInstanceId | idgenerator/config.py:32-33 | with 2 instance bits, every configuration is rejected |
| Configuration.IntendedFitsSignedLong | idgenerator/config.py:24-37 | under the intended check, the instance id fits its field and every id within the timestamp width stays below 2^63, clear of the sign bit |

## Left out

- The `threading.Lock` in `next_id` and its 10-second acquire timeout (`idgenerator/IdGenerator.py:73-77, 92-94`) are not modelled. The model has no concurrency. The lock is created anew on every call, so it never serialises callers anyway.
- For the same reason, the `None` that `next_id` returns on a lock timeout, and the failure of `next_str` on that `None`, are not modelled.
- `time.time()`, `time.sleep` and the rounding in `get_timestamp` (`idgenerator/IdGenerator.py:51-65`) become the sequence of integer millisecond readings. Floating-point rounding is not modelled.
- The demo threads under `__main__` (`idgenerator/IdGenerator.py:112-133`) are not modelled. They are I/O and concurrency.
- Reading the ini file with its fallbacks (`idgenerator/config.py:1-22`) is not modelled. The values are parameters of `Config`, and `Defaults` gives the fallback widths.
- Guard failures are modelled as `Rejected(error)` values, not raised exceptions.
- IdGenerator.SnowflakeIdGenerator.NextId:
  - It requires the issued timestamp to be at or after the epoch, and a non-negative instance id (`Layout.instanceId` is a `nat`).
  - The source also accepts earlier timestamps, where Python's `<<` and `|` on negative integers give a negative id. The model does not cover negative ids.
- IdGenerator.SnowflakeIdGenerator.NextStr has the same restriction as NextId.
- IdGenerator.Next:
  - On the exhaustion path it requires that some later reading differs from the current one. The source then waits forever.
  - `Run` stops where such a wait would not end.
- IdGenerator.Next gives the wait on the exhaustion path the current timestamp. The code as written passes no argument there; see Findings.
- Only the packing preconditions are used. The model does not enforce a bound on the timestamp offset; `IdBound` and `IntendedFitsSignedLong` state what such a bound gives.

## Findings

| source | as written | input that shows it | evidently intended | confidence | as-written member | corrected member |
|---|---|---|---|---|---|---|
| idgenerator/IdGenerator.py:86 | `wait_next_timestamp()` is called without its required `timestamp` argument, so it raises TypeError whenever a millisecond's sequence space is used up | one sequence bit; previous sequence value 1 at millisecond 100; next reading 100 | wait for a reading different from the current timestamp and issue value 0 there | high, not executed | IdGenerator.NextAsWritten, IdGenerator.MissingArgumentWitness | IdGenerator.Next, IdGenerator.NextAdvances |
| idgenerator/config.py:32 | `2 ^ instanceBits` is an exclusive or, which is instanceBits ± 2, not 2^instanceBits | instanceBits 1, instanceId 2 (accepted but overflows the field, so milliseconds 0 and 1 give the same id); instanceBits 10, instanceId 8 (rejected though it fits); instanceBits 2 (every id rejected) | `instanceId >= 2 ** instanceBits` | high, not executed | Configuration.Validate, Configuration.XorAcceptsOverflowingInstanceId, Configuration.XorOverflowCollides | Configuration.ValidateIntended, Configuration.IntendedFitsSignedLong |
