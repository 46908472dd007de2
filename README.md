# pkapi-ts rate limiting and identifier models, in Dafny

This project models the core of pkapi-ts, a TypeScript client for the
PluralKit API, and proves properties of the model.

- **Rate limiting.** The adaptive per-bucket rate limiter is
  `DefaultRateLimiter` with its `Bucket`s. The null-object limiter is
  `NoOpRateLimiter`. Both implement the three-call contract of
  `BaseRateLimiter`: `handleResponse`, `handleError` and `wait`.
- **Value schemas.** These are the string schemas the API models are built
  from:
  - PluralKit identifiers and their lenient parser;
  - the birthday codec to and from `YYYY-MM-DD`;
  - Discord snowflakes;
  - hex colours;
  - the autoproxy settings object with its front/member rule.

Modules, one per source file:

- `RateLimiter` (`rate_limiter.dfy`): the shared contract.
  - A `Response` has a status and a header map.
  - An error is a `Response` or anything else.
  - Time is an explicit `now` in milliseconds.
  - `wait` returns the delay it passes to `setTimeout`.
- `DefaultRateLimiter`: the bucket state and its transitions as functions
  on a `BucketState` value, which the lemmas are about.
  - The classes `Bucket` and `DefaultRateLimiter` update their fields as
    the source does.
  - Each method is proved to follow the transition functions.
  - The limiter's `buckets` map holds the bucket objects.
- `NoOpRateLimiter`: the stateless limiter, as a function from a call to
  its outcome.
- `PluralKitID`, `Birthday`, `DiscordSnowflake`, `Color`, `AutoproxySettings`:
  each schema is a predicate or a partial function. `None` stands for a
  zod rejection.
- `Numerals`, `EcmaScript`, `Wrappers`: the JavaScript built-ins the
  schemas rely on.
  - `parseInt` follows section 19.2.5 of ECMA-262, including the `0x`
    prefix in radix 16 and radix 0.
  - `BigInt(string)` follows StringToBigInt, section 7.1.14 of ECMA-262.
  - Also modelled: `BigInt.prototype.toString`, `padStart`, `split`,
    `toLowerCase` on ASCII letters, and `replaceAll` of one character.

To verify the project with Dafny 4.11, give it every file at once:

    dafny verify --resource-limit 2000000 --verification-time-limit 0 *.dfy

Every proof is meant to stay within that resource limit on any solver
seed (`--boogie /randomSeed:N`), with or without
`--warn-contradictory-assumptions`.

## Model

| member | source | states |
|---|---|---|
| DefaultRateLimiter.Bucket.constructor | src/RateLimiter/DefaultRateLimiter.ts:45-57 | a new bucket has the defaults overridden by the given options, no error timestamps, `waitTime = initialWaitTime` and `resetTimestamp = 0` |
| DefaultRateLimiter.Resolve | src/RateLimiter/DefaultRateLimiter.ts:50-53 | no contract of its own; the object spread of the defaults and the given options, characterised by `ResolveNoOptions` and `ResolveComplete` |
| DefaultRateLimiter.ResolveNoOptions | src/RateLimiter/DefaultRateLimiter.ts:22-31 | no options resolve to the default options (window base 5, initial and minimum wait 1000, maximum 3000, increment 500, thresholds 3 and 0) |
| DefaultRateLimiter.ResolveComplete | src/RateLimiter/DefaultRateLimiter.ts:202-212 | a bucket built from the limiter's complete options gets exactly those options |
| DefaultRateLimiter.Bucket.AdjustWaitTime | src/RateLimiter/DefaultRateLimiter.ts:59-91 | the new state is the old one with the timestamps filtered to the window and the wait time moved by the step rule |
| DefaultRateLimiter.Adjusted | src/RateLimiter/DefaultRateLimiter.ts:59-91 | no contract of its own; adjustWaitTime as a function of the state and `now`, characterised by `Bucket.AdjustWaitTime`, the `KeepAfter` lemmas and `StepInBounds` |
| DefaultRateLimiter.NextWaitTime | src/RateLimiter/DefaultRateLimiter.ts:59-91 | no contract of its own; the step rule given the number of errors in the window, characterised by `NextWaitTimeInBounds`, `ErrorInsideWindow` and the test lemmas |
| DefaultRateLimiter.KeepAfter | src/RateLimiter/DefaultRateLimiter.ts:61-63 | the filter keeps no more timestamps than it is given, each after the cutoff |
| DefaultRateLimiter.KeepAfterCount | src/RateLimiter/DefaultRateLimiter.ts:61-63 | each timestamp after `now - errorWindowBase*minWait` is kept as often as it occurred, and every other timestamp is dropped |
| DefaultRateLimiter.KeepAfterAppend | src/RateLimiter/DefaultRateLimiter.ts:61-63 | the filter keeps the original order: filtering a concatenation is filtering each part |
| DefaultRateLimiter.KeepAfterAllInside | src/RateLimiter/DefaultRateLimiter.ts:61-63 | timestamps all inside the window are kept unchanged, so filtering twice is filtering once |
| DefaultRateLimiter.KeepAfterAllOutside | src/RateLimiter/DefaultRateLimiter.ts:61-63 | timestamps all outside the window are all dropped |
| DefaultRateLimiter.NextWaitTimeInBounds | src/RateLimiter/DefaultRateLimiter.ts:68-90 | one step of the rule keeps the wait time within [minWait, maxWait] when the increment is not negative |
| DefaultRateLimiter.StepInBounds | src/RateLimiter/DefaultRateLimiter.ts:142-178 | every response, error or wait keeps the wait time within the bounds |
| DefaultRateLimiter.RunInBounds | src/RateLimiter/DefaultRateLimiter.ts:72-75 | any sequence of calls keeps a wait time that starts within [minWait, maxWait] within it |
| DefaultRateLimiter.NewBucketStaysInBounds | src/RateLimiter/DefaultRateLimiter.ts:83-86 | if minWait <= initialWaitTime <= maxWait and the increment is not negative, a new bucket's wait time never leaves [minWait, maxWait] |
| DefaultRateLimiter.ParseHeaders | src/RateLimiter/DefaultRateLimiter.ts:93-130 | no contract of its own; parseInt of the three rate-limit headers, None when absent or NaN, characterised by `UnreadableHeaderIsMissing`, `NumeralHeader` and `ZeroRemaining` |
| DefaultRateLimiter.UnreadableHeaderIsMissing | src/RateLimiter/DefaultRateLimiter.ts:108-127 | a rate-limit header that parseInt cannot read parses exactly as if it were absent |
| DefaultRateLimiter.NumeralHeader | src/RateLimiter/DefaultRateLimiter.ts:115-120 | a header that holds the decimal numeral of n is read as n |
| DefaultRateLimiter.ZeroRemaining | src/RateLimiter/DefaultRateLimiter.ts:114-119 | a remaining header of '0' is read as 0 |
| DefaultRateLimiter.IsRateLimitError | src/RateLimiter/DefaultRateLimiter.ts:138-140 | no contract of its own; status 429, characterised by `ErrorHandling` (handleError answers true exactly for a 429 Response) |
| DefaultRateLimiter.AfterResult | src/RateLimiter/DefaultRateLimiter.ts:142-161 | no contract of its own; handleResult as a function of the state, characterised by `ResultDeadline`, `DeadlineDelaysWait` and `Bucket.HandleResult` |
| DefaultRateLimiter.Bucket.HandleResult | src/RateLimiter/DefaultRateLimiter.ts:142-161 | the new state is the adjusted state, with the deadline reset when no requests remain or the status is 429 |
| DefaultRateLimiter.ResultDeadline | src/RateLimiter/DefaultRateLimiter.ts:148-160 | when no requests remain or the status is 429, the deadline becomes max(reset*1000, now + waitTime), or now + waitTime if no reset (or 0) is announced; otherwise the deadline is unchanged; timestamps and wait time are those of the adjustment |
| DefaultRateLimiter.DeadlineDelaysWait | src/RateLimiter/DefaultRateLimiter.ts:148-160 | once a deadline is set, the delay wait passes to `setTimeout` is at least the adjusted wait time |
| DefaultRateLimiter.ResetHeaderRespected | src/RateLimiter/DefaultRateLimiter.ts:152-159 | with remaining 0 and a reset value k other than 0, the delay wait passes to `setTimeout` reaches at least k*1000 ms |
| DefaultRateLimiter.ResetHeaderRespectedOnError | src/RateLimiter/DefaultRateLimiter.ts:163-170 | the same holds for a 429 error, which is also reported as handled |
| DefaultRateLimiter.AfterError | src/RateLimiter/DefaultRateLimiter.ts:163-174 | no contract of its own; handleError as a function of the state, characterised by `ErrorHandling`, `RateLimitErrorFields` and `ErrorInsideWindow` |
| DefaultRateLimiter.Bucket.HandleError | src/RateLimiter/DefaultRateLimiter.ts:163-174 | the new state and the answer are those of the handleError transition |
| DefaultRateLimiter.ErrorHandling | src/RateLimiter/DefaultRateLimiter.ts:163-174 | the answer is true exactly for a 429 Response. Only a 429 records `now` before handleResult. Any other Response goes through handleResult unchanged. A non-Response changes nothing |
| DefaultRateLimiter.RateLimitErrorFields | src/RateLimiter/DefaultRateLimiter.ts:165-169 | after a 429, the timestamps are the old ones plus `now`, filtered to the window, and the wait time takes one step by their number |
| DefaultRateLimiter.RecordedErrorKept | src/RateLimiter/DefaultRateLimiter.ts:165-169 | with a positive window, a recorded 429 is kept after the earlier timestamps that are still in the window |
| DefaultRateLimiter.ErrorInsideWindow | src/RateLimiter/DefaultRateLimiter.ts:165-169 | a 429 while every recorded error is still in the window appends `now` and steps the wait time by the new count |
| DefaultRateLimiter.Bucket.HandleResponse | src/RateLimiter/DefaultRateLimiter.ts:176-178 | a response is handled by handleResult alone |
| DefaultRateLimiter.Bucket.Wait | src/RateLimiter/DefaultRateLimiter.ts:180-192 | the delay passed to `setTimeout` is not negative and reaches the deadline, and a positive delay ends exactly at the deadline |
| DefaultRateLimiter.WaitDelay | src/RateLimiter/DefaultRateLimiter.ts:180-192 | the same delay, as a function of the state |
| DefaultRateLimiter.NewBucketDoesNotWait | src/RateLimiter/DefaultRateLimiter.ts:54-56 | a new bucket does not delay a request made at a time >= 0 |
| DefaultRateLimiter.DefaultRateLimiter.constructor | src/RateLimiter/DefaultRateLimiter.ts:199-208 | a new limiter has the resolved options and no buckets |
| DefaultRateLimiter.DefaultRateLimiter.GetBucket | src/RateLimiter/DefaultRateLimiter.ts:210-216 | a name's first use creates a fresh bucket with the limiter's options and the initial state, and later uses return the same bucket without changing the map; no other bucket changes |
| DefaultRateLimiter.DefaultRateLimiter.HandleError | src/RateLimiter/DefaultRateLimiter.ts:218-220 | the limiter's states and answer are those of handleError on the named bucket, with every other bucket unchanged |
| DefaultRateLimiter.DefaultRateLimiter.HandleResponse | src/RateLimiter/DefaultRateLimiter.ts:222-224 | the limiter's states are those of handleResponse on the named bucket, with every other bucket unchanged |
| DefaultRateLimiter.DefaultRateLimiter.Wait | src/RateLimiter/DefaultRateLimiter.ts:226-228 | the delay is that of the named bucket, and only that bucket's creation changes the states |
| DefaultRateLimiter.OtherBucketsUnchanged | src/RateLimiter/DefaultRateLimiter.ts:210-228 | calls on other names neither create nor change a bucket |
| DefaultRateLimiter.BucketsIndependent | src/RateLimiter/DefaultRateLimiter.ts:210-228 | each bucket of the limiter evolves as a lone bucket that sees only the calls made on its name |
| DefaultRateLimiter.ThreeRateLimitErrorsIncreaseWait | __tests__/RateLimiter/DefaultRateLimiter.test.ts:25-33 | with the defaults, three 429s in the window take the wait time from 1000 to 1500 |
| DefaultRateLimiter.QuietResponseDecreasesWait | __tests__/RateLimiter/DefaultRateLimiter.test.ts:34-44 | with window base 5000 and initial wait 2000, errors at 0, 1 and 2 are out of the window from time 5000002 on, and a response lowers the wait time to 1500 |
| DefaultRateLimiter.RateLimitErrorsStopAtMaxWait | __tests__/RateLimiter/DefaultRateLimiter.test.ts:45-59 | five 429s take the wait time 2000, 2000, 2500, 3000, 3000, never above maxWait |
| DefaultRateLimiter.ErrorsUpToMaxWait | __tests__/RateLimiter/DefaultRateLimiter.test.ts:45-59 | the same five steps hold for any options with that window, initial wait, maximum, increment and thresholds |
| DefaultRateLimiter.QuietResponsesStopAtMinWait | __tests__/RateLimiter/DefaultRateLimiter.test.ts:60-72 | three quiet responses take the wait time 1500, 1000, 1000, never below minWait |
| DefaultRateLimiter.RateLimitErrorDelaysWait | __tests__/RateLimiter/DefaultRateLimiter.test.ts:91-99 | after a 429, a new default bucket's wait passes a delay of 1000 ms |
| DefaultRateLimiter.NoRemainingRequestsDelaysWait | __tests__/RateLimiter/DefaultRateLimiter.test.ts:146-162 | a 404 with remaining 0 is not handled but still makes wait pass a delay of at least the wait time |
| NoOpRateLimiter.Step | src/RateLimiter/NoOpRateLimiter.ts:3-10 | each call answers as the contract requires: a response completes, an error gets an answer, and a wait gets a delay that is not negative |
| NoOpRateLimiter.Run | src/RateLimiter/NoOpRateLimiter.ts:3-10 | a sequence of calls gets one outcome per call |
| NoOpRateLimiter.NeverHandlesNorDelays | src/RateLimiter/NoOpRateLimiter.ts:4-9 | in any sequence, no error is ever handled and every wait takes 0 ms |
| NoOpRateLimiter.HistoryIndependent | src/RateLimiter/NoOpRateLimiter.ts:3-10 | earlier calls do not affect the outcomes of later calls |
| NoOpRateLimiter.TestExamples | tests/unit/RateLimiter/NoOpRateLimiter.test.ts:6-32 | a 429 and an unrelated value are both answered false, and handleResponse and wait complete at once |
| PluralKitID.Parse | src/models/PluralKitID.ts:3-6 | accepts exactly the strings of 5 or 6 lower-case ASCII letters, unchanged |
| PluralKitID.FromString | src/models/PluralKitID.ts:11-15 | accepts exactly `xxx-xxx` or 5 to 6 letters in any case, and gives a canonical identifier equal to the input lower-cased without hyphens |
| PluralKitID.NormalizeLenientForm | src/models/PluralKitID.ts:13-15 | every string the lenient pattern accepts normalises to a canonical identifier, so the final pipe never fails |
| PluralKitID.NormalizeDisplayForm | src/models/PluralKitID.ts:13-14 | a string `xxx-xxx` of letters normalises to its two halves lower-cased, with the hyphen removed |
| PluralKitID.FromStringOfCanonical | src/models/PluralKitID.ts:14-15 | a canonical identifier parses to itself |
| PluralKitID.FromStringIdempotent | src/models/PluralKitID.ts:14-15 | parsing the result of a parse gives it back |
| PluralKitID.FromStringDisplayForm | src/models/PluralKitID.ts:13-14 | three letters, a hyphen and three letters, in any case, parse to the six letters lower-cased |
| PluralKitID.FromStringDisplayFormExample | __tests__/models/PluralKitID.test.ts:9 | 'AbC-DeF' parses to 'abcdef' |
| PluralKitID.FromStringOfLetters | src/models/PluralKitID.ts:13-14 | five or six letters in any case parse to the same letters lower-cased |
| PluralKitID.FromStringUpperCaseExample | __tests__/models/PluralKitID.test.ts:11 | 'ABCDE' parses to 'abcde' |
| PluralKitID.FromStringMixedCaseExample | __tests__/models/PluralKitID.test.ts:15 | 'AbCdEF' parses to 'abcdef' |
| PluralKitID.FromStringRejectedExamples | __tests__/models/PluralKitID.test.ts:20-26 | 'ab-cde', 'abc-de', 'asdfasasdf' and 'sdfasdf-sdfsafd' are rejected |
| Birthday.YearField | src/models/Birthday.ts:14 | a null year and year 0 (both falsy) are printed as 4, and a nonzero year as itself |
| Birthday.Encode | src/models/Birthday.ts:12-18 | no contract of its own; characterised by `EncodeParts`, `YearField`, `FieldFormat`, `EncodeMatchesFormat` and `DecodeEncode` |
| Birthday.EncodeParts | src/models/Birthday.ts:12-18 | a layout helper for `YearZeroShownAsHidden`: the encoding starts with the year field padded to at least 4 characters, followed by the rest of the text |
| Birthday.EncodeMatchesFormat | src/models/Birthday.ts:12-18 | the encoding matches the pattern exactly when the printed year is in 0..9999 and the month and day are in 0..99 |
| Birthday.Decode | src/models/Birthday.ts:22-37 | accepts exactly the strings that match `^[0-9]{4}-[0-9]{2}-[0-9]{2}$`, and gives the decimal values of the three fields, with year 4 as a hidden year |
| Birthday.FromFields | src/models/Birthday.ts:29-35 | year 4 and only year 4 becomes a hidden year, and the other values are kept |
| Birthday.DecodeEncode | src/models/Birthday.ts:12-36 | decoding the encoding gives the birthday back exactly when the year is hidden or in 1..9999 but not 4, and the month and day are in 0..99 |
| Birthday.DecodeOfEncode | src/models/Birthday.ts:12-36 | an encoding decodes exactly when it matches the pattern, and then to the birthday rebuilt from the printed year, month and day |
| Birthday.EncodeDecode | src/models/Birthday.ts:12-36 | encoding the decoding of a string that matches the pattern, with a year other than '0000', gives the string back |
| Birthday.YearZeroDecoded | src/models/Birthday.ts:25-35 | '0000-01-01' decodes to year 0, which does not survive the round trip |
| Birthday.YearZeroShownAsHidden | src/models/Birthday.ts:14 | for any month and day, year 0 is falsy and encodes exactly as the null year, starting '0004' |
| Birthday.EncodeExample | tests/unit/__tests__/models/Birthday.test.ts:8-10 | {2004, 1, 1} encodes to '2004-01-01' |
| Birthday.EncodeHiddenYearExample | tests/unit/__tests__/models/Birthday.test.ts:11-13 | {null, 1, 1} encodes to '0004-01-01' |
| Birthday.DecodeExamples | tests/unit/__tests__/models/Birthday.test.ts:16-21 | '0004-01-01' decodes to {null, 1, 1}, and '00-00-00' is rejected |
| Birthday.FieldFormat | src/models/Birthday.ts:14-16 | a padded field has at least its width, and is exactly that many digits exactly when the number is in 0..10^width-1 |
| DiscordSnowflake.IsSnowflake | src/models/DiscordSnowflake.ts:5-12 | no contract of its own; `BigInt(s).toString() === s`, false when BigInt throws, characterised by `SnowflakeIsCanonicalInteger` |
| DiscordSnowflake.Parse | src/models/DiscordSnowflake.ts:3-15 | accepts exactly the canonical decimal numerals of integers, unchanged |
| DiscordSnowflake.SnowflakeIsCanonicalInteger | src/models/DiscordSnowflake.ts:5-12 | the BigInt round trip `BigInt(s).toString() === s` holds exactly for canonical integer numerals |
| DiscordSnowflake.NonCanonicalNumeralsRejected | src/models/DiscordSnowflake.ts:8 | a string is rejected if it is empty, starts or ends with white space, starts with '+', or starts with '0' or '-0' and has more characters; this covers leading zeros, '0x1' and '-0', which BigInt converts but prints differently |
| DiscordSnowflake.FractionRejected | src/models/DiscordSnowflake.ts:7-11 | '1.5' cannot be converted to a BigInt and is rejected rather than thrown |
| DiscordSnowflake.WordRejected | src/models/DiscordSnowflake.ts:7-11 | 'abc' cannot be converted to a BigInt and is rejected |
| DiscordSnowflake.AcceptedExamples | __tests__/main.test.ts:11 | '0', the guild id of the test, is accepted unchanged; '1', '466378653216014359' and '-5' are further examples of the model's own, accepted unchanged too |
| Color.IsColor | src/models/Color.ts:5-11 | no contract of its own; `parseInt(s, 16)` is a number in 0..0xFFFFFF, characterised by `HexNumeralAccepted` and `SignedHexNumeralAccepted` |
| Color.Parse | src/models/Color.ts:3-12 | an accepted string is returned unchanged |
| Color.HexNumeralAccepted | src/models/Color.ts:5-11 | a run of hex digits followed by a non-digit, where the string does not start with '0x' or '0X', is accepted exactly when its value is at most 0xFFFFFF |
| Color.SignedHexNumeralAccepted | src/models/Color.ts:5-11 | the same after leading white space and an optional sign (no '0x' prefix after the sign): after '-' the run is accepted exactly when its value is 0, otherwise exactly when it is at most 0xFFFFFF |
| Color.NegativeZeroAccepted | src/models/Color.ts:7-8 | '-0' is accepted, since parseInt gives minus zero, which is not below 0 |
| Color.NegativeOneRejected | src/models/Color.ts:7-8 | '-1' is rejected as below 0 |
| Color.PaddedAccepted | src/models/Color.ts:7 | ' FF' is accepted, because parseInt skips leading white space |
| Color.PlusAccepted | src/models/Color.ts:7 | '+FF' is accepted, because parseInt skips a '+' sign |
| Color.ShortHexNumeralAccepted | src/models/Color.ts:7-8 | every run of 1 to 6 hex digits is accepted, whatever follows it |
| Color.LongHexNumeralRejected | src/models/Color.ts:8 | a run of 7 or more hex digits without a leading zero is out of range |
| Color.NoHexDigitRejected | src/models/Color.ts:7-8 | a string that does not start with a hex digit, white space or a sign is rejected |
| Color.FullWhiteAccepted | __tests__/models/Color.test.ts:7-9 | 'FFFFFF' is accepted unchanged |
| Color.SevenDigitsRejected | __tests__/models/Color.test.ts:10-12 | 'FFFFFFF' is rejected as out of range |
| Color.WordRejected | __tests__/models/Color.test.ts:13-15 | 'notacolor' is rejected |
| Color.TrailingCharactersIgnored | src/models/Color.ts:7 | 'FFFFFFzz' is accepted, because parseInt reads only the hex prefix |
| Color.HexPrefixSkipped | src/models/Color.ts:7 | '0x' followed by one to six hex digits, such as '0xFFFFFF', is accepted, because parseInt skips '0x' in radix 16 |
| EcmaScript.ParseIntAfterHexPrefix | src/models/Color.ts:7 | in radix 16, parseInt skips a '0x' prefix and reads the hex numeral after it |
| Color.SignedHexPrefixedAccepted | src/models/Color.ts:5-11 | with white space and a sign before '0x', the string is accepted exactly when the hex run after the prefix, signed, lies in 0..0xFFFFFF (after '-' only a zero run) |
| Color.LongHexPrefixedRejected | src/models/Color.ts:7-8 | '0x' followed by seven or more hex digits without a leading zero is out of range |
| Color.NegativeHexZeroAccepted | src/models/Color.ts:7-8 | '-0x0' is accepted, since parseInt gives minus zero |
| Color.NoHexDigitAfterSignRejected | src/models/Color.ts:7-8 | white space and an optional sign followed by nothing, or by a character that is no hex digit, white space or sign, are rejected |
| Color.SignAloneRejected | src/models/Color.ts:7-8 | '-' alone is rejected |
| Color.BareHexPrefixRejected | src/models/Color.ts:7 | '0x' alone leaves no digit and is rejected |
| AutoproxySettings.ParseMode | src/models/AutoproxySettings.ts:6 | an accepted mode is the string of its name |
| AutoproxySettings.ParseModeNames | src/models/AutoproxySettings.ts:6 | exactly 'off', 'front', 'latch' and 'member' are modes |
| AutoproxySettings.Parse | src/models/AutoproxySettings.ts:11-21 | every accepted object satisfies the front/member rule |
| AutoproxySettings.ParseCharacterization | src/models/AutoproxySettings.ts:11-21 | an object parses to settings exactly when they are valid and the object is their image, so accepted objects come back unchanged |
| AutoproxySettings.ParseToRaw | src/models/AutoproxySettings.ts:11-21 | every valid settings value is accepted |
| AutoproxySettings.ToRawOfParse | src/models/AutoproxySettings.ts:11-18 | the settings of an accepted object map back to that object |
| AutoproxySettings.OptionalSnowflakeRoundTrip | src/models/AutoproxySettings.ts:13-14 | an absent id or a valid snowflake is accepted as itself |
| AutoproxySettings.FrontWithMemberRejected | src/models/AutoproxySettings.ts:19-21 | mode 'front' with any member other than null is rejected |
| AutoproxySettings.EmptyObjectRejected | tests/unit/__tests__/models/AutoproxySettings.test.ts:32-34 | `{}` is rejected |
| AutoproxySettings.MemberModeExample | tests/unit/__tests__/models/AutoproxySettings.test.ts:7-21 | guild '1', mode 'member', a null member and a null timestamp are parsed unchanged |
| AutoproxySettings.FrontModeExample | tests/unit/__tests__/models/AutoproxySettings.test.ts:22-31 | mode 'front' with member 'member' is rejected |
| EcmaScript.ParseInt | src/RateLimiter/DefaultRateLimiter.ts:109-125 | no contract of its own; parseInt as in section 19.2.5 of ECMA-262 (also used by the Color and Birthday schemas), characterised by `ParseIntOfNumeral`, `ParseIntOfSignedNumeral`, `ParseIntSkipsWhiteSpace`, `ParseIntAfterHexPrefix` and `ParseIntOfDecimal` |
| EcmaScript.ParseIntOfNumeral | src/models/Color.ts:7 | for radix 0 or 2..36, parseInt reads a digit run that is followed by a non-digit as the run's value in the radix (10 for radix 0), provided that in radix 0 or 16 the string does not start with '0x' or '0X' |
| EcmaScript.ParseIntOfSignedNumeral | src/models/Color.ts:7 | the same after any leading white space and one optional sign: the run's value, negated after '-' |
| EcmaScript.ParseIntSkipsWhiteSpace | src/models/Color.ts:7 | leading white space does not change parseInt's result in any radix |
| EcmaScript.ParseIntOfSignedHexPrefixed | src/models/Color.ts:7 | in radix 16 or an omitted radix, after white space and one sign, a '0x' prefix is skipped and the hex run after it is read, negated after '-' |
| EcmaScript.ParseIntWithoutDigits | src/models/Color.ts:7 | white space and one sign followed by nothing, or by a character that is no digit of the radix, white space or sign, give NaN |
| EcmaScript.StringToBigInt | src/models/DiscordSnowflake.ts:8 | no contract of its own; StringToBigInt of section 7.1.14 of ECMA-262, characterised by `DiscordSnowflake.SnowflakeIsCanonicalInteger` |
| EcmaScript.BigIntToString | src/models/DiscordSnowflake.ts:8 | every numeral it prints is a canonical integer numeral |
| EcmaScript.ParseIntOfDecimal | src/models/Birthday.ts:27 | parseInt reads the decimal numeral of n as n |
| EcmaScript.PadStart | src/models/Birthday.ts:14-16 | the result is at least `width` long, exactly `width` when the string is shorter, ends with the string, and has only the fill character before it |
| EcmaScript.Split | src/models/Birthday.ts:26 | there is at least one part; `JoinSplit` shows that the parts joined with the separator give the string back |
| EcmaScript.JoinSplit | src/models/Birthday.ts:26 | split on a character loses nothing: joining the parts gives the string back |
| EcmaScript.ToLowerCase | src/models/PluralKitID.ts:14 | lower-casing keeps the length and lowers each ASCII capital |
| EcmaScript.RemoveAll | src/models/PluralKitID.ts:14 | the result contains no hyphen and is no longer than the input |

## Left out

- Real time and sleeping. Time is a `now` parameter, and `wait` returns the delay it would pass to `setTimeout` instead of calling it.
  - One operation reads `Date.now()` several times; the model uses a single instant for all of them.
- Logging. `debugLog` and the `debug` option only print, so they are not modelled.
- Concurrency. Concurrent callers of `wait` interleave on the JavaScript event loop; each call is modelled as atomic.
- The retry loop. The client never wraps requests in a rate limiter; only the limiter's own calls are modelled.
- Headers. A `Headers` object is a map keyed by lower-case name.
  - `parseHeaders` returns null only for a missing or non-object `headers`, which a `Response` never has, so that branch is not modelled.
  - `limit` is parsed but never used, as in the source.
- Options. An option passed explicitly as `undefined` overrides the default in the object spread; the model treats it as absent.
- The error window: the comment on the options speaks of a window of errorWindowBase * waitTime. The code uses minWait, which the model follows.
- Numbers. JavaScript numbers are modelled as unbounded integers.
  - Not modelled: fractions, NaN and Infinity as option or birthday values, precision loss above 2^53, and `toString`'s exponent form from 10^21 up.
  - NaN from parseInt is `None`.
- Birthday: the month and day are integers; fractional values (which `toString` prints with a '.') are not modelled.
- Strings. They are sequences of characters.
  - `toLowerCase` is modelled on ASCII letters only; every other character is kept.
  - White space for trimming is the ECMAScript set of StrWhiteSpaceChar in the basic plane.
- AutoproxySettings. The input object is modelled by the five values under its keys.
  - zod's stripping of unknown keys is not modelled.
  - A `Date` is its time value, and an invalid `Date` is rejected.
  - `AutoproxySettingsFromApi` depends on zod's ISO date-time parser and is not modelled.
- Brands. zod's `.brand` adds only a compile-time tag.
  - The branded snowflake types are aliases of one subset type.
  - `MemberID` is the `PluralKitID` subset type.
- DefaultRateLimiter.ResetHeaderRespected: the two tests of the reset header compute the reset second from the clock. The lemma states the bound for any reset second k other than 0 and leaves the clock arithmetic out; a reset of 0 is falsy in the source and gives only the wait time. The bound is on the delay handed to `setTimeout`, not on the time slept: hosts clamp a timer delay above 2147483647 ms (2^31-1) to about 1 ms, so for k*1000 - now above that the program sleeps about 1 ms.
- DefaultRateLimiter.Bucket.Wait: its delay, like that of `WaitDelay`, `DeadlineDelaysWait`, `ResetHeaderRespectedOnError` and `DefaultRateLimiter.Wait`, is the argument passed to `setTimeout`. The timer's own clamp of delays above 2147483647 ms (2^31-1), which makes such a wait end after about 1 ms, is host behaviour and is not modelled.
