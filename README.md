# Mio-PassWord reveal engine, modelled in Dafny

Mio-PassWord helps a user memorise a numeric password. It generates a digit string, cuts it into
small groups, and reveals the groups one click at a time. Each group is padded to eight cells with
decoy digits, spliced in at random slots. This project models that engine, which is the logic in
`src/app/page.tsx`, and proves what it promises.

- `SequenceGenerator` (`sequence_generator.dfy`) models `generateComplexNumber`. The first digit is
  drawn from 1..9. Each later digit is drawn until it differs from the previous digit and does not
  complete a +1/-1 run of three. From the 20th attempt at a position on, only the repeat rule applies.
- `Segmenter` (`segmenter.dfy`) models `generateRandomSegments`. A secret of n ≥ 4 digits
  becomes `max(2, ⌊n/3⌋+1)` contiguous pieces. Each piece cut in the loop has 2–4 digits, capped
  so that 2 digits stay available for every later group. The last piece takes the rest. A secret
  of 1–3 digits stays one piece, and an empty one gives none.
- `NoiseInterleaver` (`noise_interleaver.dfy`) models `generateNoiseDigits` and
  `createSegmentWithNoise`. It draws decoys that never occur in the segment and splices each one
  into the row at a drawn slot.
- `SessionState` (`session_state.dfy`) holds the session's fields as one value, `Snapshot`, and the
  session invariant `SessionInvariant` over it. It defines each handler's effect as a function from
  the state before the click to the state after it (`AfterGenerate`, `AfterReset`, `AfterNext`,
  `AfterShowAll`), and proves what each one promises (`GenerateOutcome`, `ResetOutcome`,
  `NextOutcome`, `ShowAllOutcome`) and what a series of "next" clicks shows (`ClicksReveal`).
- `Handlers` (`handlers.dfy`) holds the handlers `generateNumber`, `resetDisplay`, `showNextPart` and
  `showAllSegments` as methods on the values of the fields. Each calls the generator methods as
  the source does and returns the state its queued `setX` calls commit. React commits those
  updates together at the next render, and the handler body reads the values the fields had when
  the click arrived. For example, `showNextPart` tests the old `currentPartIndex` after queuing its
  increment. `Handlers.PadAll` is the `segments.map(createSegmentWithNoise)` of `showAllSegments`.
- `RevealSession` (`reveal_session.dfy`) models the page's session state as the class `Session`.
  Its fields are the input field `digits`, `randomNumber`, `segments`, `displayedParts`,
  `currentPartIndex`, `showingCompleted` and `showAll`. Each handler method runs the `Handlers`
  method on the current fields and then commits the result (`Commit`). `Valid()` is the session
  invariant of the current fields, and every handler preserves it. `RevealInTurn` clicks "next"
  once per draw sequence it is given.
- `Digits` and `Wrappers` hold digit characters, `Min`/`Max` and `Option`. `Digits.DecimalValue` is
  `parseInt` on a string of decimal digits, read as the number the digits spell (page.tsx:187 and
  :192). Leading zeros are allowed. The field only ever holds such a string (see `SetDigits`).
- Two guards of the handlers are predicates on `Snapshot`. `SessionState.FieldTooSmall` is the
  `!digits || parseInt(digits) < 6` test of `generateNumber` (page.tsx:187). `SessionState.HasSecret`
  is the truthiness test `if (randomNumber)` of `resetDisplay` and `showAllSegments` (page.tsx:209
  and :234): `null` and `''` are both falsy. `AfterGenerate`, `AfterReset` and `AfterShowAll` branch
  on them exactly where the source does.

**Randomness.** Every `Math.floor(Math.random() * k)` becomes `r % k`, where `r` is the next value
of a draw sequence `rng: seq<nat>` passed in by the caller. Any value in `[0, k)` can be drawn this
way, and every contract holds for every draw sequence. Each generator also returns how many draws
it used. Each method is tied to a reference function of its draws (`Generated`, `Cut`, `Noise`,
`Padded`, `PaddedAll`, `AfterX`). That function says exactly when the result is `None`, and the
lemmas beside it say what the result is. The source's `do … while (true)` retry loops have no
bound. In the model they stop when the draws run out and return `None`, and the draws are then
all used up. No retry cap is invented. Running out is the only way to fail. The conditions are:
- `GenerateNoiseDigits`: fewer than `max(0, length)` draws give a digit absent from the segment.
- `CreateSegmentWithNoise`: `DrawsSuffice` does not hold.
- `GenerateRandomSegments`: fewer draws than cuts.

Draws that make each generator finish, as the page calls it, always exist:
`GeneratedReachable`, `PaddingReachable` (via `DecoyValuesAvailable`) and `PaddedAllReachable`.
`generateNoiseDigits` on its own is different. By `NoiseReachable`, some draws finish it exactly
when `length <= 0` or `realDigits` lacks some digit. With all ten digits present and a positive
`length`, its loop never ends. The page never makes that call. It passes `8 - segment.length`,
which is positive only for segments of fewer than 8 digits, and such a segment lacks a digit
(`DecoyValuesAvailable`).
Each result is the one the source would draw:
- each digit of the secret is the first draw the rule accepts at its position (`DrawnFrom`);
- the decoys are the first draws absent from the segment (`Kept`);
- each slot is `rng[k] mod (len(row) + 1)` (`Splice`);
- each cut is `2 + rng[i] mod (maxAllowed - 1)` (`CutsFollowDraws`).

**Where the code and its description differ (the model follows the code).**
- A run such as `123` is only a soft rule. Every attempt from the 20th on accepts any digit that is
  not a repeat, so `"123456"` can be produced. The contract of `GenerateComplexNumber` says exactly this: a run
  at position i implies `trials[i] >= 20`.
- The truncation at lines 117-121 never fires, because `4 * targetGroups > n` for every n.
- The early exit at lines 132-136 fires only for secrets of 1 to 3 digits, which stay one piece.
  From 4 digits on there are always exactly `targetGroups` pieces, and the last has at least 2 digits.
- A final piece can have more than 8 digits. For 32 digits it can have 12. Then `8 - length` is
  negative, so no decoy is added, and the group is the segment's own digits with every cell real.
  `LongSecretFinalGroupIsBare` proves this for a 32-digit secret cut with all-zero draws.
- `generateComplexNumber(length)` always emits its first digit, so a length below 1 gives 1 digit.

## Model

| member | source | states |
|---|---|---|
| `Digits.Char` | src/app/page.tsx:66-71 | `numbers[d]` is a digit character whose `Number` value is `d` again |
| `SequenceGenerator.DrawDigit` | src/app/page.tsx:79-99 | the do-while loop for one position: the digit, its attempt count and the draws used are exactly what `NextDigit` gives; running out uses every draw |
| `SequenceGenerator.NextDigitIsFirstAccepted` | src/app/page.tsx:79-99 | the do-while loop stops on the first draw the rule accepts, counting attempts from 1, and every draw before it was rejected by the rule at its attempt number; when it runs out, every remaining draw was rejected |
| `SequenceGenerator.GenerateComplexNumber` | src/app/page.tsx:65-107 | the result is exactly what `Generated` gives on the draws, so it fails only when they run out. The result has `max(1, length)` digits, and its first digit is `rng[0] mod 9 + 1`. Each later digit is the first draw the rule accepts at its position, and every draw skipped there was rejected (`DrawnFrom`). No two adjacent digits are equal. A +1/-1 run of three ends at position i only if attempt 20 or later accepted that digit. The attempts per position add up to the draws used |
| `SequenceGenerator.GeneratedReachable` | src/app/page.tsx:65-107 | for every length there are draws on which the generator finishes: alternating 3 and 1 after a first 1 is never a repeat and never a run |
| `SequenceGenerator.GeneratedExtends` | src/app/page.tsx:65-107 | once the draws complete a secret, more draws after them leave the secret, attempts and draws used unchanged |
| `Segmenter.TargetGroups` | src/app/page.tsx:110-119 | there are at least 2 target groups, and `4 * targetGroups` exceeds the secret length, so the truncation never applies |
| `Segmenter.Truncate` | src/app/page.tsx:117-121 | the truncated string is a prefix of length `min(len(s), max)`, and it is `s` itself when `s` fits |
| `Segmenter.EnoughForEveryGroup` | src/app/page.tsx:110-130 | a secret of 4 or more digits has 2 digits for each target group before the first cut |
| `Segmenter.RoomForACut` | src/app/page.tsx:124-140 | while 2 digits remain per group still to come, `maxAllowed >= 2` (no early exit), and the cut keeps 2 digits for each later group |
| `Segmenter.ShortSecretNoRoom` | src/app/page.tsx:124-136 | a secret of 1 to 3 digits has 2 target groups, and the first iteration takes the early exit |
| `Segmenter.CutIsPartition` | src/app/page.tsx:109-149 | `Cut` fails exactly when a secret of 4 or more digits gets fewer than `targetGroups - 1` draws. Otherwise its pieces concatenate to the secret, each cut follows its draw, and one draw is used per cut |
| `Segmenter.GenerateRandomSegments` | src/app/page.tsx:109-149 | the result is exactly what `Cut` gives on the draws. It fails exactly when fewer than `targetGroups - 1` draws are given to a secret of 4 or more digits. The pieces concatenate to the secret in order, and all are non-empty. All but the last have 2–4 digits. There are at most `targetGroups` pieces, exactly that many from 4 digits on, and then the last has at least 2 digits. A secret of 1–3 digits stays one piece. The i-th cut's size is `2 + rng[i] mod (maxAllowed - 1)` |
| `Segmenter.LastPieceBounds` | src/app/page.tsx:124-146 | from 4 digits on, the last piece has between 2 and `n - 2 * (targetGroups - 1)` digits |
| `Segmenter.ZeroDrawsLeaveLongestTail` | src/app/page.tsx:126-146 | with all draws 0, every cut takes 2 digits, and the last piece has the maximum `n - 2 * (targetGroups - 1)` digits |
| `NoiseInterleaver.RealDigits` | src/app/page.tsx:172 | mapping a segment to real cells gives one cell per digit; the real cells spell the segment, and there are no decoys |
| `NoiseInterleaver.InsertDecoy` | src/app/page.tsx:175-178 | splicing a decoy into any slot keeps the real digits and their order, and adds exactly one decoy |
| `NoiseInterleaver.DecoyValuesAvailable` | src/app/page.tsx:155-158 | at least `10 - len(realDigits)` digit values do not occur in the segment, so a segment of fewer than 10 digits always leaves a value for the redraw loop to accept |
| `NoiseInterleaver.NoiseReachable` | src/app/page.tsx:151-162 | some draws finish `generateNoiseDigits(length, realDigits)` if and only if `length <= 0` or some digit is absent from `realDigits`; with all ten digits present and `length > 0`, no draws finish it |
| `NoiseInterleaver.NoiseIsKept` | src/app/page.tsx:151-162 | drawing `count` decoys succeeds exactly when the draws hold `count` candidates absent from the segment, and the decoys are the first `count` of them, in order |
| `NoiseInterleaver.GenerateNoiseDigits` | src/app/page.tsx:151-162 | the result is exactly what `Noise` gives. It fails exactly when fewer than `max(0, length)` draws give a digit absent from `realDigits`, and it then uses all the draws. Otherwise the result is the first `max(0, length)` such digits, in draw order |
| `NoiseInterleaver.PaddedSucceeds` | src/app/page.tsx:164-184 | padding succeeds exactly when the decoys are found and, after the last of them, one draw is left per decoy for its slot |
| `NoiseInterleaver.CreateSegmentWithNoise` | src/app/page.tsx:164-184 | the result is exactly what `Padded` gives: the decoys drawn by `generateNoiseDigits`, each spliced in at slot `rng[k] mod (len(row) + 1)`. It succeeds exactly when `DrawsSuffice` holds. A segment of 8 or more digits always succeeds, uses no draw and shows its own digits. The group has `max(8, len(seg))` cells, and its real cells spell the segment in order. Exactly `max(0, 8 - len(seg))` cells are decoys, and each decoy is a digit that does not occur in the segment. `realLength == len(seg)` |
| `NoiseInterleaver.PaddingReachable` | src/app/page.tsx:155-178 | every segment has draws that pad it, because a digit it lacks always exists |
| `NoiseInterleaver.OversizedSegmentShownBare` | src/app/page.tsx:166-178 | a padded segment of 8 or more digits has no decoys; cell i is the segment's digit i, tagged real |
| `SessionState.TotalRealLengthIsConcatLength` | src/app/page.tsx:180-183 | when each group pads its segment, the `realLength`s add up to the length of the concatenated segments |
| `SessionState.PaddedAllPads` | src/app/page.tsx:241 | a finished map has one group per segment, and group i is a padding of segment i |
| `SessionState.PaddedAllReachable` | src/app/page.tsx:241 | every list of segments has draws on which the map finishes |
| `SessionState.LongSecretFinalGroupIsBare` | src/app/page.tsx:143-169 | a 32-digit secret cut with all-zero draws has 11 pieces, and the last has 12 digits; its group has 12 cells and no decoy |
| `SessionState.GenerateOutcome` | src/app/page.tsx:186-201 | an empty field or a value below 6 sets the field to `'6'` and changes nothing else. Otherwise it fails exactly when the draws run out for the secret or fewer than `targetGroups - 1` are left for its cut. The new secret is the drawn one and has the field's value as its length. The draws after it cut it into a partition. The display, the index and both flags are cleared, and the field is kept |
| `SessionState.GenerateKeepsInvariant` | src/app/page.tsx:186-201 | `generateNumber` keeps the session invariant |
| `SessionState.ResetOutcome` | src/app/page.tsx:203-212 | fails exactly when a secret is present and fewer than `targetGroups - 1` draws are given. It clears the display, the index and both flags, and keeps the secret and the field. With a secret, the draws cut that same secret anew; without one, the segments are untouched. The invariant holds after |
| `SessionState.NextOutcome` | src/app/page.tsx:214-231 | at or past the last segment nothing changes. Otherwise it succeeds exactly when `DrawsSuffice` holds for the current segment, and always for a segment of 8 or more digits. The display becomes exactly one padding of the current segment, and the index goes up by one. `showingCompleted` becomes true exactly when the old index was the last one, and otherwise keeps its value. No other field changes, and the invariant holds after |
| `SessionState.ShowAllOutcome` | src/app/page.tsx:233-246 | without a secret nothing changes. Otherwise it fails exactly when the cut lacks draws or the map runs out. The secret and the field are kept, and the new segments partition the secret, cut by the draws. Group i pads segment i, and the real lengths add up to the secret's length. The index equals the segment count, both flags are on, and the invariant holds after |
| `SessionState.ClicksReveal` | src/app/page.tsx:214-231 | after `n` clicks from a state reached by clicking: the index is `min(n, len(segments))`; the display holds just the group the last revealing click made of the segment before the index; `showingCompleted` holds exactly when `n` reaches a non-zero segment count; the secret and segments stay; clicking stops early only on a click whose draws cannot pad the current segment |
| `Handlers.PadAll` | src/app/page.tsx:241 | the result is exactly what `PaddedAll` gives: each segment padded in turn by `createSegmentWithNoise` on the draws the previous ones left. A finished map has one group per segment, and group i pads segment i. Running out of draws uses them all |
| `Handlers.GenerateNumber` | src/app/page.tsx:186-201 | `ok` holds exactly when `AfterGenerate` succeeds, and the new state is its result (described by `GenerateOutcome`); the invariant holds after |
| `Handlers.ResetDisplay` | src/app/page.tsx:203-212 | `ok` holds exactly when `AfterReset` succeeds, and the new state is its result (described by `ResetOutcome`); the invariant holds after |
| `Handlers.ShowNextPart` | src/app/page.tsx:214-231 | `ok` holds exactly when `AfterNext` succeeds, and the new state is its result (described by `NextOutcome`); the invariant holds after |
| `Handlers.ShowAllSegments` | src/app/page.tsx:233-246 | `ok` holds exactly when `AfterShowAll` succeeds, and the new state is its result (described by `ShowAllOutcome`); the invariant holds after |
| `RevealSession.Session.constructor` | src/app/page.tsx:20-27 | the session starts with field `'6'`, no secret, no segments, an empty display, index 0 and both flags off |
| `RevealSession.Session.SetDigits` | src/app/page.tsx:282-300 | storing an already-sanitised field value changes only the field |
| `RevealSession.Session.GenerateNumber` | src/app/page.tsx:186-201 | the fields change exactly as `AfterGenerate` says when it succeeds, and not at all otherwise; `Valid()` is kept |
| `RevealSession.Session.ResetDisplay` | src/app/page.tsx:203-212 | the fields change exactly as `AfterReset` says when it succeeds, and not at all otherwise; `Valid()` is kept |
| `RevealSession.Session.ShowNextPart` | src/app/page.tsx:214-231 | the fields change exactly as `AfterNext` says when it succeeds, and not at all otherwise; `Valid()` is kept |
| `RevealSession.Session.ShowAllSegments` | src/app/page.tsx:233-246 | the fields change exactly as `AfterShowAll` says when it succeeds, and not at all otherwise; `Valid()` is kept |
| `RevealSession.RevealInTurn` | src/app/page.tsx:214-231 | the session ends in the state `Clicks` gives. After `shown` clicks the index is `min(shown, len(segments))`, and the display holds the group the last revealing click made. The session is completed exactly when `shown` reaches a non-zero segment count, and the secret and segments stay. Clicking stopped early only on a click whose draws could not pad the current segment |

## Left out

- Rendering, CSS classes and React's `useState`/`useEffect`/`useRef` plumbing (lines 28-63, 259-415). The seven state fields are plain class fields. React's batched updates are modelled by computing the new state from the pre-update values (`Handlers`) and committing it in one step (`Session.Commit`).
- The `console.log` telemetry, which includes logging the password in clear (lines 35-40, 55-62, 217-221, 397-402). It is output only.
- The outside-click handler that closes the dialog (lines 31-52), and the `showModal` flag (lines 24, 200). The handler sets the index to 0 and empties the display. `Valid()` deliberately says nothing about the two flags, so it would still hold after that handler.
- Clipboard copy and `alert` (lines 248-257). They are asynchronous browser calls.
- The `onChange`/`onBlur` sanitising of the input field (lines 282-300). `SetDigits` requires what those handlers guarantee: a digit string whose value is at most 32. `parseInt` is modelled only on such strings.
- The caller disables the "next" click while `showAll` is set (line 331). `ShowNextPart` does not need that guard, because `ShowAllSegments` sets the index to the segment count, which makes it a no-op.
- The uniformity of `Math.random` and the resulting distribution of sizes, decoys and splice slots (including the non-uniform permutation from sequential splicing). Only which choices are possible is modelled.
- Running out of draws is a path the source does not have, because its retry loops would just go on drawing. A generator then returns `None`. A handler then returns `ok == false` and leaves the session unchanged.
- `src/components/HelpButton.tsx`, `src/components/LanguageSwitcher.tsx`, `src/i18n/useTranslation.ts` and `src/i18n/config.ts` are not part of this model. They are user-interface and translation lookups with no algorithmic content.
