# Cryptex: a verified model of the Caesar-cipher puzzle logic

The program is a browser puzzle toy (`script.js`): two concentric letter rings
that the player turns to decode a Caesar-cipher puzzle, a list of puzzles kept
in the browser's storage, and a password-gated admin panel that adds and
deletes puzzles. This project models its logic layer in Dafny:

- `Js` (js.dfy): JavaScript's sign-keeping `% 26`, `Math.round`, and ASCII
  `toUpperCase`/`trim`.
- `Cipher` (cipher.dfy): `encrypt`, defined for every integer shift, with its
  laws: identity at 0 and commuting with trim for every shift; period 26,
  round trip and injectivity for non-negative shifts (they fail for negative
  ones, see Findings); and the normalised-shift variant described under
  Findings.
- `Rings` (rings.dfy): `snap`, `normalize`, `calculateOffset` on exact reals,
  and the drag gesture of `setupInteraction` as the class `Dial`, whose fields
  are the two ring rotations and the gesture's closure state (`activeRing`,
  `startAngle`, `initialRot`).
- `Game` (game.dfy): the `Puzzle` record and the class `Session`, whose fields
  are `currentPuzzles`, `puzzleIdx`, `isAdminLoggedIn` and the storage slot
  (`Option<seq<Puzzle>>`, `None` when the key is absent). Its methods are
  `loadPuzzles`, `loadLevel`, `checkAnswer`, `nextLevel`, `verifyAdminLogin`,
  `savePuzzle`, `deletePuzzle` and `clearStorage`. The admin preview and the
  answer normalisation are pure functions.
- `Wrappers` (wrappers.dfy): `Option`.

Inputs the model cannot compute are parameters. The pointer's distance from
the centre, the assembly's radius and the pointer angle are reals. The
confirm dialogs are booleans. The shift field is an `int`, or an
`Option<int>` in the preview, where `None` stands for a field that does not
parse. What a level displays is returned as a `Screen` (level number, hint,
code).

## Model

| member | source | states |
|---|---|---|
| `Js.Rem26` | script.js:200 | JavaScript `% 26`: the remainder lies in [0,26) for a non-negative dividend and in (-26,0] for a negative one, and it is congruent to the dividend |
| `Js.Round` | script.js:112 | `Math.round` is the integer within (x-0.5, x+0.5], so halves round up |
| `Js.ToUpper` | script.js:172 | ASCII upper-casing keeps the length, leaves no lower-case letter and maps each character on its own |
| `Js.Trim` | script.js:172 | trimming yields a slice of the input, with only white space cut on either side and no white space left at either end |
| `Cipher.ShiftChar` | script.js:200 | a non-letter is kept; for shift >= 0 a letter at position p becomes the letter at (p+shift) mod 26; white space is never produced or consumed |
| `Cipher.Encrypt` | script.js:199-201 | same length as the input; every character outside A-Z, lower case included, is unchanged; for shift >= 0 each letter at p becomes the letter at (p+shift) mod 26 |
| `Cipher.EncryptZero` | script.js:199-201 | shift 0 is the identity |
| `Cipher.EncryptReduce` | script.js:199-201 | for shift >= 0 only shift mod 26 matters |
| `Cipher.EncryptPeriodic` | script.js:199-201 | for shift >= 0, shift + 26 gives the same code as shift |
| `Cipher.EncryptRoundTrip` | script.js:199-201 | for shift >= 0, encrypting with 26 - shift mod 26 decodes the code back to the text |
| `Cipher.EncryptInjective` | script.js:199-201 | for a fixed shift >= 0, equal codes come from equal texts |
| `Cipher.EncryptTrim` | script.js:200 | for every shift, trimming the code equals encrypting the trimmed text |
| `Cipher.NegativeShiftLeavesAlphabet` | script.js:200 | as written, "A" under shift -1 becomes "@", and shift 1 (the normalised negation) does not bring it back |
| `Cipher.NegativeShiftEscapes` | script.js:200 | as written, every letter whose shifted position is negative and not a multiple of 26 becomes a character outside A-Z |
| `Cipher.NormalizeShift` | script.js:200 | the JavaScript expression ((s % 26) + 26) % 26 equals the mathematical s mod 26, in [0,26) |
| `Cipher.EncryptNormalized` | script.js:200 | with the shift normalised first, every letter at p becomes the letter at (p+shift) mod 26 for every integer shift; other characters are unchanged |
| `Cipher.EncryptNormalizedRoundTrip` | script.js:200 | with normalised shifts, decoding with -shift restores the text for every integer shift |
| `Cipher.EncryptNormalizedAgrees` | script.js:200 | for shift >= 0 the normalised cipher and the cipher as written coincide |
| `Rings.Snap` | script.js:112 | the snapped rotation is an integer multiple of 360/26 and lies within (-step/2, step/2] of the rotation |
| `Rings.SnapIdempotent` | script.js:112 | snapping twice equals snapping once |
| `Rings.Normalize` | script.js:140-143 | the JavaScript fix-up of `Math.round(deg/step) % 26` gives the rounded step count mod 26, in [0,26) |
| `Rings.NormalizeSnap` | script.js:112-143 | snapping a ring does not change the letter index it shows |
| `Rings.NormalizeFullTurn` | script.js:140-143 | adding 360 degrees does not change the letter index |
| `Rings.Offset` | script.js:139-147 | the displayed offset is (inner steps - outer steps) mod 26, in [0,26) |
| `Rings.OffsetTurnBoth` | script.js:144-145 | turning both rings by the same whole number of steps keeps the offset |
| `Rings.Dial.constructor` | script.js:18-19 | both rotations start at 0 and no ring is active |
| `Rings.Dial.OnStart` | script.js:81-96 | a press inside 0.62 of the radius grabs the inner ring, otherwise the outer one; it records that ring's rotation and the pointer angle; no rotation changes |
| `Rings.Dial.OnMove` | script.js:98-108 | the active ring's rotation becomes the baseline plus the angle moved; the other ring and the gesture state are unchanged; with no active ring nothing changes |
| `Rings.Dial.OnEnd` | script.js:110-124 | only the active ring is snapped; afterwards no ring is active; the new offset is shown; with no active ring nothing changes and nothing is shown |
| `Rings.Dial.Drag` | script.js:81-124 | press, move and release leave the grabbed ring at snap(old rotation + angle dragged), the other ring untouched, the dial idle, and the gesture's recorded start angle and baseline rotation |
| `Game.ScreenFor` | script.js:163-166 | a level shows number index+1 and the puzzle's hint, and its code has the answer's length |
| `Game.ScreenDecodes` | script.js:163-166 | for shift >= 0 the code a level shows decodes back to the puzzle's answer |
| `Game.Canonical` | script.js:172 | an answer as read has no lower-case letter and no surrounding white space |
| `Game.CanonicalFixed` | script.js:172-176 | an answer with no lower-case letter and no surrounding white space reads as itself, so typing a stored answer exactly is accepted |
| `Game.CanonicalIdempotent` | script.js:172 | reading an answer twice gives the same as reading it once |
| `Game.NonCanonicalNeverMatches` | script.js:172-176 | a stored answer not in canonical form can never be matched, whatever is typed |
| `Game.CaseIgnored` | script.js:172-176 | the letter case of the typed input never changes whether it is accepted |
| `Game.PaddingIgnored` | script.js:172-176 | white space typed around the input never changes whether it is accepted |
| `Game.Preview` | script.js:305-309 | the preview has the typed answer's length, and with an unparsable shift it is the upper-cased answer itself |
| `Game.PreviewShowsLevelCode` | script.js:305-308 | for every shift, the admin preview trimmed is the code the saved puzzle shows on its level |
| `Game.PreviewDecodes` | script.js:305-308 | for shift >= 0 the preview decodes back to the upper-cased answer; an unparsable shift previews the answer itself |
| `Game.Splice` | script.js:279 | `splice(i, 1)` removes exactly the entry at the clamped start (negative i counts from the end), keeps the others in order, and removes nothing past the end |
| `Game.ChaveCode` | script.js:166 | the answer CHAVE under key 5 is shown as HMFAJ |
| `Game.Session.constructor` | script.js:150-157 | a page load takes the stored list, or seeds exactly [FUTURO, 3, "Ainda não aconteceu"] and stores it; the index is 0, the admin flag false, and the index points at a puzzle whenever there is one (a stored empty list is kept as it is) |
| `Game.Session.LoadPuzzles` | script.js:150-157 | called at start-up with index 0, the stored list is taken as is; an absent one is replaced by the single default puzzle, which is stored; the index then points at a puzzle whenever there is one |
| `Game.Session.LoadLevel` | script.js:159-169 | with no puzzles nothing happens; otherwise an index past the end becomes 0, the index is in range, and the screen shows level index+1, the hint and the encrypted answer |
| `Game.Session.CheckAnswer` | script.js:171-176 | with the session invariant and a current puzzle, the input is accepted iff its upper-cased, trimmed form equals the current answer (`AnswerMatches`) |
| `Game.Session.NextLevel` | script.js:193-197 | the index advances by one and wraps from the last puzzle to 0; the new level is shown |
| `Game.Session.VerifyAdminLogin` | script.js:241-248 | the admin flag is set iff the password equals "123" exactly; a wrong password shows "Senha Incorreta" and leaves the flag unchanged |
| `Game.Session.SavePuzzle` | script.js:287-298 | exactly one puzzle (canonical answer, shift, hint) is appended and stored iff the answer and the hint are non-empty; otherwise nothing changes |
| `Game.Session.DeletePuzzle` | script.js:277-285 | once confirmed, the list is the splice at i and is stored; the index resets to 0 only at or past the new end; the level is shown again; unconfirmed, nothing changes |
| `Game.Session.ClearStorage` | script.js:302 | once confirmed, the slot is emptied and the reloaded session holds exactly the default puzzle; unconfirmed, nothing changes |

## Left out

- Rendering and layout: `initRings`, `createLetters`, `updateRingVisuals`, `renderList`, `switchTab`, `updateCount`, `toggleModal`, `openAdmin` and `showDashboard` only write to the page. The answer input and the feedback text that `loadLevel` clears are not modelled.
- Feedback of `checkAnswer`: the sounds, the overlays, the screen shake and the 500 ms timer that hides them do not affect the game state.
- `playSound`: Web Audio synthesis, an external API with floating-point ramps.
- Pointer geometry: `getAngle` (`Math.atan2`) and `getDist` (`Math.hypot`) become the real inputs of `OnStart` and `OnMove`.
- Floating point: rotations are exact reals, so the rounding error of `360 / 26` in doubles is not modelled.
- Storage and JSON: the storage key is a field holding the list itself. A `JSON.parse` failure on malformed data is not modelled; the source does not recover from it either.
- `Game.Session.ClearStorage`: the page reload is modelled as a fresh `Session` over the emptied slot. What happens to the old page is outside the model.
- Number precision: the shift and `charCodeAt(0) - 65 + shift` are exact unbounded integers, where the source computes in doubles that lose precision above 2^53.
- `parseInt`: a shift that does not parse (`NaN`) is not modelled in `savePuzzle`; the shift is an `int`.
- `Js.ToUpper`, `Js.Trim`: ASCII only. Non-ASCII case mapping and Unicode white space (such as no-break space) are not modelled.
- `Game.Session.NextLevel`: requires at least one puzzle. With an empty list the source sets the index to `NaN`. The button is reachable only after a correct answer, which needs a current puzzle.
- `Game.Session.CheckAnswer`: requires the session invariant and a non-empty list, so that the index points at a puzzle. Otherwise the source throws a `TypeError` when it reads `.text` of `undefined`.
- The admin flag guards only the dashboard view. `deletePuzzle` and `savePuzzle` do not check it, and neither does the model.
- The resize handler and the transition styles set in `onStart`/`onEnd`: these are timers and presentation only.

## Findings

| source | as written | input that shows it | evidently intended | confidence | as-written member | corrected member |
|---|---|---|---|---|---|---|
| script.js:199-201 | `(pos + shift) % 26` uses JavaScript's sign-keeping remainder, and no caller normalises the shift; the admin form accepts any integer shift (script.js:289) | text "A" with shift -1 shows "@", and shift 1 does not decode it back | rotate each letter by shift mod 26 for every integer shift, e.g. by `((shift % 26) + 26) % 26` | medium, not executed | `Cipher.NegativeShiftLeavesAlphabet`, `Cipher.NegativeShiftEscapes` | `Cipher.EncryptNormalizedRoundTrip` |

`Cipher.EncryptNormalizedAgrees` shows that the corrected cipher and the
cipher as written coincide on every non-negative shift. Level screens
(`Game.ScreenFor`) and the admin preview still use `Cipher.Encrypt` as
written, because that is what the program displays. On the shifts the form
is meant for, the two agree.
