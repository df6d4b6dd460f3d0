# WhatIsYourColor — a verified model of the colour hash, the mosaic grid and the submit decision

WhatIsYourColor is a small React page. It turns a text into a colour `#xxxxxx` and shows the colour in a modal. It also posts the pair (text, colour) to a form. Behind the page, a mosaic of every colour submitted so far is laid out on a grid. This project models the deterministic logic of `src/App.js` in Dafny:

- **`textToColor`** (`color_hash.dfy`, with `js_numbers.dfy` and `hex_format.dfy`).
  - A 31-multiplier rolling hash `hash = c + ((hash << 5) - hash)` runs over the UTF-16 code units of the text.
  - Each of the three low bytes is then written as two lower-case hex digits, low byte first.
  - In the source, `hash` is a JavaScript number and is never wrapped; only the operand `hash << 5` goes through ToInt32. The model keeps this: the accumulator is an unbounded `int` (`Accumulate`), and `ShiftLeft` applies ToInt32.
  - The model proves that the low 32 bits of the accumulator follow the 32-bit recurrence `h' = 31*h + c` (`Hash32`).
  - It proves that the colour's digit pairs are bytes 0, 1 and 2 of that 32-bit value, whatever sign `>>` propagates.
  - It proves that each pair reads back as the byte written, and that the padding is a bijection onto two-digit hex strings.
  - The hashing loop is the method `HashText`, proved against the function `Accumulate`. `TextToColor` calls it and runs the formatting loop, proved against the function `ColorCode`.
- **The mosaic grid** (`layout.dfy`).
  - The loop of `calculatePositions` is the method `CalculatePositions`.
  - It returns one position per snapshot row: column `i % columns`, row `i / columns`, stacked up from the bottom edge of the window.
  - It proves every box lies inside the window horizontally and no lower than the bottom edge, and no two rows share a box.
  - Nothing keeps boxes inside the top edge. Once i ≥ columns · floor(height / 15), `top` is negative and the box is drawn above the window (`CellAboveTop`).
- **The submit decision** (`app.dfy`). `AppState` is a class holding `inputText`, `colorCode`, `isModalOpen`, the submissions posted and the alerts shown. `HandleClick` takes the snapshot the duplicate test reads as a parameter. It always sets `colorCode` to the text's colour. Then:
  - If some row's `name` equals the text exactly, it raises the duplicate alert and leaves the modal and the submissions as they were.
  - Otherwise it records exactly one submission (text, colour) and opens the modal.

Behaviour of the code that a reader might not expect:
- **Empty text.** There is no empty-text guard: an empty text is submitted (colour `#000000`) unless some row has an empty name.
- **Hash width.** The accumulator is not wrapped to 32 bits. Its low bits still agree with the wrapped hash, which `AccumulateMatchesHash32` proves.
- **Duplicate text.** A duplicate alerts and aborts: the modal does not open.
- **Layout.** The layout is the full-recompute grid, not an incremental random drop.

Integer widths: JavaScript numbers are doubles. Every value the hash loop computes is an integer. `AccumulateExact` shows each one stays below 2^53 in magnitude for texts under 2^21 code units, so unbounded integers model the double arithmetic exactly there. The 32-bit conversions of `<<`, `>>` and `&` are written out in `JsNumbers`.

## Model

| member | source | states |
|---|---|---|
| JsNumbers.ToInt32 | src/App.js:191 | ToInt32: result is a signed 32-bit integer congruent to its argument modulo 2^32, and the identity on 32-bit values |
| JsNumbers.ShiftLeft | src/App.js:191 | `x << k` is a signed 32-bit integer congruent to x·2^(k mod 32) modulo 2^32 |
| JsNumbers.ShiftRight | src/App.js:195 | `x >> k` is the floor of ToInt32(x) / 2^(k mod 32): r·2^(k mod 32) ≤ ToInt32(x) < (r+1)·2^(k mod 32); a signed 32-bit integer, non-negative when ToInt32(x) is |
| JsNumbers.LowByte | src/App.js:195 | `x & 0xFF` lies in 0..255 and equals x mod 256 (ToInt32 does not change the low byte) |
| HexFormat.DigitChar | src/App.js:196 | the digit `toString(16)` writes for 0..15 is a lower-case hex digit, a decimal digit exactly for 0..9 |
| HexFormat.ToHexString | src/App.js:196 | `toString(16)` has no leading zero; one digit exactly below 16, two digits for 16..255 |
| HexFormat.ToHexStringIsHex | src/App.js:196 | `toString(16)` writes only lower-case hex digits |
| HexFormat.ToHexStringRoundTrip | src/App.js:196 | reading back `toString(16)` gives the number |
| HexFormat.SubstrFromEnd | src/App.js:196 | `substr(-n)` keeps min(n, length) characters and they are a suffix of the string |
| HexFormat.PadShape | src/App.js:196 | `('00' + t).substr(-2)` adds one `0` to a one-digit t and leaves a two-digit t as it is |
| HexFormat.PadByte | src/App.js:196 | a byte is written as exactly two characters |
| HexFormat.PadByteIsHex | src/App.js:196 | both characters of a padded byte are lower-case hex digits |
| HexFormat.PadByteRoundTrip | src/App.js:195-196 | reading back a padded byte gives the byte |
| HexFormat.ParsePadRoundTrip | src/App.js:195-196 | every two-digit lower-case hex string denotes a byte whose padding is that string (the padding is onto, hence a bijection) |
| HexFormat.HexPairs | src/App.js:193-197 | appending n padded bytes adds exactly 2n characters |
| HexFormat.HexPairsIsHex | src/App.js:193-197 | appended padded bytes are lower-case hex digits throughout |
| HexFormat.HexPairsRoundTrip | src/App.js:193-197 | splitting the appended pairs and reading each back recovers exactly the bytes, in order |
| ColorHash.Step | src/App.js:191 | one loop iteration `c + ((hash << 5) - hash)`: only the shift operand goes through ToInt32, the accumulator itself is never wrapped; no contract of its own, characterised by StepCongruence and AccumulateBound |
| ColorHash.Accumulate | src/App.js:189-192 | the value of `hash` after the hashing loop; no contract of its own, characterised by AccumulateMatchesHash32, AccumulateBound and AccumulateExact, and HashText is proved to compute it |
| ColorHash.StepCongruence | src/App.js:191 | one loop step `c + ((hash << 5) - hash)` is congruent modulo 2^32 to 31·hash + c |
| ColorHash.AccumulateMatchesHash32 | src/App.js:189-192 | the unwrapped accumulator agrees modulo 2^32 with the 32-bit recurrence h' = 31·h + c from 0 |
| ColorHash.AccumulateBound | src/App.js:189-192 | after n code units the accumulator's magnitude is at most n·(2^31 + 65535) |
| ColorHash.AccumulateExact | src/App.js:189-192 | below 2^21 code units every accumulator value and every `(hash << 5) - hash` lies strictly within ±2^53 (double arithmetic is exact) |
| ColorHash.ColorByte | src/App.js:195 | `(hash >> (i * 8)) & 0xFF`; no contract of its own beyond its type 0..255, characterised by ColorByteIsHashByte |
| ColorHash.ColorByteIsHashByte | src/App.js:194-195 | `(hash >> 8i) & 0xFF` for i < 3 is bits 8i..8i+7 of hash mod 2^32; sign extension never reaches them |
| ColorHash.Hash32 | src/App.js:189-192 | the reference 32-bit hash h' = (31·h + c) mod 2^32 stays below 2^32 |
| ColorHash.ColorPrefix | src/App.js:193-197 | the colour string after n iterations of the formatting loop; no contract of its own, characterised by ColorPrefixPairs, and it is the invariant of TextToColor's loop |
| ColorHash.ColorCode | src/App.js:188-199 | textToColor(text) as a value; no contract of its own, characterised by ColorCodeFormat, ColorCodeBytes and EmptyTextIsBlack, and TextToColor is proved to compute it |
| ColorHash.ColorPrefixPairs | src/App.js:193-197 | after n formatting steps the colour is `#` followed by the hex pairs of colour bytes 0..n−1 |
| ColorHash.ColorCodeFormat | src/App.js:188-199 | every colour has length 7, starts with `#` and its other six characters are lower-case hex digits |
| ColorHash.ColorCodeBytes | src/App.js:193-198 | characters 1-2, 3-4, 5-6 are bytes 0, 1, 2 of the 32-bit hash (low byte first) and read back to those bytes |
| ColorHash.EmptyTextIsBlack | src/App.js:189-198 | the empty text gives `#000000` |
| ColorHash.HashText | src/App.js:189-192 | the hashing loop leaves `hash` equal to Accumulate(text), the value whose low 32 bits AccumulateMatchesHash32 relates to Hash32 |
| ColorHash.TextToColor | src/App.js:188-199 | the two loops compute ColorCode(text), which ColorCodeFormat and ColorCodeBytes characterise: `#`, then the 32-bit hash's bytes 0, 1, 2 as lower-case hex pairs |
| Layout.Columns | src/App.js:49 | `floor(width / 15)` is at least 1 and the largest number of whole boxes that fit in the width |
| Layout.Cell | src/App.js:53-57 | the position of entry i: column i % columns, row i / columns, stacked up from the bottom edge; no contract of its own, characterised by CellInBounds, CellAboveTop and CellInjective, and CalculatePositions is proved to compute it |
| Layout.CellInBounds | src/App.js:49-57 | each box has 0 <= left, left + 15 <= width and top <= height − 15 |
| Layout.CellAboveTop | src/App.js:49-57 | for a non-negative window height, box i has a negative `top` (lies above the window) exactly when i ≥ columns · floor(height / 15) |
| Layout.CellInjective | src/App.js:53-57 | two indices with the same (left, top) are equal |
| Layout.CalculatePositions | src/App.js:45-63 | exactly one position per snapshot row; entry i has left (i % columns)·15 and top height − (i / columns + 1)·15; all in bounds and pairwise distinct |
| App.IsDuplicate | src/App.js:83-85 | true exactly when some row's name equals the text |
| App.AppState.constructor | src/App.js:13-16 | empty text and colour, modal closed, nothing submitted or alerted |
| App.AppState.HandleChange | src/App.js:73-75 | the input's value becomes inputText; nothing else changes |
| App.AppState.HandleClick | src/App.js:77-94 | colorCode becomes the text's colour; a duplicate only alerts (no submission, modal unchanged); otherwise exactly one submission (text, colour) and the modal opens |
| App.AppState.SubmitForm | src/App.js:96-106 | exactly one form body (text, colour) is appended to the submissions; nothing else changes |
| App.AppState.CloseModal | src/App.js:108-110 | the modal is closed; nothing else changes |

## Left out

- Fetching the snapshot is not modelled: `fetchSheetData`, its 5-second polling, UTF-8 decoding and `Papa.parse` (src/App.js:23-42) are network I/O and a third-party parser. The snapshot is a parameter of HandleClick, a sequence of rows with a `name`.
- The awaited refresh before the duplicate test, and its stale closure over `sheetData` (src/App.js:81-85), are React state and async timing. Which snapshot the test reads is the caller's choice.
- The HTTP POST in submitForm (src/App.js:101-105) is network I/O. A submission is the form body appended to `submissions`.
- The random `delay` of each box (src/App.js:58) is nondeterministic floating point and is dropped from Position.
- `getColorName` / `ntc.name` (src/App.js:120-123) is a third-party lookup.
- Browser plumbing is left out: the `isMobile` user-agent test (src/App.js:12), the resize listener (src/App.js:66-70), and `handleKeyDown`, which only forwards Enter to handleClick (src/App.js:112-117).
- The JSX rendering, the transitions and the refs (src/App.js:125-177) are UI.
- src/Modal.js and src/ModalMobile.js are not part of this model: image export through html2canvas, the download through a link or an object URL, and the mouse-driven tilt effect are browser and library calls and floating point.
- ColorHash.TextToColor: requires fewer than 2^21 code units. Beyond that bound, the double rounding of the source's number arithmetic is not modelled.
- ColorHash.HashText: requires fewer than 2^21 code units, for the same reason as TextToColor.
- App.AppState.HandleClick: requires an inputText under 2^21 code units, for the same reason as TextToColor.
- Layout.CalculatePositions: requires a window at least 15 pixels wide. Below that, `columns` is 0 and the source computes NaN positions. Widths and heights are integers (as `innerWidth` and `innerHeight` are).
