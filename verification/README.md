# Text-to-Braille translator: a Dafny model

This project models the translator core of a small text-to-Braille tool. A
Braille cell is written as a string of six symbols, `O` for a raised dot and
`.` for a flat one. The core has five parts:

- **the alphabet** `ENGLISH_TO_BRAILLE`: one cell for each of a..z, 0..9,
  space and `, ; : . ! ?`. The digits 1..9 reuse the cells of a..i, `0` has a
  cell of its own, and `.` and `!` share one cell;
- **the control cells** `CAPITALIZE` (`.....O`) and `NUMBER_SIGN` (`....OO`),
  and the letter-to-digit constant `NUM_MAPPING`;
- **the inverse table** `BRAILLE_TO_ENGLISH`, a dict comprehension over the
  alphabet's items; for a shared cell the key inserted later wins;
- **the classifier** `is_braille`, which accepts a string when every
  character other than a space is `O` or `.`;
- **the encoder** `english_to_braille`, a left fold over the text with one
  flag, `number_mode`. A capital letter writes the capital sign and then the
  cell of its lower-case letter. A digit writes the number sign when it opens
  a run of digits, then its own cell. A space, and any other character, ends
  the run. A character whose lower-case form has no table entry gets the
  all-flat cell `......`, which is also the cell of the space.

Layout:

- `dict.dfy` (module `Dict`): a Python dict built from an ordered list of
  pairs, as a dict display or a comprehension does it. `FromItems` is the left
  fold with overwrite. `LastIndex` says independently which pair survives.
  There are lemmas for lookup, for the keys and values, for inversion, and for
  the round trip through an inverse.
- `alphabet.dfy` (module `Alphabet`): the tables and the facts proved about
  them.
  - The alphabet is kept as three literal lists (letters, digits, symbols).
    Their concatenation is the display's insertion order.
  - `Position` is the insertion index of each key.
  - The per-group lemmas check cell distinctness in small pieces.
- `classifier.dfy` (module `Classifier`): `is_braille` and `str.replace(' ', '')`.
- `encoder.dfy` (module `Encoder`): the encoder in three forms.
  - `Step` and `Run` are the fold. `Encode` is `''.join` of its cells.
  - `CellsAt` and `CellsUpTo` are a stateless reference: they read a
    character's cells off its neighbour instead of the mode flag.
  - `EncodeChar` and `EncodeText` are an imperative loop, proved equal to `Encode`.

## Model

| member | source | states |
|---|---|---|
| Dict.FromItems | translator.py:5-14 | a dict display's keys are exactly the keys of its pairs |
| Dict.LastIndex | translator.py:5-14 | the index of the last pair carrying a key, or -1 when no pair carries it |
| Dict.FromItemsLastWins | translator.py:5-14 | a key is present iff some pair carries it, and it holds the value of the last such pair |
| Dict.FromItemsValues | translator.py:5-14 | with distinct keys, the dict's values are exactly the pairs' values |
| Dict.Invert | translator.py:25 | the keys of `{v: k for k, v in items}` are exactly the values of the items |
| Dict.InvertLastWins | translator.py:25 | a value that no later pair carries inverts to its own pair's key |
| Dict.InvertRoundTrip | translator.py:25 | with distinct keys, for every key x of the inverse, looking up the inverse's answer in the original dict gives x back |
| Alphabet.TableDomain | translator.py:5-14 | the alphabet has an entry for exactly a..z, 0..9, space and `, ; : . ! ?` |
| Alphabet.CellsWellFormed | translator.py:5-18 | every table value, `CAPITALIZE`, `NUMBER_SIGN` and the default `......` (written at translator.py:41 and :52) is six symbols, each `O` or `.` |
| Alphabet.ControlCellsReserved | translator.py:5-18 | the two control cells differ from each other and from every table value; the default cell of translator.py:41 and :52 equals the space's cell |
| Alphabet.SharedCells | translator.py:5-14 | two distinct keys share a cell iff they are a letter among a..i and its digit 1..9, or `.` and `!`; `0` and `j` do not share one |
| Alphabet.InverseDomain | translator.py:25 | the inverse table's keys are exactly the alphabet's cells |
| Alphabet.InverseRoundTrip | translator.py:25 | for every cell x of the inverse table, the alphabet maps the character it decodes to back to x |
| Alphabet.InverseResolution | translator.py:25 | every key's cell decodes to the key itself, except that a..i decode to 1..9 and `.` to `!`; `O.....` decodes to `1` and `...OO.` to `!` |
| Alphabet.NumMappingAgainstTable | translator.py:21-24 | `NUM_MAPPING` covers exactly a..j; its digit shares the letter's cell for a..i but not for j |
| Alphabet.NumMappingAgainstInverse | translator.py:20-25 | `NUM_MAPPING` sends each of a..i to the digit its cell decodes to in `BRAILLE_TO_ENGLISH` (1..9), and sends j to `0`, although j's cell decodes to j |
| Classifier.RemoveSpaces | translator.py:30 | the result holds no space, holds each other character of the input exactly as often as the input does, and is shorter by the number of spaces |
| Classifier.RemoveSpacesConcat | translator.py:30 | removing spaces from a concatenation removes them from each part and keeps the parts in order |
| Classifier.IsBraille | translator.py:28-30 | true iff every non-space character of the input is `O` or `.` |
| Classifier.BlankIsBraille | translator.py:28-30 | the empty string and every string of spaces are classified as Braille |
| Classifier.IsBrailleConcat | translator.py:28-30 | a concatenation is classified as Braille iff both parts are |
| Encoder.Run | translator.py:35-53 | after the loop, the mode flag is on iff the last character is a digit; every appended item is a cell; there is one cell per character, plus one per capital letter, plus one per maximal run of digits |
| Encoder.Encode | translator.py:33-55 | the output length is 6 * (characters + capital letters + maximal digit runs); it is a multiple of 6 and is accepted by `is_braille` |
| Encoder.JoinCells | translator.py:55 | joining cells gives six symbols per cell, and the result is accepted by `is_braille` |
| Encoder.StepAppendsCellsAt | translator.py:38-53 | one loop iteration appends exactly the cells the stateless description gives for that character, when the flag says whether the previous character was a digit |
| Encoder.RunPrefix | translator.py:35-53 | the loop over any prefix writes the stateless cells of that prefix's characters, in order |
| Encoder.EncodeByCharacter | translator.py:38-55 | the encoder's cells are, character by character: capital sign then the lower-case letter's cell for a capital; number sign only before the first digit of a run, then the digit's cell; a table key's own cell; the space cell for anything else |
| Encoder.ControlCellCounts | translator.py:39-47 | the capital sign occurs once per capital letter and the number sign once per maximal digit run in the encoder's cells |
| Encoder.StepShape | translator.py:39-53 | one iteration appends one cell, one more for a capital and one more for a digit found with the flag off; the flag ends on iff the character is a digit; every appended item is a cell |
| Encoder.StepControlCells | translator.py:39-53 | one iteration adds one capital sign iff the character is a capital, and one number sign iff it is a digit while the flag is off |
| Encoder.RunExtend | translator.py:35-53 | two texts that leave the loop in the same state encode every continuation alike |
| Encoder.UnknownEncodesAsSpace | translator.py:41-53 | replacing a character whose lower-case form has no table entry by a space leaves the whole output unchanged |
| Encoder.EncodeChar | translator.py:39-53 | the loop body, written imperatively, computes the same state as one fold step |
| Encoder.JoinText | translator.py:55 | `''.join` written as a loop gives the joined cells, six symbols per cell |
| Encoder.EncodeText | translator.py:33-55 | the imperative loop returns the same string as the fold |

## Left out

- The `sys` import and any command-line entry point or printing (translator.py:2): this is input/output, and no code for it exists in the core.
- A Braille-to-text decoder and a round trip through it: translator.py has no decoder. `BRAILLE_TO_ENGLISH` and `NUM_MAPPING` are built, but nothing in the code reads them.
- Encoder.Run: text is restricted to ASCII by a precondition, and so are `Encode`, `EncodeText` and the lemmas about them. Outside ASCII, `str.isupper`, `str.isdigit` and `str.lower` follow Unicode tables that are not modelled. A non-ASCII digit such as `²` passes `isdigit` and then raises `KeyError` at translator.py:47.
- Python's string and list objects are modelled as immutable sequences. The `braille` list is a sequence of cells and `''.join` is concatenation.
