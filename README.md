# Keyboard entry time

A Dafny model of the keyboard service of `dpf220691/keyboard`. The service computes how long it takes to type a numeric code on a 3×3 keypad. The keypad layout is an input: a string that lists the keys in row-major order. The cell of the key at index `i` is column `i % 3`, row `i / 3`. Moving from one key to the next costs the king-move (Chebyshev) distance between their cells, `max(|dx|, |dy|)`. Moving to the first key costs 0, and pressing a key costs 0.

Everything is in `keyboard_service.dfy`, module `KeyboardService`. It mirrors `KeyboardServiceImpl.java`:

- **Grid geometry:** `GetX`, `GetY` and `Distance`.
- **Validation:** `AllKeysMatch`, `UniqueKeysCount`, `IsValidCode` and `IsValidKeypad`.
- **Digit-to-index table:** `GetKeypadIndexesByKey` is a method with a loop that fills a `map<char, nat>`, as the Java stream does with its counter. `KeypadTable` is a map comprehension that specifies it.
- **The fold in `entryTime`:** `SumMoves` is a loop over consecutive pairs of code keys. `Travel` specifies it as a recursive left fold, matching the order of `IntStream.reduce`.
- **`EntryTime`:** validates, builds the table, then folds.

`entryTime` can end in two different exceptions, so the model has two error values:

- `InvalidArgument`: Java's `IllegalArgumentException` at line 29, raised when the code or the keypad fails validation.
- `DuplicateKey`: Java's `IllegalStateException`, raised by `Collectors.toMap` when a key appears twice.

`isValidKeypad` checks that there are 9 distinct characters and that all of them match `[1-9]`. It never checks that the length is 9. So a longer keypad with a repeated digit, such as `"1234567891"`, passes validation and then fails while the table is built. A repeated key is therefore never resolved by keeping its first occurrence: it ends in `DuplicateKey`. `EntryTime`'s contract gives all three outcomes:

- invalid input gives `InvalidArgument`;
- a valid keypad longer than 9 gives `DuplicateKey`;
- a valid keypad of exactly 9 gives `Ok` of the fold.

The worked examples `DiagonalExample`, `CornerExample` and `RowExample` are stated about `Travel` over the table of `"123456789"`. They carry over to `EntryTime`: `StandardLayout` shows that this keypad is accepted and has 9 keys, and the codes are valid, so by the third `ensures` of `EntryTime` it returns `Ok` of exactly that `Travel` value. For example, `EntryTime("159", "123456789")` is `Ok(2)`.

Java's `split("")` turns the empty string into one empty piece. So `getUniqueKeysCount("")` is 1 and `allKeysMatch("")` is false. `UniqueKeysCount` and `AllKeysMatch` model this case explicitly.

`getY` divides by `KEYBOARD_HEIGHT` where row-major order calls for `KEYBOARD_WIDTH`. Both are 3, so this makes no difference. `GetY` keeps the source's divisor.

## Model

| member | source | states |
|---|---|---|
| `KeyboardService.GetX` | src/main/java/com/ing/mwchapter/services/impl/KeyboardServiceImpl.java:64-66 | the column of any index lies in 0..2 |
| `KeyboardService.GetY` | src/main/java/com/ing/mwchapter/services/impl/KeyboardServiceImpl.java:68-70 | the row of an index in 0..8 lies in 0..2 |
| `KeyboardService.CellDeterminesIndex` | src/main/java/com/ing/mwchapter/services/impl/KeyboardServiceImpl.java:64-70 | row and column recover the row-major index, so distinct indices are distinct cells |
| `KeyboardService.Distance` | src/main/java/com/ing/mwchapter/services/impl/KeyboardServiceImpl.java:58-62 | the distance is 0 exactly when the two indices are equal; it is at most 2 on the 3×3 grid; it is at least the column difference and at least the row difference |
| `KeyboardService.DistanceSymmetric` | src/main/java/com/ing/mwchapter/services/impl/KeyboardServiceImpl.java:58-62 | the distance from a to b equals the distance from b to a |
| `KeyboardService.DistanceTriangle` | src/main/java/com/ing/mwchapter/services/impl/KeyboardServiceImpl.java:58-62 | a detour through a third key is never shorter (triangle inequality) |
| `KeyboardService.KeyIsDigit` | src/main/java/com/ing/mwchapter/services/impl/KeyboardServiceImpl.java:17 | a character matches `[1-9]` exactly when it is one of the nine digits |
| `KeyboardService.AllKeysMatch` | src/main/java/com/ing/mwchapter/services/impl/KeyboardServiceImpl.java:82-85 | true exactly when the sequence is non-empty and every character is a digit 1..9 |
| `KeyboardService.UniqueKeysCount` | src/main/java/com/ing/mwchapter/services/impl/KeyboardServiceImpl.java:87-91 | for a non-empty sequence, the number of distinct characters, never more than the length; for the empty string, the single empty piece of the split |
| `KeyboardService.IsValidCode` | src/main/java/com/ing/mwchapter/services/impl/KeyboardServiceImpl.java:72-75 | a code is accepted iff it is non-empty and every character is a digit 1..9 |
| `KeyboardService.IsValidKeypad` | src/main/java/com/ing/mwchapter/services/impl/KeyboardServiceImpl.java:77-80 | a keypad is accepted (9 distinct keys, all matching `[1-9]`) iff the set of its characters is exactly the nine digits 1..9 |
| `KeyboardService.KeySetSize` | src/main/java/com/ing/mwchapter/services/impl/KeyboardServiceImpl.java:87-91 | a string has at most as many distinct characters as its length, and exactly that many iff no character repeats |
| `KeyboardService.KeypadAcceptance` | src/main/java/com/ing/mwchapter/services/impl/KeyboardServiceImpl.java:77-80 | the two keypad checks together (9 distinct keys, every key matching `[1-9]`) hold iff the set of the keypad's characters is exactly the nine digits 1..9 |
| `KeyboardService.KeypadLength` | src/main/java/com/ing/mwchapter/services/impl/KeyboardServiceImpl.java:77-80 | an accepted keypad has at least 9 characters, and has no repeated key iff it has exactly 9 |
| `KeyboardService.LongKeypadRepeats` | src/main/java/com/ing/mwchapter/services/impl/KeyboardServiceImpl.java:53-55 | "1234567891" is accepted by validation yet repeats a key, so building its table must fail |
| `KeyboardService.KeypadTable` | src/main/java/com/ing/mwchapter/services/impl/KeyboardServiceImpl.java:49-56 | the table's keys are the keypad's characters, the key at index i maps to i, and every value is below the keypad length |
| `KeyboardService.TableIsBijection` | src/main/java/com/ing/mwchapter/services/impl/KeyboardServiceImpl.java:49-56 | for an accepted 9-key keypad the table is a bijection from the digits 1..9 onto the cells 0..8 |
| `KeyboardService.GetKeypadIndexesByKey` | src/main/java/com/ing/mwchapter/services/impl/KeyboardServiceImpl.java:49-56 | the scan succeeds iff no key repeats; it then returns the scan-order table, and otherwise fails with `DuplicateKey` |
| `KeyboardService.Travel` | src/main/java/com/ing/mwchapter/services/impl/KeyboardServiceImpl.java:35-40 | the left fold over consecutive pairs: `MOVE_TO_FIRST_KEY_TIME` (0) for a code of at most one key, otherwise the fold over all but the last key plus `PRESS_KEY_TIME` (0) plus `MOVE_TO_ADJACENT_KEY_TIME` (1) times the distance between the cells of the last two keys; its contract states that a code of one key costs 0 |
| `KeyboardService.TravelPrepend` | src/main/java/com/ing/mwchapter/services/impl/KeyboardServiceImpl.java:35-40 | putting a key in front of a code adds exactly the distance from that key to the old first key |
| `KeyboardService.TravelReversed` | src/main/java/com/ing/mwchapter/services/impl/KeyboardServiceImpl.java:35-40 | typing a code backwards takes as long as typing it forwards (so "XY" and "YX" cost the same) |
| `KeyboardService.TravelBound` | src/main/java/com/ing/mwchapter/services/impl/KeyboardServiceImpl.java:35-40 | with all cells in 0..8 the total time is at most 2·(length − 1) |
| `KeyboardService.TravelAtLeastDirect` | src/main/java/com/ing/mwchapter/services/impl/KeyboardServiceImpl.java:35-40 | the total time is at least the distance from the first key straight to the last |
| `KeyboardService.TravelZero` | src/main/java/com/ing/mwchapter/services/impl/KeyboardServiceImpl.java:35-40 | with distinct cells per key, the total time is 0 iff the code repeats one key throughout |
| `KeyboardService.NoMissingKey` | src/main/java/com/ing/mwchapter/services/impl/KeyboardServiceImpl.java:28-40 | once both validations pass on a 9-key keypad, every code digit has an entry in the table |
| `KeyboardService.SumMoves` | src/main/java/com/ing/mwchapter/services/impl/KeyboardServiceImpl.java:35-40 | the loop accumulating press and move times over consecutive pairs ends with the fold over consecutive pairs |
| `KeyboardService.EntryTime` | src/main/java/com/ing/mwchapter/services/impl/KeyboardServiceImpl.java:26-41 | invalid input fails with `InvalidArgument` before any computation; an accepted keypad longer than 9 fails with `DuplicateKey`; otherwise the result is the fold of distances over consecutive code digits; any result is at most 2·(length − 1), and 0 for a single key |
| `KeyboardService.StandardLayout` | src/main/java/com/ing/mwchapter/services/impl/KeyboardServiceImpl.java:49-56 | "123456789" is accepted, has no repeated key, and its table maps the key at every index i in 0..8 to cell i, so digit d sits in cell d − 1 |
| `KeyboardService.DiagonalExample` | src/main/java/com/ing/mwchapter/services/impl/KeyboardServiceImpl.java:35-40 | on "123456789", code "159" takes 2 |
| `KeyboardService.CornerExample` | src/main/java/com/ing/mwchapter/services/impl/KeyboardServiceImpl.java:35-40 | on "123456789", code "19" takes 2 |
| `KeyboardService.RowExample` | src/main/java/com/ing/mwchapter/services/impl/KeyboardServiceImpl.java:35-40 | on "123456789", code "123" takes 2 |

## Left out

- `@NotNull` and the `javax.validation` machinery (lines 11 and 27): inputs are plain sequences, never null.
- The `IKeyboardService` interface and any service or command-line wrapper: `IKeyboardService` is not part of this model.
- `toList` (lines 43-47): Dafny strings are already sequences of characters, so it is the identity. `EntryTime` uses the code as it is.
- `streamKeySequence` (lines 93-95): folded into `AllKeysMatch` and `UniqueKeysCount`. The regex `[1-9]` is the character predicate `IsKey`. Code points and UTF-16 code units are not distinguished, because no character outside 1..9 ever passes validation.
- The `AtomicInteger` counter (line 50): it is a local sequential counter, modelled as the loop index of `GetKeypadIndexesByKey`. Atomicity plays no role.
- EntryTime: the running total uses mathematical integers. Java's 32-bit `int` total would wrap only for codes of more than about a billion keys.
- The Java exception types themselves: they are the two values of the `Error` datatype.
