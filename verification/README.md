# cch-2024 core, modelled in Dafny

This project models the pure decision logic of a Rust web service built for a
seasonal coding challenge. The logic comes in five parts:

- **The Connect-Four engine** (`ConnectFour`, from `src/utils/connect_four.rs`).
  - A 4x4 board of optional milk/cookie markers.
  - Markers drop under gravity.
  - Full-column and full-board tests.
  - A four-in-a-row scan over the ten lines in a fixed order.
  - The emoji text rendering.
  - A board filled from a seeded random generator.
- **The shared game session** (`GameSession`, from `src/modules/day_twelve.rs`).
  - The `/board`, `/reset`, `/place/{player}/{column}` and `/random-board` routes.
  - Each is a pure function from (board, generator state, request) to (next state, status, body).
- **Cargo.lock checksums and the festive routes** (`Checksum` and `Decorations`, from `src/modules/day_twenty_three.rs`).
  - SHA-256 hex parsing with zero padding, and lower- and upper-case hex formatting.
  - The present colour cycle.
  - The ornament on/off switch.
- **Address "encryption"** (`NetworkAddress`, from `src/utils/network_address.rs`).
  - IPv4 octet-wise addition and subtraction modulo 256.
  - IPv6 segment-wise XOR.
- **Order extraction from a Cargo manifest** (`CargoManifest`, from `src/utils/cargo_manifest.rs` and `src/modules/day_five.rs`).
  - Content-type dispatch.
  - The magic-keyword gate.
  - The shape checks on `package.metadata.orders`.
  - The filter that keeps the well-typed orders in order.
  - The "item: quantity" text output.
  - The 204 answer when no order survives.

`Common` holds `Option`, `Result`, the byte type and ASCII lower-casing.
`SeededRng` holds the abstract seeded generator. `SeedFromU64` is the state right after
seeding (the seed, no draws yet), and `GenBool` yields the stream's bit at the current draw
index and moves to the next index.
`NetworkAddress.IntoOctets` is the `try_into` of the collected octet vector into an array of
four: it fails only when the length is not four, which the element-wise helpers rule out.

Several outside pieces enter as parameters:

- **The random generator.** Its bit stream is a function from (seed, draw index) to `bool`. The generator state is the seed plus the number of draws so far. Seeding with 2024 therefore gives the same state whenever it happens, with no extra assumption.
- **The TOML, JSON and YAML parsers.** They are a function from (format, body) to an optional parsed manifest.

Nothing else is assumed.

## Model

| member | source | states |
|---|---|---|
| ConnectFour.New | src/utils/connect_four.rs:16-20 | a new board has no occupied cell |
| ConnectFour.Reset | src/utils/connect_four.rs:108-110 | reset gives the empty board, equal to a new one, whatever the board held |
| ConnectFour.Random | src/utils/connect_four.rs:22-35 | the random board is full; cell (r, c) is a cookie iff draw number 4r + c is true (row-major order); the generator advances by exactly 16 draws |
| ConnectFour.DropRow | src/utils/connect_four.rs:41-46 | the bottom-up row scan finds the lowest empty cell of the column, or reports that every scanned cell is occupied |
| ConnectFour.Play | src/utils/connect_four.rs:37-48 | a column >= 4 fails with "Invalid column"; for a column < 4, "Column full" iff all four cells of the column are occupied; on success the marker lands in the lowest empty cell of the column and no other cell changes |
| ConnectFour.PlayPreservesSettled | src/utils/connect_four.rs:41-46 | a successful play keeps gravity (an occupied cell has only occupied cells below it) and never changes an occupied cell |
| ConnectFour.ColumnFullIffPlayFails | src/utils/connect_four.rs:41-58 | under gravity, `column_full` (which reads only the top row) holds exactly when a play into that column fails |
| ConnectFour.OpenTopAcceptsPlay | src/utils/connect_four.rs:56-58 | even without gravity, a play into a column whose top cell is empty succeeds |
| ConnectFour.IsColumnFull | src/utils/connect_four.rs:56-58 | `column_full` reads only the top cell, yet on a settled board it holds iff all four cells of the column are occupied; a fully occupied column always counts as full |
| ConnectFour.BoardFull | src/utils/connect_four.rs:50-54 | a full board is settled and every column of it is occupied; on a settled board `board_full` holds iff the top cell of every column is taken |
| ConnectFour.FullBoardRejectsPlay | src/utils/connect_four.rs:37-54 | no play succeeds on a full board: a column < 4 is full, and any other column is invalid |
| ConnectFour.BoardFullIffAllOccupied | src/utils/connect_four.rs:50-54 | at most 16 cells are occupied, and `board_full` holds iff all 16 are |
| ConnectFour.EmptyHasNoOccupied | src/utils/connect_four.rs:16-20 | an empty board has no occupied cell |
| ConnectFour.PlayAddsOne | src/utils/connect_four.rs:41-46 | a successful play occupies exactly one more cell |
| ConnectFour.PlayAllCounts | src/utils/connect_four.rs:37-48 | a run of successful plays keeps gravity, only adds markers, and adds one occupied cell per play |
| ConnectFour.SixteenPlaysFillBoard | src/utils/connect_four.rs:253-269 | from the empty board, no more than 16 plays can succeed, and 16 successful plays leave the board full |
| ConnectFour.PlayRaisesHeight | src/utils/connect_four.rs:41-46 | a play into a column that is not full succeeds, raises that column's height by one and leaves every other column alone |
| ConnectFour.PlaysWithinHeightSucceed | src/utils/connect_four.rs:234-239 | if no column receives more moves than it has free cells, every play succeeds and each column grows by the number of moves made into it |
| ConnectFour.FullColumnRejects | src/utils/connect_four.rs:47 | a column holding four markers rejects the next play with "Column full" |
| ConnectFour.FifthDropFails | src/utils/connect_four.rs:234-250 | four drops into one column of the empty board succeed, and the fifth fails with "Column full" |
| ConnectFour.LineOwner | src/utils/connect_four.rs:60-82 | the reference owner of a line is `Some(p)` iff all four cells of that row, column or diagonal hold `p` |
| ConnectFour.RunMatches | src/utils/connect_four.rs:71-80 | steps i to 3 of the run check pass iff every such step lands on the board (no negative `checked_add_signed` result, no index past 3) on a cell equal to the anchor cell |
| ConnectFour.CheckWinner | src/utils/connect_four.rs:60-82 | `check_winner` is `Some` iff the anchor is on the board and occupied and the four cells from it in the given direction are all on the board and equal to it; the result is the anchor's player |
| ConnectFour.CheckRowIsLine | src/utils/connect_four.rs:60-89 | `check_winner` from the start of a row, stepping right, reports the owner of that row |
| ConnectFour.CheckColumnIsLine | src/utils/connect_four.rs:91-95 | `check_winner` from the top of a column, stepping down, reports the owner of that column |
| ConnectFour.CheckDiagonalsAreLines | src/utils/connect_four.rs:97-103 | the two diagonal checks report the owners of the "\" and "/" diagonals; the "/" check steps left through the negative column delta |
| ConnectFour.WinnerIsFirstOwnedLine | src/utils/connect_four.rs:84-106 | `winner` returns the owner of the first owned line, scanning rows, then columns, then "\", then "/" |
| ConnectFour.WinnerSound | src/utils/connect_four.rs:84-106 | `Some(p)` is returned only for a line whose four cells all hold `p`, and every line scanned before it is unowned |
| ConnectFour.WinnerNoneIff | src/utils/connect_four.rs:84-106 | `winner` is `None` iff no row, column or main diagonal is owned by one player |
| ConnectFour.EmptyHasNoWinner | src/utils/connect_four.rs:272-283 | the empty board has no winner |
| ConnectFour.BottomRowWin | src/utils/connect_four.rs:286-303 | four milk drops into engine columns 0 to 3 of the empty board land on the bottom row, and milk wins |
| ConnectFour.RenderShape | src/utils/connect_four.rs:113-126 | the rendering is four lines of border, four cell glyphs, border and newline, then a line of six borders |
| ConnectFour.StatusLineCases | src/utils/connect_four.rs:127-131 | after the grid comes "<glyph> wins!" iff some line is owned; "No winner." iff no line is owned and all 16 cells are occupied; else nothing |
| ConnectFour.RenderRoundTrip | src/utils/connect_four.rs:113-134 | the board can be read back from its rendering |
| ConnectFour.RenderInjective | src/utils/connect_four.rs:113-134 | two boards have the same rendering iff they are equal |
| GameSession.NewSession | src/modules/day_twelve.rs:85-91 | the fresh session has an empty, settled board with no occupied cell, and the generator is seeded with 2024 |
| GameSession.GetBoard | src/modules/day_twelve.rs:26-31 | GET /board answers 200 with the rendering of the stored board, which reads back as that board, and nothing changes |
| GameSession.ResetSession | src/modules/day_twelve.rs:33-40 | after a reset the state equals a freshly constructed session; the 200 body is the rendering of the empty board and reads back as it |
| GameSession.Place | src/modules/day_twelve.rs:42-67 | 400 iff the column is outside 1..=4, with an empty body; for an in-range column, 503 iff the target column's top cell is taken, the board is full or there is a winner, with the current rendering; otherwise 200, so the 500 path is unreachable; every non-200 answer leaves the state unchanged; on 200 the new board is the engine's play into column - 1 (the marker dropped to the lowest empty cell), the body is its rendering, and the generator is untouched |
| GameSession.RandomBoard | src/modules/day_twelve.rs:69-75 | GET /random-board leaves the stored board alone, advances the generator by 16 draws, and answers 200 with the full rendering (grid and status line) of the board drawn from the generator's state, which reads back as that full board |
| GameSession.RequestsKeepSettled | src/modules/day_twelve.rs:26-75 | every request keeps gravity on the stored board |
| GameSession.AcceptedPlaceAddsOneCell | src/modules/day_twelve.rs:63 | an accepted place occupies exactly one more cell and changes no occupied cell |
| GameSession.ResetMakesRandomReproducible | src/modules/day_twelve.rs:33-40 | the random board after a reset is the same whatever happened before, and the same as on a fresh server |
| GameSession.FullColumnPlaceRejected | src/modules/day_twelve.rs:54-61 | placing into a column that already holds four markers gives 503 with the unchanged board |
| Common.LowerLaws | src/modules/day_twenty_three.rs:43 | ASCII lower-casing is idempotent, leaves no upper-case ASCII letter, and maps two strings to the same text iff they agree up to ASCII letter case |
| Decorations.ParseColor | src/modules/day_twenty_three.rs:39-50 | a colour parses iff its lower-cased text is "red", "blue" or "purple", and the colour's name is that lower-cased text |
| Decorations.NextCycles | src/modules/day_twenty_three.rs:64-70 | `next` moves every colour, and applying it three times is the identity |
| Decorations.ColorRoundTrip | src/modules/day_twenty_three.rs:39-61 | a colour's displayed name parses back to the colour, in any letter case |
| Decorations.Present | src/modules/day_twenty_three.rs:73-91 | 418 with no present iff the colour does not parse; otherwise 200, a present in the lower-cased colour, and a link whose text is exactly the lower-case name ("red", "blue" or "purple") of the next colour |
| Decorations.PresentLinksCycle | src/modules/day_twenty_three.rs:79-81 | following the present's link three times returns to the starting colour |
| Decorations.ParseSwitch | src/modules/day_twenty_three.rs:94-102 | the state is on iff its lower-cased text is "on", and off iff it is "off" |
| Decorations.Ornament | src/modules/day_twenty_three.rs:93-114 | 418 iff the state is neither on nor off; otherwise 200, the class is "ornament on" when the state is on and "ornament" when it is off, and the link targets the opposite state, "on" or "off" |
| Decorations.OrnamentToggles | src/modules/day_twenty_three.rs:105-109 | following the ornament's link twice returns to the same class |
| Checksum.FromStrAsWritten | src/modules/day_twenty_three.rs:145-171 | the parser as written: "invalid_checksum" iff the input is empty, odd, shorter than 8 or not all hex; an out-of-bounds failure iff valid input is longer than 64 characters; otherwise it agrees with `Checksum.FromStr` |
| Checksum.FromStr | src/modules/day_twenty_three.rs:145-171 | the corrected parser: rejects exactly the invalid or over-long inputs; byte i is the value of hex pair i, and bytes past the input are zero |
| Checksum.OverlongChecksumPassesValidation | src/modules/day_twenty_three.rs:147-163 | 66 hex digits pass every check before decoding, and the corrected parser rejects them |
| Checksum.Digit | src/modules/day_twenty_three.rs:193 | a `{:x}` or `{:X}` digit is a hex digit of the right case whose value is the nibble |
| Checksum.Format | src/modules/day_twenty_three.rs:188-214 | formatting gives two characters per byte: its high nibble, then its low nibble |
| Checksum.HexShape | src/modules/day_twenty_three.rs:188-214 | `LowerHex` gives 64 characters from [0-9a-f]; `UpperHex` gives 64 from [0-9A-F] |
| Checksum.LowerHex | src/modules/day_twenty_three.rs:188-200 | `{:x}` gives 64 characters, already lower-case, that parse back to the digest |
| Checksum.UpperHex | src/modules/day_twenty_three.rs:202-214 | `{:X}` gives 64 characters that lower-case to the `{:x}` text and parse back to the digest |
| Checksum.ParseFormatRoundTrip | src/modules/day_twenty_three.rs:145-214 | parsing either hex format of a digest gives the digest back |
| Checksum.FormatParseRoundTrip | src/modules/day_twenty_three.rs:159-200 | `{:x}` of a parsed checksum is the input lower-cased, followed by "0" repeated 64 - \|s\| times |
| NetworkAddress.WrappingAdd | src/utils/network_address.rs:8-19 | octet i is (a_i + b_i) mod 256; the overflow error is unreachable |
| NetworkAddress.WrappingSub | src/utils/network_address.rs:21-32 | octet i is (b_i - a_i) mod 256, with the operands reversed; the overflow error is unreachable |
| NetworkAddress.DecryptInvertsEncrypt | src/utils/network_address.rs:8-32 | `from.wrapping_sub(from.wrapping_add(key)) == key` |
| NetworkAddress.EncryptInvertsDecrypt | src/utils/network_address.rs:8-32 | `from.wrapping_add(from.wrapping_sub(to)) == to` |
| NetworkAddress.Xor | src/utils/network_address.rs:58-69 | segment i is a_i XOR b_i; the `unwrap` cannot fail |
| NetworkAddress.XorLaws | src/utils/network_address.rs:58-69 | XOR is commutative and self-inverse, and an address XOR itself is zero |
| CargoManifest.FormatOf | src/utils/cargo_manifest.rs:80-96 | application/toml selects the TOML parser, application/json the JSON parser, application/yaml the YAML parser, and every other content type selects none |
| CargoManifest.FromRequest | src/utils/cargo_manifest.rs:71-145 | no content-type header gives "unsupported content type"; with a header, an unreadable body gives "invalid manifest"; with a readable body, "unsupported content type" iff the header is not text or not one of the three types; otherwise the parser of the selected format runs on the body, a parse failure gives "invalid manifest", and a parsed manifest gives exactly its validation result |
| CargoManifest.Validate | src/utils/cargo_manifest.rs:99-121 | "magic keyword not provided" iff the package's own keywords do not include "Christmas 2024" (no package, no keywords or inherited keywords included); "no content" iff the keyword is there but `package.metadata.orders` is not an array inside a table; success iff both hold, and then the orders are those collected from that array |
| CargoManifest.KeepOrder | src/utils/cargo_manifest.rs:125-141 | an entry is kept iff it is a table with a string `item` and an integer `quantity` in [0, 2^32); the kept order copies both verbatim |
| CargoManifest.AddOrder | src/utils/cargo_manifest.rs:48-50 | appends exactly one order at the end and keeps the earlier orders |
| CargoManifest.CollectOrdersSpec | src/utils/cargo_manifest.rs:123-142 | the extracted orders are the kept entries in their original order: a strictly increasing list of positions, one per order, and a position is listed iff its entry is kept |
| CargoManifest.CollectedOrdersComeFromItems | src/utils/cargo_manifest.rs:137-141 | every extracted order is the kept form of some array entry |
| CargoManifest.CollectOrdersAppend | src/utils/cargo_manifest.rs:124-142 | one more array entry appends its order if it is kept, and leaves the earlier orders alone |
| CargoManifest.Decimal | src/utils/cargo_manifest.rs:31-35 | a quantity prints as one or more decimal digits with no leading zero |
| CargoManifest.DecimalRoundTrip | src/utils/cargo_manifest.rs:31-35 | the printed quantity reads back as the quantity |
| CargoManifest.MetadataText | src/utils/cargo_manifest.rs:53-65 | the text is empty iff there are no orders; otherwise it ends in a digit, so there is no trailing newline |
| CargoManifest.OrderTextsEndInDigit | src/utils/cargo_manifest.rs:53-65 | the joined order lines are empty exactly for no orders, and otherwise end in the last quantity's digit |
| CargoManifest.JoinSplitRoundTrip | src/utils/cargo_manifest.rs:62 | splitting "\n"-joined lines on newlines gives the lines back when no line contains a newline |
| CargoManifest.MetadataTextLines | src/utils/cargo_manifest.rs:53-65 | when no item contains a newline, the output splits on newlines into exactly one "item: quantity" line per order, in order |
| CargoManifest.ManifestRoute | src/modules/day_five.rs:16-25 | 200 iff extraction succeeds with at least one order, and then the body is the non-empty order text; 204 with an empty body iff there is no content or the extraction succeeds with no orders; 415 with an empty body iff the content type is unsupported; 400 "Invalid manifest" and 400 "Magic keyword not provided" exactly for those two rejections; no other status is answered |

## Left out

- Locking and async: the `RwLock`/`Arc` around the game state. Each session function is one critical section, and request interleaving is not modelled.
- Response building, the HTML bodies and the ornament id:
  - Only the status and body text are modelled.
  - For the festive routes, the model keeps the data the HTML carries: the colour, the class and the link target.
  - The ornament `id`, `html_escape` and `formatdoc` layout are not modelled.
- Path extraction: a `player` other than milk/cookie, or a non-numeric column, is rejected by the framework before `place` runs. `GameSession.Place` receives an already-typed player and a natural-number column.
- The generator's bit stream: the real `StdRng` algorithm is a library. It enters as a function parameter, so a board drawn from it is only determined relative to that stream.
- Emoji bytes: the four glyphs are four distinct characters. Byte-level UTF-8 encoding of the response body is not modelled.
- Parsing libraries:
  - TOML, JSON and YAML deserialisation into `cargo_manifest::Manifest` is a parameter.
  - A body that cannot be read as a string is a request with no body.
  - Value kinds the filter never looks inside (floats, datetimes) carry no payload.
- `Order`'s serde attributes (`DefaultOnError`, `default`): they apply only when an `Order` is deserialised directly. The extractor builds orders by hand, so they do not affect the modelled path.
- `std::net` address parsing and printing, and the `/2` handlers around them: only the arithmetic on octets and segments is modelled.
- The `/23/lockfile` handler (multipart reading, Cargo.lock TOML, the coloured dots) and the `/23/star` route: their only logic of interest, the checksum parser, is modelled on its own.
- Common.LowerLaws: `Common.Lower` models `to_lowercase` on ASCII letters only. The only non-ASCII characters that lower-case to an ASCII letter are U+212A (KELVIN SIGN, to 'k') and U+0130 (to "i" plus a combining dot). Neither result can form "red", "blue", "purple", "on" or "off", so the routes accept exactly the same inputs. The lower-cased name that a colour's `Display` is compared against is therefore exact.
- Checksum length: the source checks `s.len()` in bytes, while the model counts characters. Any input with a non-ASCII character fails the hex check either way, with the same error, so the results agree.
- The other routes of the service: the unit conversions and rate limiter of `/9`, JWT handling of `/16`, the database-backed quotes of `/19`, the `-1` greeting routes, the server wiring, and the error-to-response glue. `src/utils/error_responses.rs` is used only for the status and body of each manifest rejection.

## Findings

| source | as written | input that shows it | evidently intended | confidence | as-written member | corrected member |
|---|---|---|---|---|---|---|
| src/modules/day_twenty_three.rs:145-163 | validation has no upper length bound, and the decode loop writes `digest[i]` for every pair of the input into a 32-byte array | 66 hex digits, e.g. "a" repeated 66 times: it passes every check, then index 32 is out of bounds and the parse panics | an input longer than 64 hex digits is rejected as "invalid_checksum" like any other malformed checksum | high that the panic is reachable; the intended reaction is inferred; not executed | Checksum.FromStrAsWritten, Checksum.OverlongChecksumPassesValidation | Checksum.FromStr |
