# Pencompy relay controller, modelled in Dafny

Pencompy drives Pencom banks of relays. It talks to the relay controller
over a serial line that a network adaptor exposes as a TCP socket.

- The controller object keeps a cached state for every relay of every board:
  unknown, off or on.
- A poller thread walks the boards in order. Before each request it records
  which board it is asking about (`polling_board`), then sends `<letter>R0`.
- A reader thread collects the bytes received up to each carriage return. It
  strips that text and reads it as a decimal number. Bit *r* of the number is
  the state of relay *r* of the polled board.
- Each relay whose cached value changes is meant to be written and reported
  to an optional change callback. As written, the guard at lines 67-68 stops
  every write (see Findings).
- `set` sends `<letter><H|L><relay+1>`. `get` reads the cache.

The model has six modules:

- `Wire`: the text protocol. It covers board letters, the write and poll
  commands, Python's `int()` on a status line, and the bit test
  `bits & (1 << r)`.
- `RelayTable`: the relay state table, and what one status line does to it,
  as values (`ProcessLine`, `ApplyLines`, `Diff`).
- `Framer`: the reader's line framing as a function from received bytes to
  stripped lines (`Frame`), with its round trip.
- `Controller`: the controller as a class.
  - `Pencompy` has the fields `pollingBoard`, `states`, the reader's
    `pending` text and `reading`. It also keeps two ghost logs: the lines
    handed to `send`, and the callbacks made.
  - Each method is proved against the value-level functions above.
  - The reader loop is proved against `Read`, a byte-by-byte description.
    `ReadFrames` shows that `Read` is framing followed by line processing.
  - `Polling.Pass` is one pass of the poller.
- `SourceDefects`: `_update_state` and `_processReceivedData` exactly as
  written, for the two defects listed under Findings.
- `Wrappers`: an `Option` type.

The rest of the model uses the evident intent of `_update_state`. Only a
valid relay is written, and the callback receives the relay index.

## Model

| member | source | states |
|---|---|---|
| Wire.BoardLetter | pencompy/pencompy.py:22 | `BOARD_NUM`: board b is the character 'A'+b; its meaning is given by Wire.EncodeDecode (the letter decodes back to the board) and Wire.SetCommandShape (the letter's code is 65+b) |
| Wire.ParseInt | pencompy/pencompy.py:101 | `int()` on a stripped status line, with None for the ValueError path; see Wire.ParseIntAccepts (exactly the signed decimal literals succeed) and Wire.ParseIntDecimal (it inverts `%d`) |
| Wire.Decimal | pencompy/pencompy.py:54 | `%d` of a natural number is a non-empty string of ASCII digits; its first digit is '0' only for zero |
| Wire.ParseIntDecimal | pencompy/pencompy.py:101 | `int()` reads back exactly the number `%d` wrote, with or without a minus sign |
| Wire.ParseIntAccepts | pencompy/pencompy.py:101 | the parser succeeds exactly on an optional sign followed by at least one ASCII digit; every other line takes the ValueError path |
| Wire.EncodeDecode | pencompy/pencompy.py:22 | every write command and every poll command the program builds decodes back to that same command, so two different commands never produce the same line |
| Wire.Encode | pencompy/pencompy.py:54 | the write line of `set` and the poll line `<letter>R0` of the poller (line 134); see Wire.EncodeDecode (distinct commands give distinct lines) and Wire.SetCommandShape (the exact shape of a write) |
| Wire.SetCommandShape | pencompy/pencompy.py:51-54 | a write to a valid relay is three characters: the board letter 'A'+board, then 'H' for on or 'L' for off, then the wire relay number 1..8, which is the relay index plus one |
| Wire.Bit | pencompy/pencompy.py:104 | `(bits & mask) != 0` with the mask for relay r; see Wire.StatusRoundTrip (bit r of a mask is flag r), Wire.StatusIgnoresHighBits and Wire.MinusOneExample (two's complement for negatives) |
| Wire.StatusBits | pencompy/pencompy.py:102-105 | the eight flags the mask loop tests, relay r in bit r; see Wire.StatusRoundTrip, Wire.StatusIgnoresHighBits and Wire.SevenExample |
| Wire.StatusRoundTrip | pencompy/pencompy.py:101-105 | for any eight relay flags, the decimal of their bitmask parses back and decodes to those same flags, relay r in bit r |
| Wire.StatusIgnoresHighBits | pencompy/pencompy.py:102-105 | bits at position 8 and above never reach a relay: a status word and the same word mod 256 decode to the same flags |
| Wire.SevenExample | pencompy/pencompy.py:101-105 | the line "7" turns relays 0-2 On and relays 3-7 Off |
| Wire.MinusOneExample | pencompy/pencompy.py:101-105 | "-1" parses, and because the bit test uses two's complement it turns every relay On |
| RelayTable.InitialTable | pencompy/pencompy.py:47 | the initial table has one row of eight cells per board, and every cell is Unknown |
| RelayTable.UpdateCell | pencompy/pencompy.py:66-74 | updating a valid relay of the polled board writes that one cell and leaves every other cell unchanged; a callback (board, addr, old, new) fires exactly when the old value differs, and with an equal value nothing changes |
| RelayTable.DecodeRow | pencompy/pencompy.py:102-105 | the row of eight cells the mask loop leaves for a status word; see RelayTable.ResponseSetsRelay (relay r holds bit r) and Controller.Pencompy.UpdateRelays (the loop produces it) |
| RelayTable.Diff | pencompy/pencompy.py:71-74 | the callbacks the eight `_update_state` calls of one status line make, in relay order; see RelayTable.DiffExact (exactly the differing relays, in order), RelayTable.DiffSame, RelayTable.DiffAllDiffer and RelayTable.DiffOneDiffers |
| RelayTable.DiffExact | pencompy/pencompy.py:71-74 | replacing a row reports each relay whose value differs with its old and new value, in increasing relay order, and reports no relay that keeps its value |
| RelayTable.DiffAllDiffer | pencompy/pencompy.py:71-74 | when every relay differs, each relay is reported once, in relay order |
| RelayTable.DiffOneDiffers | pencompy/pencompy.py:71-74 | when exactly one relay differs, it is the only relay reported |
| RelayTable.DiffSame | pencompy/pencompy.py:71 | replacing a row by an identical row fires no callback |
| RelayTable.LinesTouchOnlyPolledBoard | pencompy/pencompy.py:69-74 | any sequence of status lines changes only the polled board's row |
| RelayTable.ProcessLine | pencompy/pencompy.py:98-107 | `_processReceivedData` on the polled board as a value; see RelayTable.ResponseSetsRelay, RelayTable.NonNumericLineIgnored, RelayTable.RedeliveryIsIdempotent and Controller.Pencompy.ProcessReceivedData (the method does exactly this) |
| RelayTable.ApplyLines | pencompy/pencompy.py:92-94 | the lines of one stretch of input processed in order for the same polled board; see RelayTable.LinesTouchOnlyPolledBoard and Controller.ReadFrames |
| RelayTable.NonNumericLineIgnored | pencompy/pencompy.py:99-107 | an empty line or one `int()` rejects leaves the table unchanged and fires no callback |
| RelayTable.RedeliveryIsIdempotent | pencompy/pencompy.py:66-74 | delivering the same status line for the same board a second time changes nothing and fires no callback |
| RelayTable.ResponseSetsRelay | pencompy/pencompy.py:101-105 | after a numeric line, relay r of the polled board holds bit r of the number; the callback (board, r, previous, new) fires exactly once if the value differed and not at all otherwise |
| RelayTable.ZeroThenOne | pencompy/pencompy.py:98-105 | on a fresh one-board table, "0" reports all eight relays going from Unknown to Off in order; a following "1" reports only relay 0 going from Off to On |
| Framer.Strip | pencompy/pencompy.py:93 | `data.strip()`; see Framer.StripSpec (it leaves the text between the leading and trailing whitespace) |
| Framer.Frame | pencompy/pencompy.py:84-96 | the reader loop's framing of received bytes into stripped lines, pending text and liveness; see Framer.FrameRoundTrip, Framer.FrameDropsCR, Framer.FrameText and Framer.FrameAtCR |
| Framer.StripSpec | pencompy/pencompy.py:93 | `strip()` leaves the stretch between the leading and trailing whitespace: only whitespace lies outside it, and it neither starts nor ends with whitespace |
| Framer.FrameDropsCR | pencompy/pencompy.py:91-96 | no carriage return ever reaches the decoder or stays pending |
| Framer.FrameText | pencompy/pencompy.py:95-96 | ASCII bytes other than a carriage return are only appended to the pending text |
| Framer.FrameAtCR | pencompy/pencompy.py:92-94 | a carriage return hands the stripped pending text to the decoder and empties the buffer |
| Framer.FrameRoundTrip | pencompy/pencompy.py:84-96 | lines sent with a carriage return after each reach the decoder stripped and in order; text after the last carriage return stays pending |
| Controller.ReadByte | pencompy/pencompy.py:91-96 | one received byte of the reader loop as a value; see Controller.Pencompy.HandleByte (the method does exactly this) and Controller.ReadFrames |
| Controller.Read | pencompy/pencompy.py:85-96 | the reader loop over a stretch of bytes as a value; see Controller.ReadFrames (framing then line processing), Controller.ReadStopped and Controller.Pencompy.Receive (the loop does exactly this) |
| Controller.ReadStopped | pencompy/pencompy.py:96 | once a byte above 0x7F has made `decode('utf-8')` raise, no further byte is read |
| Controller.ReadFrames | pencompy/pencompy.py:82-107 | reading byte by byte gives the same result as framing the bytes into stripped lines and processing those lines in order: the table and callbacks are those of the complete lines, and the unterminated tail stays pending |
| Controller.Pencompy.constructor | pencompy/pencompy.py:33-47 | a new controller has the all-Unknown table, polls board 0 first, has nothing pending, and has sent nothing and notified nothing |
| Controller.Pencompy.Send | pencompy/pencompy.py:76-80 | `send` appends exactly one line to the log of sent lines, together with the board being polled at that moment |
| Controller.Pencompy.Set | pencompy/pencompy.py:51-56 | for a valid board and relay, `set` sends exactly one write command; otherwise it sends nothing; it never changes the table |
| Controller.Pencompy.Get | pencompy/pencompy.py:58-64 | `get` returns the cached cell for a valid board and relay, and Unknown (-1) for any index out of range |
| Controller.Pencompy.UpdateState | pencompy/pencompy.py:66-74 | a valid relay updates the table and the callback log exactly as `UpdateCell` does; an out-of-range relay changes nothing |
| Controller.Pencompy.ProcessReceivedData | pencompy/pencompy.py:98-107 | one stripped line changes the table and the callback log exactly as `ProcessLine` does, so an empty or non-numeric line is dropped |
| Controller.Pencompy.UpdateRelays | pencompy/pencompy.py:102-105 | the mask loop replaces the polled board's row with the decoded bits and makes the callbacks `Diff` lists, in relay order |
| Controller.Pencompy.UpdateRelay | pencompy/pencompy.py:104 | one turn of the mask loop extends the decoded part of the row, and the callbacks made so far, by one relay |
| Controller.Pencompy.Receive | pencompy/pencompy.py:82-96 | the reader loop leaves the table, the pending text, whether the loop is still alive (it ends once a byte fails to decode) and the callback log as `Read` describes for its input |
| Controller.Pencompy.HandleByte | pencompy/pencompy.py:91-96 | one received byte: a carriage return processes the stripped pending text and empties it; any other ASCII byte is appended; any byte above 0x7F ends the loop |
| Controller.PollPass | pencompy/pencompy.py:132-134 | the lines one poller pass sends, each with the board polled at that moment; see Controller.PollPassAt, Controller.PollPassInOrder and Controller.Polling.Pass (the loop sends exactly these) |
| Controller.PollPassAt | pencompy/pencompy.py:132-134 | the k-th line of a poller pass is the poll for board k, sent while board k is the polled board |
| Controller.PollPassInOrder | pencompy/pencompy.py:130-135 | a pass asks every board exactly once, in board order; each line decodes as that board's poll, and is sent while the reader awaits that board |
| Controller.Polling.constructor | pencompy/pencompy.py:124-128 | the poller is bound to its controller |
| Controller.Polling.Pass | pencompy/pencompy.py:130-135 | one pass sets `polling_board` before each send, and appends the polls for boards 0..n-1 to the sent log |
| Controller.ZeroThenOneRead | pencompy/pencompy.py:82-107 | on a one-board table, the bytes "0\r" report all relays of board A going from Unknown to Off; then "1\r" reports only relay 0 going from Off to On |
| Controller.ZeroThenOneScenario | pencompy/pencompy.py:33-64 | for a one-board controller that polls and receives "0\r", relay 0 reads Off; after it then receives "1\r", relay 0 reads On |
| SourceDefects.UpdateStateAsWritten | pencompy/pencompy.py:66-74 | as written, `_update_state` raises IndexError exactly when addr is outside -8..7; NameError is raised only when a callback is set |
| SourceDefects.RelaysAsWritten | pencompy/pencompy.py:102-105 | the relay loop of `_processReceivedData` as written, where an exception ends the loop; see SourceDefects.RelaysAsWrittenChangeNothing |
| SourceDefects.ProcessLineAsWritten | pencompy/pencompy.py:98-107 | `_processReceivedData` as written, catching only ValueError; see SourceDefects.StatusIgnoredAsWritten and SourceDefects.InvertedGuardExample |
| SourceDefects.RelaysAsWrittenChangeNothing | pencompy/pencompy.py:67-68 | as written, the relay loop returns the table unchanged, whatever the bits |
| SourceDefects.StatusIgnoredAsWritten | pencompy/pencompy.py:98-107 | as written, no status line ever changes the table or raises anything |
| SourceDefects.InvertedGuardExample | pencompy/pencompy.py:67-68 | the line "1" on a fresh one-board table: as written, relay 0 stays Unknown; the intended update turns it On and reports the change |
| SourceDefects.UndefinedNameExample | pencompy/pencompy.py:73 | as written, `_update_state(-1, False)` with a callback raises NameError; the corrected update reports relay 7's change by its index |
| SourceDefects.GuardSkipsValidRelays | pencompy/pencompy.py:67-68 | as written, a valid relay is never written; the corrected update leaves the table unchanged only when the cell already holds the new value |

## Left out

- Sockets, `select`, `recv` and the transport write in `send` (lines 46, 80, 87-91, 117) are I/O. `send` is modelled as an append to the ghost log `sent`. Received bytes are a parameter of `Receive`. The end of the stream (`recv` returning nothing) is not modelled.
- Threads, the `_running` flags, `time.sleep`, `close` and `halt` (lines 25, 42, 48-49, 82-85, 109-118, 121-139) concern concurrency and timing. The poller is one sequential pass (`Polling.Pass`), and `polling_board` is a field set before a response is read. What happens when the two threads interleave is not modelled, so a later `close` cannot be shown to stop all sending.
- Logging calls have no behaviour to state.
- pencompy/pencom.py, the home-automation adapter that forwards to `set` and `get`, is not part of this model. Neither is pencompy/test.py, a manual script with no assertions.
- Python `int()` leniency is not modelled beyond an optional sign and ASCII digits. Underscores between digits and non-ASCII Unicode digits take the ValueError path here, whereas Python would accept them. Surrounding whitespace never reaches `int()`, because the line has been stripped.
- Wire.ParseInt: it accepts digit strings of any length. Since CPython 3.11 (and the 3.7.14-3.10.7 security releases), `int()` raises ValueError on a string of more than 4300 digits, which line 106 catches, so the source drops such a line. Whether it does depends on the interpreter version, so the model does not capture it. `ProcessLine` decodes such a line, and `ParseIntDecimal` holds here for every length, but not on those interpreters.
- Controller.Pencompy.constructor: it requires between 1 and 55231 boards (`MaxBoard + 1`). With zero boards, a numeric line would make the corrected update raise IndexError; the code as written returns at lines 67-68 before it indexes the table, so it raises nothing. Past the limit, `'A' + board` would reach the surrogate code points, which Dafny's `char` excludes.
- Controller.Pencompy.UpdateState: the callback is made before the cell is written, as in the source. The ghost log does not record that order relative to the write, so no contract states it.
- Controller.Pencompy.Receive: a byte above 0x7F ends the reader loop, as the `UnicodeDecodeError` in the source does. Multi-byte UTF-8 characters are not decoded, because the source also decodes one byte at a time.
- An exception in the callback itself is not modelled, because the callback is outside the program.

## Findings

| source | as written | input that shows it | evidently intended | confidence | as-written member | corrected member |
|---|---|---|---|---|---|---|
| pencompy/pencompy.py:67-68 | `if 0 <= addr < RELAYS_PER_BOARD: return` returns early for every valid relay, so no status line ever updates the table or fires a callback | one board, polled board 0, status line "1": `get(0, 0)` stays -1 | return only when `addr` is out of range | high (not executed) | SourceDefects.InvertedGuardExample | RelayTable.ResponseSetsRelay |
| pencompy/pencompy.py:73 | the callback is passed `relay`, a name that does not exist in `_update_state`, so every change with a callback raises NameError | `_update_state(-1, False)` with a callback on a fresh table; with the guard corrected, any status line that changes a relay | pass `addr` | high (not executed) | SourceDefects.UndefinedNameExample | RelayTable.UpdateCell |
