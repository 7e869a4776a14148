# mqtt2nec in Dafny

mqtt2nec is a bridge between an MQTT broker and an Arduino that emits NEC
infrared codes. It subscribes to a topic (by default `nec/tx`). Each
message is a JSON object whose `codes` member lists IR codes. A code is
either an alias name from a CSV alias file or a hexadecimal string. The
bridge resolves each code to its hexadecimal value and prints that value
in decimal. The decimals are joined with `;` and the result is written to
the serial port of the last enumerated port whose manufacturer contains
`Arduino`.

This project models the logic of `mqtt2nec.py` and proves properties of
it:

- `Numerals`: hexadecimal parsing, the subset of `int(s, 16)` the bridge
  relies on, and decimal printing, Python's `str(n)`. Both are proved
  against a positional definition of a numeral's value.
- `Aliases`: the alias table built from CSV rows (`dict` over pairs).
- `Resolver`: `get_codes`. It chooses the alias or the literal token,
  parses it as hex, prints it as decimal, and fails on the first bad token.
- `Command`: the `;` join, its inverse `split`, and the bytes written.
- `Handler`: `on_message`. It computes the command for a classified
  payload and writes it to a `Device` whose state is its log of writes.
  `HandlerExamples` holds worked messages.
- `Connect`: `on_connect`, checked against the CONNACK return-code table
  of section 3.2.2.3 of MQTT Version 3.1.1.
- `Locator`: the port scan of `find_arduino`.

The alias table and the topic are parameters of the operations. The
alias table is never changed after it is built. `GetCodes` and
`CommandFor` are functions of their inputs, so resolving the same list
twice gives the same output. `GetCodesAppend` shows that no state passes
from one token to the next.

Facts of the code worth stating:

- The port scan keeps the last matching port, since each match
  overwrites the one before.
- An empty `codes` list still causes one write, of zero bytes.
- The decimal value of `E0E040BF` is 3772793023, as
  `HandlerExamples.AliasAndLiteral` proves; 3772793535 is the value of
  `E0E042BF`.

## Model

| member | source | states |
|---|---|---|
| Numerals.Parse | mqtt2nec.py:65 | the parse succeeds exactly on a non-empty string of hex digits (either case) and then yields the string's positional base-16 value |
| Numerals.ParseSnoc | mqtt2nec.py:65 | one more digit on the right multiplies the parsed value by the base and adds the digit |
| Numerals.HexCaseInsensitive | mqtt2nec.py:65 | a lower-case hex digit has the same value as the upper-case one |
| Numerals.DecimalString | mqtt2nec.py:65 | `str(n)`: a non-empty, canonical decimal numeral (no leading zero except "0") whose positional value is `n` |
| Numerals.DecimalRoundTrip | mqtt2nec.py:65 | parsing the printed decimal gives back the same number |
| Numerals.CanonicalDecimalUnique | mqtt2nec.py:65 | every canonical decimal numeral is the printing of its own value, so each number has exactly one such spelling |
| Aliases.FromRows | mqtt2nec.py:23 | building the table succeeds iff every CSV row has exactly two fields; its keys are the rows' first fields and each key maps to the second field of the last row that carries it |
| Aliases.NoRowsNoAliases | mqtt2nec.py:20-23 | with no rows the table is empty |
| Resolver.ResolveItem | mqtt2nec.py:60-65 | a non-string element fails; for a string, the alias value is chosen if the token is a key, else the token itself; resolution succeeds iff that string is hex, and otherwise fails naming it |
| Resolver.ResolvedNumeral | mqtt2nec.py:65 | a resolved token is a canonical decimal numeral with the same value as its chosen hex string |
| Resolver.GetCodes | mqtt2nec.py:59-65 | succeeds iff every token resolves; then one output per token, in order, each the token's resolution; on failure the error is that of the first token that fails |
| Resolver.FirstFailureUnique | mqtt2nec.py:60-65 | the first failing token is unique |
| Resolver.ResolvedValues | mqtt2nec.py:61-65 | each output denotes the base-16 value of the aliased string for an alias key and of the token itself otherwise |
| Resolver.GetCodesAppend | mqtt2nec.py:59-65 | resolving a concatenation is the concatenation of the resolutions, with the first part's failure taking precedence |
| Resolver.AppendLeftFails | mqtt2nec.py:59-65 | a failure in the first part is the failure of the whole |
| Resolver.AppendRightFails | mqtt2nec.py:59-65 | when the first part resolves, a failure in the second part is the failure of the whole |
| Resolver.AppendBothResolve | mqtt2nec.py:59-65 | when both parts resolve, the whole resolves to the two results concatenated |
| Resolver.GetCodesOk | mqtt2nec.py:59-65 | a list whose tokens each resolve to given numerals resolves to the list of those numerals |
| Resolver.InvalidItemFailsAll | mqtt2nec.py:65 | one token that is not hex, at any position, makes the whole resolution fail |
| Command.Join | mqtt2nec.py:73 | `";".join`: a single part joins to itself, and a join of separator-free parts has one separator fewer than parts |
| Command.SplitJoin | mqtt2nec.py:73 | splitting the join on `;` recovers the parts, given at least one part and no `;` in any part |
| Command.JoinChars | mqtt2nec.py:73 | a join of digit strings contains only digits and `;` |
| Command.Encode | mqtt2nec.py:74 | `bytes(s, 'utf-8')` of an ASCII string: one byte per character |
| Command.EncodeDecode | mqtt2nec.py:74 | decoding the written bytes gives back the command string |
| Handler.JoinedCodes | mqtt2nec.py:73 | the join of a successful resolution is ASCII, made only of digits and `;`, and splits back into the resolved numerals |
| Handler.CommandFor | mqtt2nec.py:69-74 | there is a command iff the payload has a `codes` field and every token resolves; each failure before the write carries its own reason: undecodable payload, not an object, no `codes` member, `codes` not iterable, or the resolver's error for a bad token; a write failure never arises there; the command is ASCII digits and `;`, splits into the resolved list, and is empty for an empty list |
| Handler.Device.Write | mqtt2nec.py:74 | a write adds exactly its bytes to the device log |
| Handler.OnMessage | mqtt2nec.py:68-76 | a message with a command causes exactly one write, of the command's bytes, and reports it sent, or dropped if the transport raised; any other message causes no write and reports the reason `CommandFor` gives; the handler always returns |
| Handler.DeviceRecoversCodes | mqtt2nec.py:73-74 | the device, splitting the bytes it received, reads exactly the resolved numerals |
| HandlerExamples.AliasAndLiteral | mqtt2nec.py:59-74 | with alias `power` for `E0E040BF`, the codes `power`, `1A2B3C4D` give the command `3772793023;439041101` |
| HandlerExamples.InvalidTokenDropped | mqtt2nec.py:65 | the token `ZZZZ` drops the message with an invalid-hex error |
| HandlerExamples.EmptyCodesEmptyCommand | mqtt2nec.py:73-74 | an empty `codes` list gives the empty command |
| Connect.OnConnect | mqtt2nec.py:41-56 | code 0 and only code 0 subscribes, to the configured topic; any other code is refused, quoting that code, with the unknown reason exactly when it is outside 1 to 5 |
| Connect.AgreesWithConnackTable | mqtt2nec.py:46-56 | each non-zero code gets the reason the MQTT 3.1.1 CONNACK table gives it, and codes that table does not assign are unknown |
| Connect.DistinctReasons | mqtt2nec.py:46-55 | codes 1 to 5 each get a different reason |
| Connect.RefusalMessagesDistinct | mqtt2nec.py:47-56 | for one code, different reasons give different exception texts |
| Connect.IntStringRoundTrip | mqtt2nec.py:56 | the code quoted in the text (`f"{rc}"`) reads back as the code, with a leading `-` when it is negative |
| Locator.LastArduino | mqtt2nec.py:28-34 | none iff no port reports a manufacturer containing "Arduino"; otherwise a matching port after which no port matches |
| Locator.FindArduino | mqtt2nec.py:26-34 | the loop that overwrites `port` on every match ends with the last matching port, or none ("Arduino not found") |
| Locator.LastMatchSelected | mqtt2nec.py:29-31 | a matching port with no match after it is the one selected |
| Locator.SoleMatchSelected | mqtt2nec.py:29-34 | the only matching port is selected wherever it stands in the enumeration |

## Left out

- Numerals.Parse: accepts only one or more hex digits. Python's `int(s, 16)` also accepts surrounding whitespace, a `+` or `-` sign, a `0x`/`0X` prefix, `_` between digits, and non-ASCII Unicode digits. Tokens written that way are dropped by the model but resolved by the program.
- Numerals.DecimalString: has no size limit. Since Python 3.11, `str(n)` raises `ValueError` when the result would have more than 4300 decimal digits (the default of `sys.get_int_max_str_digits()`); `int(s, 16)` is exempt from that limit. A token of roughly 3600 or more hex digits therefore makes the program drop the message with no write, while the model resolves it and writes it. The limit depends on the interpreter version and its configuration, neither of which the repository fixes.
- JSON and UTF-8 decoding (`json.loads`, `.decode`, lines 70-71) are library calls. The payload arrives already classified as `Handler.Payload`. For an object whose `codes` is a string, the items are its characters. For a `codes` object, they are its keys. The model does not derive either.
- Broker client plumbing (lines 79-86, 93) is network I/O driven by the paho library. This covers client creation, credentials, `connect`, `loop_forever` and the dispatch of callbacks. `Connect.OnConnect` returns the subscribe-or-refuse decision and does not call `subscribe` or raise.
- Serial I/O (lines 35-37, 97) is outside the model: opening at 115200 baud with a 0.1 s timeout, the close-then-reopen after discovery, and the close in `main`. The device appears only as the write log of `Handler.Device`.
- Handler.OnMessage: whether the transport rejects a write is the parameter `writeRaises`. A rejected write is logged as attempted, and any bytes it may have partly delivered are not modelled.
- Argument parsing and reading the CSV file (lines 10-18, 22) are CLI plumbing. Only the rows-to-table step (line 23) is modelled.
- Logging through `print` and `traceback.print_exc` has no behavioural contract.
- The `KeyboardInterrupt`/`finally` cleanup in `main` (lines 92-97) is process lifecycle and signal handling.
- setup.py is packaging metadata and holds no logic.
