# MT-SICS balance simulator, modelled in Dafny

The repository's `MettlerToledoSim` class (`mt-sics-sim/index.js`) stands in
for a Mettler Toledo laboratory balance on a serial line. It answers a small
part of the MT-SICS ASCII command set. This project models that class and
proves what it does with a received line and with its connection.

The class does three things, and each has its own part of the model:

- **Line normalisation** (`text.dfy`, `normalizer.dfy`). A received line
  first loses the first LF, the first CR and the first ESC. It is then
  trimmed, and its first `@` becomes `I4`. A line that is now empty is
  ignored. Otherwise the command ID is the first run of non-white characters
  (`^(\S+)`), with its first `SI` rewritten to `S`. The JavaScript string
  primitives involved are stated exactly in `text.dfy`:
  - the white-space class shared by `trim` and `\s`;
  - `replace` with a string pattern, which replaces only the first occurrence;
  - the `^(\S+)` capture;
  - the decimal rendering behind `toFixed(2)`.
- **Command dispatch** (`dispatcher.dfy`). An exact-match choice among ten
  command IDs is answered from the fixed instrument profile (`meterConfig`).
  Every other command ID `T` gets `T A`. The weight of `S` and `TA` is the
  wall-clock seconds rounded down to a multiple of ten. The seconds are a
  parameter.
- **Connection state machine and transport** (`engine.dfy`). The class
  `MettlerToledoSim` keeps:
  - the `state` field;
  - whether a port object exists;
  - the port's `isOpen` flag, which reads false from the moment `close()` is asked of the port;
  - a log of what was asked of the port (writes and close requests);
  - an append-only log of emitted events (`state`, `rx`, `tx`, `error`).

  `open`, `close`, `setState`, `read` and `write` are methods, and so are the
  port's `error` and `close` callbacks. Each method's postcondition gives its
  whole new state. The class invariant `Valid` says two things: `state` is
  what the last `state` event announced, and only an existing port can be
  open.

The string functions are plain definitions. What they mean is proved in
companion lemmas (`TrimStartSpec`, `ReplaceFirstSpec`, `FirstWordSpec`,
`CleanSpec`, `CommandIdSpec`, ...). Each lemma relates the function to an
independent description: a slice of the input, the first occurrence of a
pattern, the longest white-free prefix, or a multiset of removed characters.

Where the code and a plain reading of its comments differ, the model follows
the code:

- Only the first LF, CR and ESC are removed.
- `@` is rewritten wherever its first occurrence is, not only on a line that
  is exactly `@`.
- `SI` is rewritten wherever it first occurs in the command word, not only
  as a prefix.
- `open` never passes through `Opening`.
- `Initializing` and `Online` are declared but never entered.

## Model

| member | source | states |
|---|---|---|
| Text.TrimStartSpec | mt-sics-sim/index.js:88 | `trim`'s leading half keeps the suffix starting at the first non-white character; everything dropped is white space |
| Text.TrimEndSpec | mt-sics-sim/index.js:88 | `trim`'s trailing half keeps the prefix ending at the last non-white character; everything dropped is white space |
| Text.TrimSpec | mt-sics-sim/index.js:88 | a trimmed string neither starts nor ends with white space |
| Text.TrimEmptyIffAllWhite | mt-sics-sim/index.js:88 | trimming yields the empty string exactly when the input is all white space |
| Text.TrimIdempotent | mt-sics-sim/index.js:88 | trimming twice is trimming once |
| Text.TrimEndAfterWord | mt-sics-sim/index.js:88 | trailing white space after a word that ends non-white is trimmed from the rest only |
| Text.ReplaceFirstSpec | mt-sics-sim/index.js:88 | `replace` with a string pattern replaces exactly the first occurrence of the pattern, and returns a string without the pattern unchanged |
| Text.ReplaceFirstSkipsPrefix | mt-sics-sim/index.js:89 | a one-character pattern absent from a prefix is replaced in the remainder only |
| Text.RemoveFirstChar | mt-sics-sim/index.js:88 | replacing a character by nothing removes exactly one copy of it when it occurs, and nothing otherwise |
| Text.RemoveFirstCharKeepsOthers | mt-sics-sim/index.js:88 | removing the first copy of one character leaves the presence of every other character unchanged |
| Text.FirstWordSpec | mt-sics-sim/index.js:96 | the `^(\S+)` capture is the longest prefix free of white space |
| Text.FirstWordNonEmpty | mt-sics-sim/index.js:96-97 | the capture is non-empty (the match succeeds) whenever the string starts with a non-white character |
| Text.NatToStringSpec | mt-sics-sim/index.js:112 | the integer part of `toFixed` is decimal digits with no leading zero |
| Text.ParseNatToString | mt-sics-sim/index.js:112 | the rendered digits read back as the number itself |
| Normalizer.StripRemovesOneOfEach | mt-sics-sim/index.js:88 | control stripping removes exactly one LF, one CR and one ESC when present and keeps every other character, including later LF, CR and ESC |
| Normalizer.StripKeeps | mt-sics-sim/index.js:88 | stripping adds no character |
| Normalizer.CleanSpec | mt-sics-sim/index.js:88-90 | the cleaned input is empty exactly when the stripped line is all white space; otherwise it has non-white ends |
| Normalizer.CleanIsTrimmedStrip | mt-sics-sim/index.js:88-89 | without an `@`, the cleaned input is the stripped line, trimmed |
| Normalizer.CommandIdSpec | mt-sics-sim/index.js:96-105 | the match fails exactly on an empty or white-led input; a command ID is non-empty and free of white space |
| Normalizer.MatchNeverFails | mt-sics-sim/index.js:96-100 | on a non-blank cleaned line the match succeeds, so the "Command Not Valid" branch is unreachable |
| Normalizer.SIPrefixBecomesS | mt-sics-sim/index.js:105 | a word beginning with `SI` has that `SI` rewritten to `S`, and the rest of the word kept |
| Dispatcher.Weight | mt-sics-sim/index.js:112 | the weight is the seconds rounded down to a multiple of ten, at most 50 |
| Dispatcher.WeightFieldDenotesWeight | mt-sics-sim/index.js:112 | the weight field is decimal digits that read back as the weight, followed by `.00` |
| Dispatcher.WeightFieldValues | mt-sics-sim/index.js:112-114 | over a minute the weight field runs through `0.00`, `10.00`, ... `50.00`, ten seconds each |
| Dispatcher.ResponseEchoesCommand | mt-sics-sim/index.js:111-133 | every response starts with the command ID and a space, then `S` for the scale-value command and `A` for every other command |
| Dispatcher.DataBearingIffKnown | mt-sics-sim/index.js:111-133 | a command ID gets a response other than the bare `<cmd> A` exactly when it is one of the ten IDs the chain compares, in both directions |
| Dispatcher.UnknownCommandAcknowledged | mt-sics-sim/index.js:131-132 | any command ID outside the ten known ones gets exactly `<cmd> A` |
| Dispatcher.MeterConfigWeighing | mt-sics-sim/index.js:111-114 | `S` and `TA` give `S S <w> KG` and `TA A <w> KG` |
| Dispatcher.MeterConfigIdentity | mt-sics-sim/index.js:115-122 | `I11`, `I2`, `I4` and `I3` give the quoted model, type, serial number and firmware revision of the fixed profile |
| Dispatcher.MeterConfigSettings | mt-sics-sim/index.js:123-130 | `M01`, `M02`, `M03` and `M16` give the profile's configuration values `0`, `2`, `1`, `0` |
| Engine.StateTraceAppend | mt-sics-sim/index.js:75-79 | the `state` events of two concatenated logs are those of each, concatenated |
| Engine.CurrentStateAfter | mt-sics-sim/index.js:75-79 | a `state` event sets the state an observer believes current; every other event leaves it |
| Engine.ReplyIffNotBlank | mt-sics-sim/index.js:88-90 | a line is answered exactly when it is not all white space once LF, CR and ESC are stripped |
| Engine.AtAnsweredAsI4 | mt-sics-sim/index.js:89 | a line starting with `@` gets the same reply as the same line starting with `I4`, when the rest of the line holds no further `@` |
| Engine.AtCleanedToI4 | mt-sics-sim/index.js:89 | a line starting with `@` and the same line starting with `I4` clean to the same input, when the rest of the line holds no further `@` |
| Engine.SIAnsweredAsS | mt-sics-sim/index.js:105-112 | `SI` and `S` both get the scale-value response `S S <w> KG` |
| Engine.SIRewrittenInsideWord | mt-sics-sim/index.js:105 | the `SI` rewrite applies inside a word too: `XSI` becomes command ID `XS` |
| Engine.I4LineAnswered | mt-sics-sim/index.js:88-120 | the line `I4` CR LF cleans to `I4` and is answered with the serial number |
| Engine.I4Reply | mt-sics-sim/index.js:111-120 | any line that cleans to `I4` is answered `I4 A "X12345678"` |
| Engine.MettlerToledoSim.constructor | mt-sics-sim/index.js:16-35 | a new simulator is `Closed`, has no port, has empty logs and carries the fixed profile |
| Engine.MettlerToledoSim.SetState | mt-sics-sim/index.js:75-79 | the state becomes the argument and exactly one `state` event with it is appended; nothing else changes |
| Engine.MettlerToledoSim.Open | mt-sics-sim/index.js:37-62 | on success there is a closed port, the state is `Offline`, and one `state` event is emitted; on a constructor failure one `error` event is emitted, then `state` `Closed`, with the port untouched; `Opening` is never entered |
| Engine.MettlerToledoSim.Close | mt-sics-sim/index.js:65-72 | goes `Closing` first; an open port gets one close request, stops reading as open, and the state stays `Closing`; otherwise `Closed` follows at once with no request |
| Engine.MettlerToledoSim.OnPortError | mt-sics-sim/index.js:50-53 | a port error emits one `error` event, then behaves as `close`, including while a close is pending |
| Engine.MettlerToledoSim.OnPortClose | mt-sics-sim/index.js:54-56 | the port's close callback leaves the port not open and announces `Closed` |
| Engine.MettlerToledoSim.PortOpenCompleted | mt-sics-sim/index.js:67 | the transport finishing its open sets `isOpen` and emits nothing |
| Engine.MettlerToledoSim.Write | mt-sics-sim/index.js:136-139 | the port receives the response followed by CR LF; the `tx` event carries the response without it |
| Engine.MettlerToledoSim.Read | mt-sics-sim/index.js:82-134 | a blank line changes nothing; any other line appends an `rx` event with the cleaned line, then a `tx` event with the reply, and writes the reply with CR LF; the state is unchanged |
| Engine.SerialNumberSession | mt-sics-sim/index.js:37-139 | open, port up, and a line cleaning to `I4`: the observer sees `state Offline`, `rx I4`, `tx I4 A "X12345678"`, and the port receives `I4 A "X12345678"` CR LF |
| Engine.CloseWhilePending | mt-sics-sim/index.js:65-72 | closing twice before the port's `close` callback: one close request, and the observer sees `Offline`, `Closing`, `Closing`, `Closed` |

## Left out

- SerialPort construction options, `port.write` I/O and the Readline CR LF
  splitter. The port is reduced to "exists", `isOpen`, and a log of writes
  and close requests. Each `Read` call receives one line that is already
  delimited. The serialport library is not part of this model; its `isOpen`
  is taken as true once the transport's open completes and false from the
  call to `port.close()` on.
- EventEmitter delivery. Events go into an append-only log. Node's
  EventEmitter throws when an `error` event has no listener. The model
  assumes a listener is attached, so every `error` event is recorded. The
  module-level wiring at lines 149-160 (not part of this model) attaches its
  listener only after the first `open`.
- `utc()` timestamps and the wall clock. Timestamps are not modelled. The
  clock's seconds are a parameter in `0..59`.
- `console.log` diagnostics, the `repl` console, `process.env.TTY` and the
  singleton at lines 149-160. These are I/O and process wiring.
- Asynchrony. Port callbacks are methods called in sequence. Listeners left
  over from an earlier `open` on a replaced port are not modelled.
- `Engine.MettlerToledoSim.Open`: does not model an exception thrown after
  the port object was assigned (by `pipe` or `on`). Only a throwing
  `SerialPort` constructor is modelled.
- `Engine.MettlerToledoSim.Close`: requires a port to exist. With no port,
  the source throws at line 67, and that exception is not modelled.
- The `try`/`catch` at lines 103-109 is not modelled. Neither indexing the
  match nor `replace` can throw there, so that catch branch is unreachable.
- JavaScript strings are sequences of UTF-16 code units. The model uses one
  character per Unicode scalar value, so lone surrogates are not
  represented.
- `$` patterns in `replace` replacement strings are not modelled. The source
  uses only the replacements `""`, `"I4"` and `"S"`, and none of them
  contains `$`.
