# ECoS train controller — a verified Dafny model

`TrainManagerController` is the Android client's adapter to an ESU ECoS command station.
It keeps one TCP connection to the station and speaks the station's line-based text
protocol. Each operation writes one request line such as `set(1000, speed[87])`. It then
reads reply lines until a line starting with `<END`. Lines starting with `<REPLY` are
acknowledgements and are dropped. The remaining lines are the reply text. The getters
pull a value out of that text: the part between the last `[` (or, for function buttons,
the last space) and the last `]`. They read it as an int or compare it with `GO`. Any
failure gives a default value and one error message on the screen.

The project has six modules:

- `Options`: the `Option` type.
- `JavaLang`: the `String` and `Integer` behaviour the controller relies on. This covers
  `startsWith`, `lastIndexOf`, `substring` (None where Java throws), `trim`, ASCII
  `toUpperCase`, `Integer.parseInt` (None where it throws) and the decimal text that
  string concatenation writes for an `int`. It also defines `IndexOf`, which the
  controller never calls. It serves only `Commands.TargetOf`, the reading of a request's
  target object used to state what the templates send.
- `Framing`: the socket's reader and writer as values. `NextLine` is `readLine()` and
  `WriteLine` is `println`. `Exchange` is the reference function for the reply loop of
  `sendMsg`, with lemmas about what it reads and returns.
- `Replies`: the four value extractors and their success and failure cases.
- `Commands`: the request templates and how a request names its target object.
- `TrainController`: the class `TrainManagerController`. It holds the socket, reader,
  writer, `connected` flag, train id and error log, and its methods mirror the Java ones.
  `SendMsg` is a loop proved against `Framing.Exchange`.

A connection attempt is a parameter, `ConnectOutcome`. It carries either the lines the
station will send and how its stream then ends (end of stream or a read failure), or a
refusal. The screen's error display is the `errors` log.

## Model

| member | source | states |
|---|---|---|
| JavaLang.LastIndexOf | src/com/ecos/train/TrainManagerController.java:177-178 | the result is -1 or an index holding the character, and no later index holds it |
| JavaLang.LastIndexOfAt | src/com/ecos/train/TrainManagerController.java:218-219 | an index (or -1) holding the character with none after it is the last index |
| JavaLang.StartsWithConcat | src/com/ecos/train/TrainManagerController.java:151-154 | `startsWith` (used as `StartsWith` by the acknowledgement and terminator tests) holds exactly when the line is the prefix followed by some rest |
| JavaLang.IndexOf | src/com/ecos/train/TrainManagerController.java:216 | specification helper for `Commands.TargetOf`, not a call the controller makes: the result is -1 or an index holding the character, and no earlier index holds it |
| JavaLang.IndexOfAt | src/com/ecos/train/TrainManagerController.java:216 | specification helper for `Commands.TargetOf`: an index holding the character with none before it is the first index |
| JavaLang.Substring | src/com/ecos/train/TrainManagerController.java:181 | `substring(begin, end)` gives a value exactly when 0 <= begin <= end <= length, and the value is the characters from begin up to end |
| JavaLang.TrimStart | src/com/ecos/train/TrainManagerController.java:166 | removes exactly the longest blank prefix: what is left is a suffix that is empty or starts with a non-blank |
| JavaLang.TrimEnd | src/com/ecos/train/TrainManagerController.java:166 | removes exactly the longest blank suffix: what is left is a prefix that is empty or ends with a non-blank |
| JavaLang.Trim | src/com/ecos/train/TrainManagerController.java:166 | the result is the slice of the input left when leading and trailing characters up to ' ' are removed; it is empty or ends with a non-blank character |
| JavaLang.TrimStartPadded | src/com/ecos/train/TrainManagerController.java:166 | blank characters in front of a text starting with a non-blank character are all removed, and nothing else |
| JavaLang.TrimEndPadded | src/com/ecos/train/TrainManagerController.java:166 | blank characters after a text ending with a non-blank character are all removed, and nothing else |
| JavaLang.TrimPadded | src/com/ecos/train/TrainManagerController.java:166 | trim of blank padding around text with non-blank ends gives back exactly that text |
| JavaLang.ToUpperCase | src/com/ecos/train/TrainManagerController.java:181 | same length; each lower-case ASCII letter becomes its upper-case letter and every other character is kept |
| JavaLang.UpperIsGo | src/com/ecos/train/TrainManagerController.java:181 | upper-casing gives "GO" exactly for "GO", "Go", "gO" and "go" |
| JavaLang.NatToDigits | src/com/ecos/train/TrainManagerController.java:236 | a non-empty run of decimal digits whose value is the number, with no leading zero unless the number is 0 |
| JavaLang.IntToString | src/com/ecos/train/TrainManagerController.java:216 | a non-empty text of digits with a single leading '-', which is there exactly when the int is negative |
| JavaLang.IntToStringDigits | src/com/ecos/train/TrainManagerController.java:236 | after the sign come the digits of the int's magnitude, without leading zeros, so the text is the canonical one concatenation writes |
| JavaLang.ParseInt | src/com/ecos/train/TrainManagerController.java:222 | a parsed value comes from at least one decimal digit after an optional sign and equals the sign times the digits' value; conversely every such text whose value fits in an int parses |
| JavaLang.ParseIntRoundTrip | src/com/ecos/train/TrainManagerController.java:236 | parseInt reads back every int that concatenation writes |
| JavaLang.ParseIntEdges | src/com/ecos/train/TrainManagerController.java:222 | "", "-", "+" and texts with surrounding spaces do not parse; "+7" and "-07" do |
| Framing.NextLine | src/com/ecos/train/TrainManagerController.java:150 | `readLine()`: a line exactly when the reader is open and has lines, and then the first of them, which is consumed; null exactly when it is open, empty and at end of stream; otherwise it throws; nothing else changes |
| Framing.WriteLine | src/com/ecos/train/TrainManagerController.java:143 | `println`: an open writer's log grows by exactly the line; a closed writer's log is unchanged |
| Framing.AckIsNotEnd | src/com/ecos/train/TrainManagerController.java:151-155 | no acknowledgement line is a terminator line |
| Framing.ReadCount | src/com/ecos/train/TrainManagerController.java:150-160 | the loop reads lines up to and including the first terminator, or all of them when there is none |
| Framing.AccumulateEndsLine | src/com/ecos/train/TrainManagerController.java:158 | `Accumulate`, the StringBuilder's contents, is empty or ends with the newline appended after its last line |
| Framing.PayloadLinesAppend | src/com/ecos/train/TrainManagerController.java:151-159 | the payload of two runs of lines is the payload of the first followed by that of the second |
| Framing.AccumulateConsumed | src/com/ecos/train/TrainManagerController.java:145-160 | the buffer holds, in order, every consumed line that is neither an acknowledgement nor a terminator, each followed by "\n" |
| Framing.ExchangeConsumesPrefix | src/com/ecos/train/TrainManagerController.java:145-166 | `Exchange`, the reference for the reply loop, only consumes lines from the front, leaves lines unread only right after a terminator, returns a reply with no blank at either end, and gives "" on a closed reader |
| Framing.StopsAtFirstEnd | src/com/ecos/train/TrainManagerController.java:150-166 | with a terminator at position k, the reply is the trimmed payload before it and every line after it stays unread |
| Framing.ReadsAllWithoutEnd | src/com/ecos/train/TrainManagerController.java:149-166 | with no terminator, every line is read; a read failure after them gives the same reply as end of stream and is not passed on |
| Framing.ReadStep | src/com/ecos/train/TrainManagerController.java:150-160 | a terminator ends the reply with nothing more; any other line is one more read, and adds itself and "\n" unless it is an acknowledgement |
| Framing.ReadingStarts | src/com/ecos/train/TrainManagerController.java:145-147 | the loop starts with no line read, an empty buffer and quit unset |
| Framing.ReadingStep | src/com/ecos/train/TrainManagerController.java:150-160 | one read keeps the loop state in step with the lines consumed |
| Framing.ReadingEnds | src/com/ecos/train/TrainManagerController.java:150-166 | when the loop leaves (terminator, null or exception), the trimmed buffer and the reader are those of Exchange |
| Framing.ReadOne | src/com/ecos/train/TrainManagerController.java:150-160 | a non-terminator line is read, and only a non-acknowledgement adds text |
| Framing.TrimTwoLines | src/com/ecos/train/TrainManagerController.java:166 | trim removes exactly the trailing newline of two collected lines |
| Framing.TwoLineReply | src/com/ecos/train/TrainManagerController.java:142-167 | acknowledgement, two payload lines, terminator gives the two lines joined by "\n", and later lines stay unread |
| Replies.Bracketed | src/com/ecos/train/TrainManagerController.java:177-181 | substring(lastIndexOf(open)+1, lastIndexOf(']')) exists exactly when the last ']' comes after the last opening delimiter, and then frames the reply |
| Replies.SpeedOf | src/com/ecos/train/TrainManagerController.java:218-227 | getSpeed's value is parseInt of the text from after the last '[' to the last ']'; there is none when the last ']' comes before the last '[' or the text does not parse |
| Replies.DirOf | src/com/ecos/train/TrainManagerController.java:247-257 | getDir reads the same value as getSpeed and is forward exactly when it is 0 |
| Replies.ButtonOf | src/com/ecos/train/TrainManagerController.java:306-316 | getButton's value exists exactly when the text from after the last space to the last ']' parses, and is on exactly when it is 1 |
| Replies.EmergencyOf | src/com/ecos/train/TrainManagerController.java:177-186 | getEmergencyState's value exists exactly when the last '[' comes before the last ']', and is true exactly when the text between them is "GO" in any letter case |
| Replies.BracketedFrames | src/com/ecos/train/TrainManagerController.java:218-222 | any framing of a reply around a value determines the extracted value |
| Replies.SpeedReply | src/com/ecos/train/TrainManagerController.java:215-228 | getSpeed's reading of `...[n]...` is n |
| Replies.DirReply | src/com/ecos/train/TrainManagerController.java:243-259 | getDir's reading of `...[x]...` is forward exactly when x is 0 |
| Replies.ButtonReply | src/com/ecos/train/TrainManagerController.java:303-318 | getButton's reading of `... v]...` is on exactly when v is 1 |
| Replies.EmergencyReply | src/com/ecos/train/TrainManagerController.java:173-187 | getEmergencyState's reading of `...[s]...` is true exactly when s is "GO" in any letter case |
| Replies.NoClosingBracket | src/com/ecos/train/TrainManagerController.java:177-185 | a reply without ']' gives none of the four values |
| Replies.UnclosedBracket | src/com/ecos/train/TrainManagerController.java:218-227 | a reply whose last '[' follows its last ']' gives no speed, direction or status |
| Replies.SpeedExamples | src/com/ecos/train/TrainManagerController.java:218-222 | "<1 speed[87]>" and "87]" both read as speed 87 |
| Replies.NonNumericSpeed | src/com/ecos/train/TrainManagerController.java:221-227 | a bracketed value starting with neither a digit nor a sign gives no speed |
| Commands.RequestLine | src/com/ecos/train/TrainManagerController.java:216 | `Request`, the shared template `verb(id` + arguments, has no newline when its pieces have none and ends as its arguments end |
| Commands.ArgumentLine | src/com/ecos/train/TrainManagerController.java:235-304 | the requests with numeric arguments (set speed, set direction, set and get function) are single lines ending in ')' |
| Commands.SingleLine | src/com/ecos/train/TrainManagerController.java:175-304 | `Format`, every request template, is a single line ending in ')', so each command sends exactly one line |
| Commands.TemplateTarget | src/com/ecos/train/TrainManagerController.java:216 | a request `verb(id, ...)` names object id between its first '(' and first ',' |
| Commands.StationTarget | src/com/ecos/train/TrainManagerController.java:173-208 | the status, stop/go and info requests name object 1, the command station |
| Commands.FormatTarget | src/com/ecos/train/TrainManagerController.java:194-296 | every request names the object its command is about: 1, the train id, or none for the locomotive query |
| Commands.SpeedEcho | src/com/ecos/train/TrainManagerController.java:235-237 | an echo of `set(id, speed[n])` reads back as speed n |
| Commands.DirEcho | src/com/ecos/train/TrainManagerController.java:265-267 | an echo of `set(id, dir[x])` reads back as forward exactly when x is 0 |
| Commands.SetButtonLine | src/com/ecos/train/TrainManagerController.java:293-296 | the button request ends with a space, the value v (1 exactly when enabled) and "])" |
| Commands.ButtonEcho | src/com/ecos/train/TrainManagerController.java:293-296 | an echo of `set(id, func[i, v])` reads back as the enabled state that was set |
| TrainController.TrainManagerController.constructor | src/com/ecos/train/TrainManagerController.java:33-48 | never opened, not connected, train id 1000, no error shown |
| TrainController.TrainManagerController.OpenSocket | src/com/ecos/train/TrainManagerController.java:75-94 | the train id is set first; an open socket is kept; otherwise a refused connection leaves the socket cleared, and an accepted one opens a fresh reader and writer |
| TrainController.TrainManagerController.SetConnected | src/com/ecos/train/TrainManagerController.java:100-102 | sets the flag and nothing else |
| TrainController.TrainManagerController.IsConnected | src/com/ecos/train/TrainManagerController.java:108-110 | returns the flag |
| TrainController.TrainManagerController.ReadLine | src/com/ecos/train/TrainManagerController.java:117-124 | the next line, or None for end of stream, a failed read or a missing reader |
| TrainController.TrainManagerController.CloseSocket | src/com/ecos/train/TrainManagerController.java:130-135 | the socket is cleared; reader and writer are closed unless never opened; it succeeds exactly when the controller was open |
| TrainController.TrainManagerController.SendMsg | src/com/ecos/train/TrainManagerController.java:142-167 | writes exactly the request line, returns the reply of Exchange and leaves the reader as Exchange does |
| TrainController.TrainManagerController.GetEmergencyState | src/com/ecos/train/TrainManagerController.java:173-187 | sends the status request; true exactly when the value is "GO" upper-cased; false plus one error when there is no value |
| TrainController.TrainManagerController.EmergencyStop | src/com/ecos/train/TrainManagerController.java:194-201 | sends `set(1, stop)` or `set(1, go)` |
| TrainController.TrainManagerController.GetInfo | src/com/ecos/train/TrainManagerController.java:206-208 | sends `get(1, info)` |
| TrainController.TrainManagerController.GetSpeed | src/com/ecos/train/TrainManagerController.java:215-228 | sends the speed request for the train id; returns the bracketed int, or 0 plus one error |
| TrainController.TrainManagerController.SetSpeed | src/com/ecos/train/TrainManagerController.java:235-237 | sends the speed request for the train id and the given speed |
| TrainController.TrainManagerController.GetDir | src/com/ecos/train/TrainManagerController.java:243-259 | sends the direction request; true exactly when the bracketed int is 0; false plus one error when there is none |
| TrainController.TrainManagerController.SetDir | src/com/ecos/train/TrainManagerController.java:265-267 | sends the direction request for the train id and the given value |
| TrainController.TrainManagerController.GetLoco | src/com/ecos/train/TrainManagerController.java:272-274 | sends `queryObjects(10)` |
| TrainController.TrainManagerController.TakeControl | src/com/ecos/train/TrainManagerController.java:279-281 | sends the forced control request for the train id |
| TrainController.TrainManagerController.ReleaseControl | src/com/ecos/train/TrainManagerController.java:286-288 | sends the release request for the train id |
| TrainController.TrainManagerController.SetButton | src/com/ecos/train/TrainManagerController.java:293-296 | sends the function request for the train id with 1 or 0 |
| TrainController.TrainManagerController.GetButton | src/com/ecos/train/TrainManagerController.java:303-318 | sends the function query; true exactly when the int after the last space is 1; false plus one error when there is none |
| TrainController.ReopenAfterClose | src/com/ecos/train/TrainManagerController.java:79-134 | a second open while open dials nothing, a second close fails, and an open after close connects again with the new train id |

## Left out

- Real TCP is not modelled: the socket, host and port, and the 1000 ms connect timeout. The outcome of a connection attempt is a parameter, and the peer's lines are fixed when it connects.
- Blocking reads and use from several threads are not modelled. The reader never waits; it has its lines or it ends.
- `displayError` belongs to the `TrainManager` screen, which is not part of this model. The error display is a log of the messages handed to it, and the NullPointerException when no screen was set is left out.
- `getInstance` and `setActivity` are singleton and wiring code and are left out. Because the controller is a singleton, the static `trainId` is a field of the one instance.
- Commands on a controller that was never opened are left out. Their `predClient` is null, and the NullPointerException escapes `sendMsg`. Every sending method therefore requires a writer.
- `toUpperCase` is ASCII only, and `parseInt` accepts only ASCII digits. Java's locale rules and non-ASCII digits are left out.
- `socket.close()` is not modelled separately: it cannot fail once the reader and writer are closed.
- `getLoco` discards its reply. No roster parsing exists in this file.
- OpenSocket: the connection attempt either succeeds or fails with IOException. When the address is invalid (port outside 0..65535, null host), `new InetSocketAddress` throws IllegalArgumentException, which the `catch (IOException e)` does not catch. The socket then stays set to the unconnected `Socket` and the exception escapes. Every later `openSocket` returns at the null check without dialing, and commands use the reader and writer of any earlier connection. This path is not modelled; `Valid` would not hold in it.
- `closeSocket` differs from a reading where closing twice is harmless. A second close finds the socket null and throws, after closing the reader and writer again. The model follows the code: the result is false.
- The emergency state follows this file's mapping. It is a single boolean that is true exactly when the status reads "GO" in any letter case. Every other status, `STOP` included, reads as false. No separate status enumeration is modelled.
- This file has no `get(<id>, name)` query, so none is modelled.
