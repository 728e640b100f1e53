# LED server command core, in Dafny

This project models the request-processing core of `ledsrv`, a small server that owns the state of one LED. Clients write request lines such as `set-led-color blue` or `get-led-rate` into a FIFO. The server does the following for each line:

- it splits the line at every whitespace character;
- it looks the verb and the argument count up in a table of six commands;
- it runs the command's handler on a copy of the LED state;
- it commits the copy, after telling the view, only when the handler succeeded and the copy differs;
- it answers `OK`, `OK <output>` or `FAILED`.

Input arrives in chunks. A request may be cut anywhere across reads, so the text after the last `'\n'` is kept for the next read.

The modules:

- `Led` (led.dfy): the `LedState` value (`on`, `color`, `rate`), its field-by-field equality, and the start-up value off / red / rate 1.
- `Text` (text.dfy): the library calls the handlers rely on, in the "C" locale.
  - `boost::split` with `boost::is_space` splits without compressing separators (`Split`).
  - `boost::iequals` compares case-insensitively (`IEquals`).
  - `std::stoi` parses an int and may throw `invalid_argument` or `out_of_range` (`Stoi`).
  - `std::to_string` writes a number in decimal (`NatToString`).
- `Requests` (requests.dfy):
  - the command table `Table` and the six handlers as pure functions, each returning a success flag, its output and the new copy of the state, or the exception it lets out;
  - `DispatchRequest` as the function `Execute` of the request line and the current state;
  - the reply line `Response`.
- `RequestLaws` (request_laws.dfy): what a request does, stated over whole request lines.
- `Framing` (framing.dfy): how the read loop of `main` cuts text into lines.
  - `CString` is the part of a chunk that `accum + buf` appends.
  - `FindFrom` is `std::string::find`.
  - `Frame` gives the complete lines and the unterminated tail.
- `Server` (server.dfy):
  - the run of many request lines and of many reads, as functions (`RunLines`, `FeedSpec`, `FeedAll`) with their laws;
  - the class `LedServer`, whose fields are:
    - `led`: `gLedState`;
    - `accum`: the leftover text of `main`;
    - `halted`: whether an exception has ended the process;
    - `viewLog`: a ghost log of every state passed to `gLedView->Update`.

  Its methods run the loops of the source: the table search of `DispatchRequest` (`FindRequest`, `Dispatch`), the inner line loop of `main` (`Answer`, `AnswerLines`, `Feed`) and the outer read loop (`Serve`). Each method is proved against the functions above.

Behaviour of the code that the model keeps as written:

- `set-led-rate` hands its argument to `std::stoi` without catching anything. An argument with no digit after the optional leading whitespace and sign throws `invalid_argument`, and one outside the range of int throws `out_of_range`. Either exception ends the process. No reply is written and no later line runs. In the model this is the `Abort` outcome, and afterwards `halted` holds.
- `std::stoi` ignores whatever follows the digits, so `set-led-rate 3x` sets the rate to 3.
- Verbs are compared case-sensitively and arguments case-insensitively.
- Every whitespace character separates two tokens, so extra whitespace makes an extra empty token. This covers a trailing space, a double space and a carriage return.
  - After a complete request, the extra token is an arity mismatch, and the request fails.
  - A one-argument verb followed only by whitespace (`set-led-rate\r`) gets one empty argument and passes the arity test. `set-led-state` and `set-led-color` then fail. `set-led-rate` hands the empty string to `std::stoi`, whose `invalid_argument` ends the process.
- The header comment on `rate` gives the range 0..5, but the handler accepts only 1..5. The model follows the handler (`MinRate`, `MaxRate`).
- The view is told the start-up state once before any request (ledsrv.cpp:247), so `viewLog` starts as `[Initial]`.

## Model

| member | source | states |
|---|---|---|
| Led.SameLed | ledsrv.cpp:39-47 | `operator==` holds exactly when the two states are equal in every field |
| Server.LedServer.constructor | ledsrv.cpp:33-37 | the server starts off / red / rate 1 with nothing left over, the view has been shown that state once, and the server invariant holds |
| Requests.TableWellFormed | ledsrv.cpp:72-165 | each table entry's declared argument count is the one its handler reads, and no verb appears twice |
| Requests.SetLedState | ledsrv.cpp:74-91 | no contract of its own; specified by SetLedStateSpec, and over whole lines by RequestLaws.SetStateLine |
| Requests.SetLedStateSpec | ledsrv.cpp:74-91 | set-led-state succeeds exactly for "on" or "off" in any case, then holds the flag its argument names; colour and rate are untouched, nothing is written, and a failure changes nothing |
| Requests.GetLedState | ledsrv.cpp:93-100 | get-led-state always succeeds, changes nothing and writes "on" or "off" for the flag |
| Requests.SetLedColor | ledsrv.cpp:102-122 | no contract of its own; specified by SetLedColorSpec, and over whole lines by RequestLaws.SetColorLine |
| Requests.SetLedColorSpec | ledsrv.cpp:102-122 | set-led-color succeeds exactly when the argument is some colour's name in any case, then holds that colour; flag and rate are untouched, nothing is written, and a failure changes nothing |
| Requests.GetLedColor | ledsrv.cpp:124-137 | get-led-color always succeeds, changes nothing and writes the colour's lower-case name |
| Requests.SetLedRate | ledsrv.cpp:139-153 | no contract of its own; specified by SetLedRateSpec, and over whole lines by RequestLaws.SetRateLine |
| Requests.SetLedRateSpec | ledsrv.cpp:139-153 | set-led-rate throws exactly what std::stoi throws; otherwise it succeeds exactly for a value in 1..5, which becomes the rate with nothing else changed, and a failure changes nothing |
| Requests.GetLedRate | ledsrv.cpp:155-162 | get-led-rate always succeeds, changes nothing and writes the rate in decimal |
| Requests.Handle | ledsrv.cpp:72-165 | no contract of its own; specified by HandleSpec and TableWellFormed |
| Requests.HandleSpec | ledsrv.cpp:72-165 | every getter succeeds without a change; only set-led-rate can throw; no handler takes the rate out of 1..5 |
| Requests.Matches | ledsrv.cpp:186 | no contract of its own: the verb equals token 0 exactly and the arity is the count of the other tokens; specified by LookupFrom and HandledOnlyWithExactVerbAndArity |
| Requests.LookupFrom | ledsrv.cpp:183-197 | the search from index i returns the first entry that serves the request (verb equal to token 0, arity equal to the other tokens' count), and none only when no entry from i on serves it |
| Requests.LookupFinds | ledsrv.cpp:183-197 | any entry that serves a request is the one the search returns |
| Requests.RunEntry | ledsrv.cpp:188-195 | no contract of its own; specified by RequestLaws.ExecuteEntry, Server.RunLineNotifies and LedServer.Dispatch |
| Requests.DispatchUpTo | ledsrv.cpp:183-199 | no contract of its own; specified by DispatchUpToFinds |
| Requests.DispatchUpToFinds | ledsrv.cpp:183-199 | the loop over the first n entries runs the entry the search finds if it is among them, and runs nothing otherwise |
| Requests.Execute | ledsrv.cpp:168-200 | no contract of its own; specified by ExecuteLooksUp, ExecuteFacts and the RequestLaws lemmas, and implemented by LedServer.Dispatch |
| Requests.ExecuteLooksUp | ledsrv.cpp:168-200 | DispatchRequest is a search of the table followed by running the entry found, or a failure when none is found |
| Requests.ExecuteFacts | ledsrv.cpp:168-200 | an unknown request fails without a change; a request that does not succeed leaves the state as it was; only set-led-rate with an argument std::stoi rejects ends the server; the rate stays in 1..5 |
| Requests.Response | ledsrv.cpp:280-294 | no contract of its own; specified by ResponseRoundTrip |
| Requests.ResponseRoundTrip | ledsrv.cpp:280-294 | the reply line reads back as the success flag and, on success, the handler's output: "OK", "OK " + output, or "FAILED", each ending in '\n' |
| Text.Split | ledsrv.cpp:174 | splitting always yields at least one token, and no token holds whitespace |
| Text.SplitRoundTrip | ledsrv.cpp:174 | the tokens, rejoined with the whitespace characters in order, give back the line, and there is one more token than separators |
| Text.SplitInterleave | ledsrv.cpp:174 | whitespace-free tokens joined by whitespace characters split back into exactly those tokens |
| Text.SplitTrailingSeparator | ledsrv.cpp:174 | a whitespace character at the end of a line adds one empty token |
| Text.IsSpace | ledsrv.cpp:174 | the six characters `boost::is_space` accepts in the "C" locale: space, tab, newline, vertical tab, form feed and carriage return; no contract of its own |
| Text.Upper | ledsrv.cpp:81 | no contract of its own: `std::toupper` in the "C" locale, which raises only 'a'..'z'; specified through IEquals |
| Text.IEquals | ledsrv.cpp:81 | same length and the same characters once ASCII lower case is raised; no contract of its own, specified by IEqualsAgree, IEqualsSymmetric and ColorNameUnique |
| Text.IEqualsSymmetric | ledsrv.cpp:81 | equality up to case is symmetric |
| Text.IEqualsAgree | ledsrv.cpp:81-84 | two arguments equal up to case compare alike against every word |
| Text.NatToString | ledsrv.cpp:159 | std::to_string writes at least one decimal digit, with no leading zero |
| Text.DigitsValueOfNatToString | ledsrv.cpp:159 | the digits std::to_string writes denote the number |
| Text.Stoi | ledsrv.cpp:145 | std::stoi returns only int values, and throws invalid_argument exactly when no digit follows the leading whitespace and sign |
| Text.StoiOfNatToString | ledsrv.cpp:145 | std::stoi reads back a decimal number when an int can hold it, and throws out_of_range otherwise |
| Text.StoiOfNegated | ledsrv.cpp:145 | a minus sign negates the value, and a value below the smallest int throws out_of_range |
| Text.StoiStopsAtNonDigit | ledsrv.cpp:145 | std::stoi ignores what follows the first run of digits: a numeral with an optional sign, leading zeros allowed, gives the same value or the same exception with any text behind it that does not start with a digit |
| Text.StoiAgree | ledsrv.cpp:145 | without leading whitespace, std::stoi depends only on the first character and the run of digits after the sign |
| Text.StoiRejectsNonNumeric | ledsrv.cpp:145 | an empty argument, or one starting with neither whitespace, a sign nor a digit, throws invalid_argument |
| RequestLaws.HandleIdempotent | ledsrv.cpp:72-165 | a handler that succeeded, run again on the state it produced, gives the same result |
| RequestLaws.ExecuteIdempotent | ledsrv.cpp:168-200 | repeating a request gives the same outcome and leaves the state where the first left it |
| RequestLaws.HandledOnlyWithExactVerbAndArity | ledsrv.cpp:174-199 | unless token 0 is exactly some table verb and the line holds as many whitespace characters as that verb takes arguments, the request fails and changes nothing |
| RequestLaws.TrailingWhitespaceFails | ledsrv.cpp:174-199 | a complete request followed by one more whitespace character (a space, a '\r') fails and changes nothing |
| RequestLaws.VerbsDistinctUpToCase | ledsrv.cpp:72-165 | no two verbs of the table are equal even up to case |
| RequestLaws.VerbComparedExactly | ledsrv.cpp:186 | a first token that equals any table verb up to case but not exactly fails and changes nothing |
| RequestLaws.EmptyLineFails | ledsrv.cpp:174-199 | an empty line fails and changes nothing |
| RequestLaws.ExecuteEntry | ledsrv.cpp:183-195 | a line whose tokens a table entry serves runs that entry's handler on a copy of the state and commits the copy only on success |
| RequestLaws.SetStateLine | ledsrv.cpp:74-91 | a set-led-state line with "on" or "off" in any case sets the flag and succeeds; any other argument fails and changes nothing |
| RequestLaws.SetColorLine | ledsrv.cpp:102-122 | a set-led-color line with a colour name in any case sets that colour and succeeds; any other argument fails and changes nothing |
| RequestLaws.SetRateLine | ledsrv.cpp:139-153 | a set-led-rate line ends the server with std::stoi's exception, sets a value in 1..5 and succeeds, and fails without a change for other values |
| RequestLaws.GetStateAnswers | ledsrv.cpp:93-100 | a get-led-state line succeeds with "on" or "off" and changes nothing |
| RequestLaws.GetColorAnswers | ledsrv.cpp:124-137 | a get-led-color line succeeds with the colour's name and changes nothing |
| RequestLaws.GetRateAnswers | ledsrv.cpp:155-162 | a get-led-rate line succeeds with the rate in decimal and changes nothing |
| RequestLaws.SetStateThenGet | ledsrv.cpp:79-97 | set-led-state with "on"/"off" in any case succeeds and sets only the flag, and get-led-state then answers the lower-case word |
| RequestLaws.SetColorThenGet | ledsrv.cpp:107-133 | set-led-color with a colour name in any case succeeds and sets only the colour, and get-led-color then answers its lower-case name |
| RequestLaws.ColorNameUnique | ledsrv.cpp:109-120 | no argument matches two colour names |
| RequestLaws.SetRateOutcome | ledsrv.cpp:145-151 | set-led-rate n succeeds exactly for n in 1..5 and then sets only the rate, fails without a change for other ints, and ends the server when n exceeds an int |
| RequestLaws.SetRateThenGet | ledsrv.cpp:145-161 | a rate set in 1..5 is what get-led-rate then writes back |
| RequestLaws.SetRateNegative | ledsrv.cpp:145-148 | set-led-rate -n fails without a change, or ends the server when -n is below the smallest int |
| RequestLaws.SetRateNonNumeric | ledsrv.cpp:145 | set-led-rate with an argument that has no leading sign or digit ends the server with invalid_argument and changes nothing |
| RequestLaws.SetRateTrailingCharacters | ledsrv.cpp:145-151 | set-led-rate with a rate in 1..5 followed by other characters succeeds and sets that rate |
| RequestLaws.MissingArgument | ledsrv.cpp:145 | a one-argument set verb followed by one whitespace character gets an empty argument: set-led-state and set-led-color fail without a change, and set-led-rate ends the server with invalid_argument |
| RequestLaws.ArgumentCaseInsensitive | ledsrv.cpp:81-120 | set-led-state and set-led-color with arguments equal up to case have the same effect |
| Framing.CString | ledsrv.cpp:255-267 | what a chunk contributes to `accum + buf` is its prefix up to, not including, its first NUL |
| Framing.CStringWhole | ledsrv.cpp:267 | a chunk without a NUL is appended whole |
| Framing.CStringAppend | ledsrv.cpp:267 | a NUL-free front of a chunk is appended whole, followed by what is kept of the rest |
| Framing.CStringUnique | ledsrv.cpp:267 | the kept prefix is the only NUL-free prefix that ends at a NUL or at the chunk's end |
| Framing.FindFrom | ledsrv.cpp:270 | std::string::find returns an index at or after `pos` holding '\n' |
| Framing.FindFromFirst | ledsrv.cpp:270 | the index found is the first '\n' at or after `pos`, and npos means there is none |
| Framing.FrameFrom | ledsrv.cpp:269-303 | no contract of its own; specified by FrameJoins, FrameNoNewline, FrameFromSome and FrameFromOfJoin |
| Framing.FrameJoins | ledsrv.cpp:269-276 | the lines found from `pos` on, each followed by '\n', then the tail, give back the text from `pos` on |
| Framing.FrameNoNewline | ledsrv.cpp:269-276 | no line found and not the tail holds a '\n' |
| Framing.FrameRoundTrip | ledsrv.cpp:267-303 | the lines, each followed by '\n', then the tail make up the text, and none of them holds a '\n' |
| Framing.FrameOfJoin | ledsrv.cpp:267-303 | conversely, text made of '\n'-free lines, each followed by '\n', and a '\n'-free tail frames into exactly those lines and tail |
| Framing.FrameFromOfJoin | ledsrv.cpp:269-303 | the same from any position `pos` of the text |
| Framing.FrameFromSome | ledsrv.cpp:270-302 | with the next '\n' at e, framing from `pos` takes the line before e and continues after it |
| Framing.FrameAppend | ledsrv.cpp:267-275 | framing a text then more text is framing the text, then framing its tail followed by the more |
| Framing.FrameAdvance | ledsrv.cpp:278-302 | moving `pos` past the next '\n' keeps the lines before `pos` equal to the frame's first lines |
| Framing.FramedPrefix | ledsrv.cpp:278-302 | the lines handled so far are a prefix of the frame's lines |
| Framing.FrameFinish | ledsrv.cpp:270-275 | when no '\n' is left, the lines handled are all of the frame's lines and the text from `pos` is the tail |
| Server.RunLine | ledsrv.cpp:278-302 | no contract of its own; specified by RunLineNotifies, RunLinePreservesValid and RunLineReplies, and implemented by LedServer.Answer |
| Server.RunLines | ledsrv.cpp:269-303 | no contract of its own; specified by the RunLines lemmas below, and implemented by LedServer.AnswerLines |
| Server.RunLineNotifies | ledsrv.cpp:188-193 | Update is called once, with the new state, exactly when the state changes, and the state changes only on a successful request |
| Server.RunLinePreservesValid | ledsrv.cpp:188-195 | a request keeps the server invariant: the rate stays in 1..5, and the view was last told the current state and never told the same state twice in a row |
| Server.RunLinesPreservesValid | ledsrv.cpp:269-303 | any run of request lines keeps the server invariant |
| Server.RunLinesAppend | ledsrv.cpp:269-303 | running two runs of lines one after the other is running them together |
| Server.RunLinesHalted | ledsrv.cpp:145 | once the exception has ended the process, no later line changes anything |
| Server.RunLinesShift | ledsrv.cpp:278-294 | replies already written play no part in what later lines do |
| Server.RunLinesGrow | ledsrv.cpp:278-294 | replies and view updates are only appended; each line adds at most one reply, and exactly one unless it ends the process |
| Server.RunLineReplies | ledsrv.cpp:278-294 | a line that does not end the process appends exactly the reply line for its outcome |
| Server.RunLinesReplies | ledsrv.cpp:269-303 | unless the process ended, reply k answers line k in the state the earlier lines left |
| Server.RepeatNotifiesOnce | ledsrv.cpp:190-193 | sending the same request twice gives the same reply twice, and the second changes neither the state nor the view log |
| Server.EmptyLineAnsweredFailed | ledsrv.cpp:278-294 | an empty line between two newlines is answered "FAILED\n" and changes nothing |
| Server.FeedSpec | ledsrv.cpp:253-304 | no contract of its own; specified by the Feed lemmas below, and implemented by LedServer.Feed |
| Server.FeedAll | ledsrv.cpp:253-304 | no contract of its own; specified by FeedAllConcat, ChunkingIrrelevant and FeedAllAfterHalt, and implemented by LedServer.Serve |
| Server.FeedPreservesValid | ledsrv.cpp:253-303 | a read keeps the server invariant, and the leftover text never holds a '\n' |
| Server.FeedDispatchesLines | ledsrv.cpp:267-303 | a read answers the complete lines of the old leftover text plus the chunk, in order, one reply each; these lines, each with its '\n', then the new leftover text, make up the old leftover text plus the chunk |
| Server.FeedBlankLine | ledsrv.cpp:267-303 | a lone "\n" after a complete request is answered "FAILED\n" and changes nothing |
| Server.FeedHalted | ledsrv.cpp:145 | after the process has ended, a read does nothing |
| Server.FeedObserved | ledsrv.cpp:253-303 | two states that agree on what survives them behave alike on the next read |
| Server.FeedSplit | ledsrv.cpp:252-275 | for a NUL-free a, reading a then b gives the replies of reading a + b at once and the same state, up to the leftover text of an ended process, so a request may be cut at any point |
| Server.FeedAllConcat | ledsrv.cpp:252-304 | reading NUL-free chunks one by one answers and changes what reading their concatenation at once does |
| Server.ChunkingIrrelevant | ledsrv.cpp:252-304 | two ways of cutting the same input into reads give the same replies and the same state |
| Server.FeedAllAfterHalt | ledsrv.cpp:253-304 | reads after the one that ended the process change nothing |
| Server.FeedEnds | ledsrv.cpp:270-276 | a read whose lines all ran ends with the lines' state and replies, and with their tail as the leftover text |
| Server.FeedAborts | ledsrv.cpp:279 | a read in which a line ended the process ends in the state that line left, with the leftover text unchanged |
| Server.LedServer.FindRequest | ledsrv.cpp:183-199 | the index loop finds the entry the table search specifies, or none |
| Server.LedServer.Dispatch | ledsrv.cpp:168-200 | DispatchRequest gives the outcome and new state that `Execute` specifies, appends the new state to the view log exactly when the state changes, and sets `halted` exactly on the exception |
| Server.LedServer.Answer | ledsrv.cpp:278-302 | one request line is dispatched and its reply line produced, or nothing is written when it ended the process |
| Server.LedServer.AnswerLines | ledsrv.cpp:268-303 | the inner loop answers the complete lines of the text in order, as `RunLines` specifies; unless a line ended the process, it handles all of them and stops at the tail |
| Server.LedServer.Feed | ledsrv.cpp:255-303 | one read changes the server and writes the replies exactly as `FeedSpec` specifies |
| Server.LedServer.Serve | ledsrv.cpp:253-304 | a sequence of reads changes the server and writes the replies exactly as `FeedAll` specifies, and keeps the server invariant |

## Left out

- FIFO plumbing: `mkfifo`, `open`, `read`, `write`, `fsync`, `unlink`, the scope-exit cleanup and their error paths (ledsrv.cpp:204-250, 258-262, 289-299). These are operating-system I/O. A read is a string parameter, and the reply lines are returned as a sequence.
- The replies go back through the request FIFO's own descriptor. This is because the reply FIFO's `open` is commented out (ledsrv.cpp:232-238, 289, 293). That is a property of the I/O, which the model leaves out.
- `printf` logging (ledsrv.cpp:180, 264, 288, 292) has no effect on the state.
- The `PIPE_BUF` size of a read is not modelled. A chunk may have any length. What a NUL in a chunk does is modelled (`CString`).
- The view itself (`CreateLedView`, `ILedView`, view_stdout.cpp) is replaced by a ghost log of the states passed to `Update`.
- The branch for fewer than one token (ledsrv.cpp:175-177) is dead code. Splitting always yields at least one token (`Text.Split`), so no model member stands for it.
- Text.Stoi: skips leading whitespace as std::stoi does. No token that dispatch produces holds whitespace, so that path is never reached from a request.
- The leftover text of a process that an exception ended is not observable. `Server.Observed` blanks it, and the laws about several reads (`FeedSplit`, `FeedAllConcat`, `ChunkingIrrelevant`) compare states only up to it.
- Server.FeedDispatchesLines: states the lines-and-tail equation only for NUL-free chunks. For other chunks, `CString` says what is kept.
- RequestLaws.SetRateThenGet: covers in-range rates only. Out-of-range values are covered by `SetRateOutcome` and `SetRateNegative`.
- Led.LedState: models `rate` as a `nat` rather than the source's `unsigned`. Every stored value is in 1..5, so no wrap-around can occur.
