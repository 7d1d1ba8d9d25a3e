# stm32-debugger: a Dafny model of its GDB wrapper and extension core

This project models the core of the stm32-debugger VS Code extension. The
extension debugs STM32 boards through J-Link's GDB server. Its GDB wrapper
process queues gdb commands and writes them to gdb. It gathers gdb's
machine-interface records between prompts and parses them into responses:
breakpoints, variables, registers, stack frames, memory and values. The
extension itself checks and edits launch configurations, sets breakpoints,
normalises source paths and logs and analyses its own messages.

The modules follow the source files:

| module | file | models |
|---|---|---|
| `Queues` | `queue.dfy` | `Queue` of the wrapper (`out/Queue.js`) |
| `CommandQueue` | `commandqueue.dfy` | `ExecutableQueue` (`out/CommandQueue.js`) |
| `Handler` | `handler.dfy` | the request handler of the wrapper (`out/Handler.js`) |
| `GdbProtocol` | `gdbprotocol.dfy` | the response types both parsers produce |
| `GdbTextParser` | `gdbtextparser.dfy` | `GDBTextParser.Parse` of the current parser (`out/GDBTextParser.js`) |
| `ExpressionMatcher` | `expressionmatcher.dfy` | its line matchers and the `ParseTo*` extractors |
| `ExpressionValues` | `expressionvalues.dfy` | its `ParseToValue` and `_parseValue` |
| `CharArray` | `chararray.dfy` | its `ConvertCharArray` |
| `PreHandleArray` | `prehandlearray.dfy` | its `PreHandleArray` brace pass |
| `LegacyParser` | `legacyparser.dfy` | the older parser (`bin/GDBWrapper/GDBTextParser.js`) |
| `LegacyValues` | `legacyvalues.dfy` | its `_parseValue`, `ToJsonString` and `ConvertCharArray` |
| `UnfoldRepeat` | `unfoldrepeat.dfy` | its `UnFoldRepeat` |
| `Time` | `time.dfy` | `TimeData` and the `Time` helpers (`out/Time.js`) |
| `Runtime` | `runtime.dfy` | `LaunchConfigChecker` and the `Runtime` helpers (`src/Runtime.ts`) |
| `LaunchConfig` | `launchconfig.dfy` | `LaunchConfigManager` (`src/LaunchConfig.ts`) |
| `LaunchConfigView` | `launchconfigview.dfy` | `ModifyConfig` and the input validators (`src/LaunchConfigView.ts`) |
| `LogManager` | `logmanager.dfy` | `LogManager` (`src/LogManager.ts`) |
| `LogAnalyzer` | `loganalyzer.dfy` | `LogAnalyzer` (`src/LogAnalyzer.ts`) |
| `File` | `file.dfy` | the path helpers of `File` (`src/File.ts`) |
| `AutoComplete` | `autocomplete.dfy` | `ConfigCompletion.GetMatchedList` (`src/AutoComplete.ts`) |
| `JsText`, `Seqs` | `jstext.dfy`, `seqs.dfy` | JavaScript string built-ins and sequence helpers the modules share |

Some objects are updated in place in the source. These are classes here:
the queues, the handler session, `TimeData`, the configuration manager, the
log manager and the runtime's breakpoint table. Their methods state the
whole new state. Parsing and text rewriting are functions, and their
properties are lemmas. Loops of the source are methods with loop
invariants, each proved equal to a specification function. Where the
source throws, the model returns an `Outcome` whose `Thrown` case carries
the message.

## Model

| member | source | states |
|---|---|---|
| Queues.Queue.constructor | bin/GDBWrapper/out/Queue.js:4-6 | a new queue is empty |
| Queues.Queue.Dequeue | bin/GDBWrapper/out/Queue.js:7-12 | removes and returns the head; an empty queue gives nothing and stays empty |
| Queues.Queue.Enqueue | bin/GDBWrapper/out/Queue.js:13-16 | appends at the tail and returns the new length, one more than before |
| Queues.Queue.First | bin/GDBWrapper/out/Queue.js:17-22 | the head without removing it; nothing exactly when the queue is empty |
| Queues.Queue.IsEmpty | bin/GDBWrapper/out/Queue.js:23-25 | true exactly when the size is zero |
| Queues.EnqueueThenDequeue | bin/GDBWrapper/out/Queue.js:7-16 | on an empty queue, enqueueing a value and dequeueing gives that value back and leaves the queue empty |
| CommandQueue.ParamText | bin/GDBWrapper/out/CommandQueue.js:30 | the parameter text always ends in a newline; it is only the newline exactly when the parameter is missing or empty; otherwise it is a space, the parameter and the newline |
| CommandQueue.ExecutableQueue.constructor | bin/GDBWrapper/out/CommandQueue.js:7-11 | an empty queue that will run the first command it gets |
| CommandQueue.ExecutableQueue.RunNext | bin/GDBWrapper/out/CommandQueue.js:12-26 | hands out the head without removing it; on an empty queue nothing is handed out and the queue becomes idle again |
| CommandQueue.ExecutableQueue.Execute | bin/GDBWrapper/out/CommandQueue.js:27-38 | appends the command with its parameter text; it is handed out at once exactly when nothing was running, and otherwise it waits |
| CommandQueue.ExecutableQueue.CurrentCommand | bin/GDBWrapper/out/CommandQueue.js:39-47 | the command at the head; throws "Has no command" exactly when the queue is empty |
| CommandQueue.ExecutableQueue.NotifyRunNext | bin/GDBWrapper/out/CommandQueue.js:48-51 | the completed head is removed and recorded as completed; the new head, if any, is handed out; the queue invariant is kept |
| Handler.BreakParams | bin/GDBWrapper/out/Handler.js:198-200 | the `break` parameter starts with the quoted source, a colon and the line; the condition clause adds its length only for a conditional breakpoint |
| Handler.Calls | bin/GDBWrapper/out/Handler.js:94-148 | run-control requests become their gdb command followed by the breakpoint-hit pseudo-command; `launch` becomes the four connection commands; deleting breakpoint 0 or none adds nothing; at most four entries |
| Handler.CallsOfUnknown | bin/GDBWrapper/out/Handler.js:80-156 | an unknown request adds no command; every known request other than `init` and `delete breakpoints` adds at least one |
| Handler.Written | bin/GDBWrapper/out/Handler.js:158-163 | gdb is written at most one line per entry handed out |
| Handler.WrittenStep | bin/GDBWrapper/out/Handler.js:158-163 | handing out one more entry writes its command and parameter, unless it is the pseudo-command |
| Handler.Session.constructor | bin/GDBWrapper/out/Handler.js:72-78 | a new session is not running, has an empty queue, has buffered nothing and has written and sent nothing |
| Handler.Session.RunCmd | bin/GDBWrapper/out/Handler.js:158-163 | the entry handed out is written to gdb as command plus parameter, except the pseudo-command, which is never written |
| Handler.Session.Exec | bin/GDBWrapper/out/Handler.js:73-74 | queues one command, keeps the session invariant (gdb has been written exactly the entries handed out, minus pseudo-commands) |
| Handler.Session.HandleDebug | bin/GDBWrapper/out/Handler.js:79-157 | the request's commands are queued in order; `init` marks gdb as starting, clears the buffer and waits for the first prompt; other requests leave that state alone; nothing is sent |
| Handler.Session.ExecCalls | bin/GDBWrapper/out/Handler.js:94-148 | the commands of one request are queued in order, keeping the session invariant |
| Handler.Session.DebugResponse | bin/GDBWrapper/out/Handler.js:206-227 | on an empty queue the current command throws and nothing is sent; otherwise the parsed response, or the failed response when the parser threw, is sent, the buffer is cleared and the next command is handed out |
| Handler.Session.Respond | bin/GDBWrapper/out/Handler.js:208-222 | the response is the parsed one, or the failed response when the parser threw |
| Handler.Session.RunNext | bin/GDBWrapper/out/Handler.js:226 | the completed head is removed and the session invariant kept |
| Handler.Session.OnLine | bin/GDBWrapper/out/Handler.js:181-195 | a line that is not a prompt is buffered only while running; the first prompt starts the session and answers a pending `init` with a `file` command; a later prompt sends the head command's response to the buffered lines, clears the buffer and removes the head, or throws on an empty queue |
| Handler.Session.Started | bin/GDBWrapper/out/Handler.js:83-88 | the first prompt: the session runs; a pending `init` is answered with success and queues `file` with the program path, backslashes doubled |
| GdbTextParser.DropNewlineEscape | bin/GDBWrapper/out/GDBTextParser.js:61-66 | the text is kept, or loses exactly one trailing backslash-`n` |
| GdbTextParser.EscReplaceNoBackslash | bin/GDBWrapper/out/GDBTextParser.js:19-26 | text without a backslash goes through the escape replacer unchanged |
| GdbTextParser.ReplaceAllEscaped | bin/GDBWrapper/out/GDBTextParser.js:7 | replacing each backslash-quote with the quote undoes escaping that quote in backslash-free text |
| GdbTextParser.EscReplaceOfEscapedQuotes | bin/GDBWrapper/out/GDBTextParser.js:4-26 | text whose only backslashes escape its double quotes comes out of the replacer as it was before escaping |
| GdbTextParser.UnescapeQuotes | bin/GDBWrapper/out/GDBTextParser.js:62 | the negative-lookbehind quote unescaping never lengthens the text |
| GdbTextParser.UnescapeEscapedQuotes | bin/GDBWrapper/out/GDBTextParser.js:62 | the lookbehind unescaping undoes escaping the quotes of backslash-free text |
| GdbTextParser.StripQuotes | bin/GDBWrapper/out/GDBTextParser.js:53 | a record of two or more characters is its first character, the result and its last character; a shorter one gives empty text |
| GdbTextParser.DecodeDecimalEscapes | bin/GDBWrapper/out/GDBTextParser.js:115-117 | decoding the backslash-digits escapes never lengthens the message |
| GdbTextParser.DecodeDigitsEscape | bin/GDBWrapper/out/GDBTextParser.js:115-117 | a backslash and a run of digits become the one character whose code is those digits in base 10 |
| GdbTextParser.DecodeDecimalEscaped | bin/GDBWrapper/out/GDBTextParser.js:115-117 | decoding undoes writing every character as a backslash and its decimal code, for characters of one UTF-16 code unit |
| GdbTextParser.DecodeDecimalEscapesPlain | bin/GDBWrapper/out/GDBTextParser.js:115-117 | a message without backslashes is kept as it is |
| GdbTextParser.ParseExecStatus | bin/GDBWrapper/out/GDBTextParser.js:110-120 | the status fails exactly when the line is `error,msg=` followed by at least one character, and then its message is the rest of the line with the backslash-digits escapes decoded; it carries a message exactly when it fails |
| GdbTextParser.ExecStatusOfMessage | bin/GDBWrapper/out/GDBTextParser.js:110-120 | an `error,msg=` line whose message is written with decimal escapes, or holds no backslash, gives back a failure with exactly that message |
| GdbTextParser.SplitAsyncRecord | bin/GDBWrapper/out/GDBTextParser.js:123 | a match splits the text into a non-empty word, a comma and non-empty results |
| GdbTextParser.SplitAsyncRecordOf | bin/GDBWrapper/out/GDBTextParser.js:123 | a word, a comma and non-empty results always match and split back into those two parts |
| GdbTextParser.ParseToRunningStatus | bin/GDBWrapper/out/GDBTextParser.js:122-137 | throws, with the null-match message, exactly when the trimmed line has no word-comma-results shape |
| GdbTextParser.RunningStatusOf | bin/GDBWrapper/out/GDBTextParser.js:122-137 | a record made of a class word and its results parses back to that class and those results |
| GdbTextParser.GatherLines | bin/GDBWrapper/out/GDBTextParser.js:39-86 | throws the null-match error exactly when some `*` record is malformed; otherwise the status is that of the last `^` record (success when there is none), the running status that of the last `*` record, and there are no more console payloads than lines |
| GdbTextParser.LastRecord | bin/GDBWrapper/out/GDBTextParser.js:39-86 | the position of the last record with the flag: no later record has it, and none exactly when no record has it |
| GdbTextParser.GatherLineEffect | bin/GDBWrapper/out/GDBTextParser.js:39-86 | one record: a malformed `*` record throws; a `^` record sets the status, a `*` record the running status, and any other leaves them alone |
| GdbTextParser.RouteConsole | bin/GDBWrapper/out/GDBTextParser.js:72-85 | only `~` and `&` records add to the console list, one payload each |
| GdbTextParser.GatheredConsole | bin/GDBWrapper/out/GDBTextParser.js:51-82 | the console list is exactly the cleaned `~`/`&` payloads, in the order the lines came |
| GdbTextParser.GatherThrownPrefix | bin/GDBWrapper/out/GDBTextParser.js:39-86 | once a line has thrown, later lines do not change the outcome |
| GdbTextParser.Gather | bin/GDBWrapper/out/GDBTextParser.js:39-86 | the loop over the buffered lines computes the gathering function, stopping at the first throw |
| GdbTextParser.ResultOf | bin/GDBWrapper/out/GDBTextParser.js:138-175 | `file` fails with the missing-symbols message exactly when some line mentions it; `info variables`, `info registers` and `info stack` give the lines their matcher accepts, in order; `x` gives the memory values and nothing exactly when no line has one; `break` gives the breakpoint decoding; `print` and `info locals` give the decoded statements and throw exactly when decoding throws; any other command gives no result and the incoming status |
| GdbTextParser.ParseToResult | bin/GDBWrapper/out/GDBTextParser.js:138-175 | the extraction method computes the result function, on the as-written character-array and repeat conversions |
| GdbTextParser.BreakResult | bin/GDBWrapper/out/GDBTextParser.js:161-167 | `break` fails, listing the console lines joined by ` ; `, exactly when no line reports a breakpoint; otherwise it carries a breakpoint some line reports, with the incoming status |
| GdbTextParser.ParseResponse | bin/GDBWrapper/out/GDBTextParser.js:33-109 | the first line is never read; a malformed `*` record throws; the pseudo-command and `target remote` carry the gathered status and no result; otherwise a failed gathered status is kept without a result, and on success the extraction's result and status are taken, or its exception message becomes a failed status without a result; the running status is the last `*` record's |
| GdbTextParser.ParseResponseSkipsFirst | bin/GDBWrapper/out/GDBTextParser.js:39 | the response does not depend on the first line |
| GdbTextParser.Parse | bin/GDBWrapper/out/GDBTextParser.js:33-109 | the parse method computes the response function |
| ExpressionMatcher.IsFileNoSymbol | bin/GDBWrapper/out/GDBTextParser.js:259-267 | true exactly when some line mentions "No debugging symbols found" in any letter case |
| ExpressionMatcher.AddressHead | bin/GDBWrapper/out/GDBTextParser.js:190 | the text after a lower-case hexadecimal address and `: file ` is strictly shorter |
| ExpressionMatcher.BreakpointHead | bin/GDBWrapper/out/GDBTextParser.js:190 | the breakpoint number and the text after the `N at 0xADDR: file ` header, strictly shorter |
| ExpressionMatcher.BreakpointTail | bin/GDBWrapper/out/GDBTextParser.js:190 | the path before `, line L` and the line; the path is never empty |
| ExpressionMatcher.ParseBreakpointLine | bin/GDBWrapper/out/GDBTextParser.js:190 | a recognised line starts with `Breakpoint ` and gives a verified breakpoint with a number and a line |
| ExpressionMatcher.BreakpointLineRoundTrip | bin/GDBWrapper/out/GDBTextParser.js:188-190 | the line gdb prints after setting a breakpoint parses back to that number, file and line |
| ExpressionMatcher.FirstMemoryColon | bin/GDBWrapper/out/GDBTextParser.js:194 | the first colon with an address before it and a value after it, at or after the start position; none when there is no such colon |
| ExpressionMatcher.ParseMemoryLine | bin/GDBWrapper/out/GDBTextParser.js:194 | nothing exactly when no colon has an address before it and a value after it; otherwise an integer named `result` whose value is the run of hexadecimal characters after the first such colon |
| ExpressionMatcher.MemoryValueAfter | bin/GDBWrapper/out/GDBTextParser.js:194 | the value after such a colon is a non-empty run of hexadecimal characters |
| ExpressionMatcher.MemoryLineAt | bin/GDBWrapper/out/GDBTextParser.js:194 | the first memory colon decides the value |
| ExpressionMatcher.MemoryLineRoundTrip | bin/GDBWrapper/out/GDBTextParser.js:194 | an address, a colon and a tab, and a hexadecimal value read back as that value |
| ExpressionMatcher.ParseRegisterLine | bin/GDBWrapper/out/GDBTextParser.js:215 | a register line gives an integer named by the word the line starts with, valued `0x` and at least one decimal digit |
| ExpressionMatcher.RegisterLineSplits | bin/GDBWrapper/out/GDBTextParser.js:215 | a register is read exactly when the line splits into a word, white space and `0x` with a digit |
| ExpressionMatcher.RegisterLineOfSplit | bin/GDBWrapper/out/GDBTextParser.js:215 | at such a split the name is the word and the value is `0x` and the digits that follow |
| ExpressionMatcher.RegisterLineRoundTrip | bin/GDBWrapper/out/GDBTextParser.js:215 | a name, white space and `0x` with digits read back as that name and value |
| ExpressionMatcher.IdentAt | bin/GDBWrapper/out/GDBTextParser.js:210 | the identifier at the start of the text: the longest run of word characters |
| ExpressionMatcher.LeadingIdents | bin/GDBWrapper/out/GDBTextParser.js:210 | the last of the leading identifiers starts with a letter or `_` and holds only word characters |
| ExpressionMatcher.LeadingIdentsOfWords | bin/GDBWrapper/out/GDBTextParser.js:210 | identifiers separated by single spaces are read as that many leading identifiers, the last one last |
| ExpressionMatcher.ParseVariableLine | bin/GDBWrapper/out/GDBTextParser.js:210 | nothing exactly when the line does not start with two identifiers or does not end in `;`; otherwise the variable is the last leading identifier, an array exactly when `[` follows it |
| ExpressionMatcher.DeclarationRoundTrip | bin/GDBWrapper/out/GDBTextParser.js:210 | a declaration of type words, a name and an optional `[N]`, ending in `;`, reads back as that name, an array exactly when the length is given |
| ExpressionMatcher.LastAtBefore | bin/GDBWrapper/out/GDBTextParser.js:214 | the last `at ` that ends at or before the bound, none when there is none (the greedy `.*` before `at `) |
| ExpressionMatcher.FuncAt | bin/GDBWrapper/out/GDBTextParser.js:214 | the function name is a non-empty piece of the line ending at or before the `at ` |
| ExpressionMatcher.AddressAt | bin/GDBWrapper/out/GDBTextParser.js:214 | the optional `0xDIGITS in` part ends inside the line |
| ExpressionMatcher.StackHead | bin/GDBWrapper/out/GDBTextParser.js:214 | `#N` has at least one digit and is followed by white space |
| ExpressionMatcher.StackLineNumber | bin/GDBWrapper/out/GDBTextParser.js:214 | the line number follows a colon and is all digits |
| ExpressionMatcher.StackFunction | bin/GDBWrapper/out/GDBTextParser.js:214 | the function name of a frame is never empty |
| ExpressionMatcher.ParseStackLineWith | bin/GDBWrapper/out/GDBTextParser.js:214 | nothing exactly when one of the parts is missing (`#N` and white space, `:LINE` at the end, an `at ` before it, a function before that); otherwise the frame number is the digits after `#`, with a non-empty function, a file and an all-digit line, and no arguments |
| ExpressionMatcher.ParseStackLineFrom | bin/GDBWrapper/out/GDBTextParser.js:214 | the frame is built from those parts: the address and function before the last `at `, the file between it and the colon, the number and the line |
| ExpressionMatcher.FrameLineRoundTrip | bin/GDBWrapper/out/GDBTextParser.js:214 | a frame line gdb prints reads back as that number, address (or `0x00000000` without one), function, file and line |
| ExpressionMatcher.ParseToVariablesDefine | bin/GDBWrapper/out/GDBTextParser.js:268-282 | the loop keeps, in order, the variables of exactly the lines that declare one |
| ExpressionMatcher.ParseToRegisterValue | bin/GDBWrapper/out/GDBTextParser.js:283-298 | the loop keeps, in order, the registers of exactly the lines that show one |
| ExpressionMatcher.ParseToStacks | bin/GDBWrapper/out/GDBTextParser.js:299-317 | the loop keeps, in order, the frames of exactly the lines that show one |
| ExpressionMatcher.ParseToBreakpointInfo | bin/GDBWrapper/out/GDBTextParser.js:318-334 | the breakpoint of the last line that reports one; nothing exactly when no line reports one |
| ExpressionMatcher.ParseToMemoryValue | bin/GDBWrapper/out/GDBTextParser.js:335-350 | nothing exactly when no line holds a memory value; otherwise the values of those lines, in order |
| ExpressionValues.SplitStatement | bin/GDBWrapper/out/GDBTextParser.js:195-208 | the patterns fail exactly when there is no `=` or it comes first; the name holds no `=` |
| ExpressionValues.SplitStatementOf | bin/GDBWrapper/out/GDBTextParser.js:195-208 | `name = value` splits into the name and the value after one space |
| ExpressionValues.ClassifyValue | bin/GDBWrapper/out/GDBTextParser.js:384-461 | only an unmatched `}` in an array throws; an optimized-out or unrecognised value is named with ` <optimized out>` or ` <original>`; every other kind keeps the name; a result of each kind implies the value has that kind's shape (the converse, in order, is `ParseValueShapes`) |
| ExpressionValues.ParseValue | bin/GDBWrapper/out/GDBTextParser.js:384-461 | throws the null-match error exactly when there is no `=` or it comes first; nothing else throws except an unmatched `}`; the kind taken for each value shape is stated by `ParseValueShapes` |
| ExpressionValues.ParseValueShapes | bin/GDBWrapper/out/GDBTextParser.js:384-461 | `name = value` takes the kind of the first shape the value fits, in the order optimized out (`null`), decimal, hex (both `integer`), float, array (`ArrayValue` or its error), string (converted char array), object (`toJson` of the text), and otherwise is kept as `name <original>` with the trimmed text |
| ExpressionValues.ParseValueInteger | bin/GDBWrapper/out/GDBTextParser.js:394-402 | `name = DIGITS` is an integer with those digits |
| ExpressionValues.IntegerValue | bin/GDBWrapper/out/GDBTextParser.js:394-402 | a run of digits after the `=` is classified as that integer |
| ExpressionValues.ParseValueOptimized | bin/GDBWrapper/out/GDBTextParser.js:386-393 | `name = <optimized out>...` has the value `null`, whatever follows |
| ExpressionValues.OptimizedValue | bin/GDBWrapper/out/GDBTextParser.js:386-393 | a right-hand side starting with `<optimized out>` is classified as having no value |
| ExpressionValues.ParseValueCharArray | bin/GDBWrapper/out/GDBTextParser.js:436-443 | `name = "..."` holding gdb's rendering of a byte array is a character array listing exactly those bytes |
| ExpressionValues.ParseValueMisreadsBackslash | bin/GDBWrapper/out/GDBTextParser.js:436-443 | as written, `name = "..."` holding the rendering of the bytes 92, 97 is read as the codes 92, 48, 48, 55 |
| ExpressionValues.ParseValueString | bin/GDBWrapper/out/GDBTextParser.js:436-443 | `name = "BODY"` is a character array read from the trimmed body |
| ExpressionValues.StringValue | bin/GDBWrapper/out/GDBTextParser.js:436-443 | a quoted right-hand side is classified as a character array |
| ExpressionValues.QuotedShapes | bin/GDBWrapper/out/GDBTextParser.js:386-435 | text that opens with a quote is none of the shapes checked before the string |
| ExpressionValues.DropEmpty | bin/GDBWrapper/out/GDBTextParser.js:542 | the kept pieces are never empty, and every non-empty piece is kept |
| ExpressionValues.ParseToValue | bin/GDBWrapper/out/GDBTextParser.js:505-554 | the loop computes the decoded statements, stopping at the first exception; strings are read with the as-written character-array conversion |
| ExpressionValues.ValuesOfNone | bin/GDBWrapper/out/GDBTextParser.js:553 | `undefined` comes back exactly when no statement has the shape `lhs = rhs` |
| CharArray.CodesOf | bin/GDBWrapper/out/GDBTextParser.js:480-502 | the character walk gives at most one code per character |
| CharArray.CharCodes | bin/GDBWrapper/out/GDBTextParser.js:480-502 | the loop over the normalised text computes the walk function |
| CharArray.ConvertCharArray | bin/GDBWrapper/out/GDBTextParser.js:462-504 | the conversion as written: the bracketed code list of the walk over the text after the eleven replacement passes |
| CharArray.CodesOfPlain | bin/GDBWrapper/out/GDBTextParser.js:483-502 | text without backslashes gives one code unit per character |
| CharArray.CodesOfGroup | bin/GDBWrapper/out/GDBTextParser.js:483-502 | a backslash and three characters without a backslash give one base-8 number |
| CharArray.CodesOfAppendPlain | bin/GDBWrapper/out/GDBTextParser.js:483-502 | the codes of two texts concatenate when the first has no backslash |
| CharArray.EscapeRestart | bin/GDBWrapper/out/GDBTextParser.js:483-502 | an open group followed by a backslash starts again at that backslash |
| CharArray.EscapeIncomplete | bin/GDBWrapper/out/GDBTextParser.js:483-502 | a group cut short by the end of the text gives nothing |
| CharArray.NamedEscape | bin/GDBWrapper/out/GDBTextParser.js:465-472 | each named escape letter stands for a control code below 32 |
| CharArray.DecodeCString | bin/GDBWrapper/out/GDBTextParser.js:462-504 | the one-scan reading of the escapes gives at most one code per character |
| CharArray.OctalDigits | bin/GDBWrapper/out/GDBTextParser.js:497 | a byte is written as exactly three octal digits |
| CharArray.OctalDigitsValue | bin/GDBWrapper/out/GDBTextParser.js:497 | those three digits read in base 8 give the byte back |
| CharArray.DecodeRender | bin/GDBWrapper/out/GDBTextParser.js:462-504 | reading gdb's rendering of a byte array gives the bytes back |
| CharArray.ConvertCharArrayIntendedRender | bin/GDBWrapper/out/GDBTextParser.js:462-504 | the intended conversion of gdb's rendering of a byte array lists exactly those bytes |
| CharArray.ConvertCharArrayMisreadsBackslash | bin/GDBWrapper/out/GDBTextParser.js:465-479 | the conversion as written turns the rendering of bytes 92, 97 into codes 92, 48, 48, 55, although that rendering decodes to 92, 97 |
| CharArray.EscapeNormalizedPlain | bin/GDBWrapper/out/GDBTextParser.js:465-479 | text without a backslash goes through the eleven replacement passes unchanged |
| CharArray.ConversionsAgreePlain | bin/GDBWrapper/out/GDBTextParser.js:462-504 | text without a backslash becomes the list of its code units, as the as-written and the intended conversion agree |
| CharArray.ConvertedPlainBytes | bin/GDBWrapper/out/GDBTextParser.js:462-504 | for bytes whose rendering has no backslash the as-written conversion lists exactly those bytes, as the intended one does |
| PreHandleArray.ClosesUnique | bin/GDBWrapper/out/GDBTextParser.js:360-375 | no `}` closes two different `{` |
| PreHandleArray.NoBracesUnchanged | bin/GDBWrapper/out/GDBTextParser.js:351-383 | text without braces passes through unchanged |
| PreHandleArray.BraceRanges | bin/GDBWrapper/out/GDBTextParser.js:359-376 | the stack walk fails exactly when some `}` has nothing to close; otherwise it records exactly the brace pairs that open an array |
| PreHandleArray.WriteSentinels | bin/GDBWrapper/out/GDBTextParser.js:377-381 | both ends of every recorded pair become the sentinels; every other character is kept |
| PreHandleArray.MarkedFromRanges | bin/GDBWrapper/out/GDBTextParser.js:369-374 | a position is an end of a recorded pair exactly when it opens or closes an array |
| PreHandleArray.PartsMarked | bin/GDBWrapper/out/GDBTextParser.js:377-382 | after both passes every position holds what the marking function gives it |
| PreHandleArray.PreHandleArray | bin/GDBWrapper/out/GDBTextParser.js:351-383 | the method computes the marking: an exception when a `}` has nothing to close, otherwise array braces replaced by the sentinels and nothing else changed |
| UnfoldRepeat.RunEnd | bin/GDBWrapper/GDBTextParser.js:190-192 | the end of the longest run of characters with the property, starting at the given position |
| UnfoldRepeat.RepeatTailAt | bin/GDBWrapper/GDBTextParser.js:190-192 | a `<repeats N times>}` tail starts with `<` and ends inside the text, after its start |
| UnfoldRepeat.LastTail | bin/GDBWrapper/GDBTextParser.js:190-192 | the last position where a repeat tail starts, none when there is none (the greedy `.+` before the tail) |
| UnfoldRepeat.RepeatMatch | bin/GDBWrapper/GDBTextParser.js:190 | a match is a `{`, a non-empty body and a tail, in that order, inside the text |
| UnfoldRepeat.RepeatMatchSingle | bin/GDBWrapper/GDBTextParser.js:190 | `{`, a brace-free body and a tail form one match covering the whole text, with the count read in base 10 |
| UnfoldRepeat.TailAtOf | bin/GDBWrapper/GDBTextParser.js:192 | the tail gdb prints is read back with its digits and its end |
| UnfoldRepeat.BorderFrom | bin/GDBWrapper/GDBTextParser.js:198-209 | the scan from the right stops at a `{`, and never when the body has none |
| UnfoldRepeat.ScanBody | bin/GDBWrapper/GDBTextParser.js:195-209 | the backward loop with its brace stack finds the innermost open brace of the body and collects the repeated element |
| UnfoldRepeat.AppendCopies | bin/GDBWrapper/GDBTextParser.js:214-217 | the loop appends `count` copies of the element, a comma after each but the last |
| UnfoldRepeat.RepeatJoinSplits | bin/GDBWrapper/GDBTextParser.js:214-217 | the copies joined by commas split back into `count` equal elements |
| UnfoldRepeat.UnFoldRepeat | bin/GDBWrapper/GDBTextParser.js:189-222 | the replace callback computes the unfolding as written, `{` prefix included |
| UnfoldRepeat.ReplacementBraceless | bin/GDBWrapper/GDBTextParser.js:210-217 | a body without braces is repeated whole; the source keeps a `{` in front of it |
| UnfoldRepeat.UnfoldSingleBlock | bin/GDBWrapper/GDBTextParser.js:189-222 | a single repeat block unfolds to its element written `count` times between brackets; as written it keeps a `{` in front |
| UnfoldRepeat.RepeatPrefixFinding | bin/GDBWrapper/GDBTextParser.js:210-211 | `{0 <repeats 3 times>}` unfolds as written to `{[0 ,0 ,0 ]`, and to `[0 ,0 ,0 ]` once corrected |
| LegacyValues.LastEquals | bin/GDBWrapper/GDBTextParser.js:170-176 | the last `=` before the bound and after the first character, none when there is none |
| LegacyValues.LastSplit | bin/GDBWrapper/GDBTextParser.js:170-176 | the split found by a value pattern is at an `=` where the pattern fits |
| LegacyValues.LastSplitIsLast | bin/GDBWrapper/GDBTextParser.js:170-176 | the split found is the last `=` where the pattern fits (the name group is greedy), and none is found only when there is none |
| LegacyValues.SplitAt | bin/GDBWrapper/GDBTextParser.js:170-176 | a pattern's split is at an `=` where its value shape fits |
| LegacyValues.SplitAtNone | bin/GDBWrapper/GDBTextParser.js:170-176 | a pattern fails exactly when no `=` splits the statement for it |
| LegacyValues.SplitAtOnly | bin/GDBWrapper/GDBTextParser.js:170-176 | with one `=` after the first character, the pattern splits there exactly when the value fits |
| LegacyValues.ToJsonString | bin/GDBWrapper/GDBTextParser.js:223-234 | no `=` is left in the JSON text; on a printed structure the result is its JSON text (`ToJsonObject`) |
| LegacyValues.ToJsonObject | bin/GDBWrapper/GDBTextParser.js:223-234 | a printed structure `{a = 1, b = 0x10, c = RED}` of valid fields becomes its JSON text: names quoted, identifier values quoted, hexadecimal values in decimal and each `=` made `:` |
| LegacyValues.QuoteKeysField | bin/GDBWrapper/GDBTextParser.js:224-226 | the first pass quotes the name of a one-field object |
| LegacyValues.QuoteWordsField | bin/GDBWrapper/GDBTextParser.js:227-229 | the second pass keeps a value that does not start an identifier |
| LegacyValues.QuoteWordsNonWord | bin/GDBWrapper/GDBTextParser.js:227-229 | an `=` followed by white space and a value that does not start an identifier is kept |
| LegacyValues.HexToDecimalLiteral | bin/GDBWrapper/GDBTextParser.js:230-231 | a hexadecimal literal becomes the decimal text of its value |
| LegacyValues.ToJsonDecimalField | bin/GDBWrapper/GDBTextParser.js:223-234 | a one-field object with a decimal value gets its name quoted and its `=` made `:` |
| LegacyValues.ToJsonHexField | bin/GDBWrapper/GDBTextParser.js:223-234 | a one-field object with a hexadecimal value gets its name quoted, its value in decimal and its `=` made `:` |
| LegacyValues.DropTrailingComma | bin/GDBWrapper/GDBTextParser.js:399 | the text is kept, or loses a final comma and the white space after it |
| LegacyValues.ClosingQuote | bin/GDBWrapper/GDBTextParser.js:389 | the quote that closes an opening quote, with at least one character and no quote between |
| LegacyValues.DecodeEscapesText | bin/GDBWrapper/GDBTextParser.js:391-398 | a run of escapes becomes their numbers, each followed by a comma |
| LegacyValues.ConvertEscapes | bin/GDBWrapper/GDBTextParser.js:388-402 | a quoted run of escapes becomes the bracketed list of their numbers; a one-digit escape gives the code of that digit, not its value |
| LegacyValues.ConvertQuoted | bin/GDBWrapper/GDBTextParser.js:388-402 | a quoted text without inner quotes becomes its decoded escapes between brackets, without a final comma |
| LegacyValues.ConvertCharArrayPlain | bin/GDBWrapper/GDBTextParser.js:388-402 | text without a quote is left as it is |
| LegacyValues.Decide | bin/GDBWrapper/GDBTextParser.js:329-387 | the branch taken exists exactly when some pattern matched, and it splits where that pattern split |
| LegacyValues.TypeOf | bin/GDBWrapper/GDBTextParser.js:329-387 | the legacy parser never gives the `original` type |
| LegacyValues.Classified | bin/GDBWrapper/GDBTextParser.js:329-387 | throws the null-match error exactly when no pattern matched; otherwise an expression that is never `original` (which reading is taken for which split is stated by the `Reading` lemmas) |
| LegacyValues.ParseValue | bin/GDBWrapper/GDBTextParser.js:329-387 | only the null-match error is thrown; a result is never of type `original`; the kind taken for each split is stated by the `Reading` lemmas and, for whole statements, by `ParseValueHex`, `ParseValueFloat` and their siblings |
| LegacyValues.ParseValueThrows | bin/GDBWrapper/GDBTextParser.js:329-387 | `_parseValue` throws exactly when no pattern fits at any `=` |
| LegacyValues.ParseValueInteger | bin/GDBWrapper/GDBTextParser.js:333-340 | `name = DIGITS` is an integer with those digits |
| LegacyValues.ParseValueEscapes | bin/GDBWrapper/GDBTextParser.js:358-369 | `name = "ESCAPES"` is a char array of the escapes' numbers |
| LegacyValues.SplitAtLast | bin/GDBWrapper/GDBTextParser.js:169-176 | a pattern's greedy `(.+)\s*=` splits at the last `=` whose right-hand side fits the pattern |
| LegacyValues.ReadingInteger | bin/GDBWrapper/GDBTextParser.js:333-340 | when the integer pattern splits at `k` last, the statement is an `integer` named by the trimmed text before `k`, with the trimmed text after it |
| LegacyValues.ReadingHex | bin/GDBWrapper/GDBTextParser.js:341-348 | when the integer pattern never splits and the hex pattern splits at `k` last, the statement is an `integer` with the hex text |
| LegacyValues.ReadingFloat | bin/GDBWrapper/GDBTextParser.js:349-356 | when neither integer nor hex splits and the float pattern splits at `k` last, the statement is a `float` with that text |
| LegacyValues.ReadingArray | bin/GDBWrapper/GDBTextParser.js:358-377 | when no earlier pattern splits and the array pattern splits at `k` last, a quoted value is a char array of its conversion and any other is an `array` with `ArrayValue` of it |
| LegacyValues.ReadingObject | bin/GDBWrapper/GDBTextParser.js:378-385 | when no earlier pattern splits and the object pattern splits at `k` last, the statement is an `object` with `ObjectValue` of the text |
| LegacyValues.ParseValueHex | bin/GDBWrapper/GDBTextParser.js:341-348 | `name = 0xDIGITS` is an `integer` with that literal |
| LegacyValues.ParseValueFloat | bin/GDBWrapper/GDBTextParser.js:349-356 | `name = DIGITS.DIGITS` is a `float` with that text |
| LegacyValues.ParseValueQuoted | bin/GDBWrapper/GDBTextParser.js:358-369 | `name = "TEXT"` is a char array of the converted text |
| LegacyValues.QuotedFits | bin/GDBWrapper/GDBTextParser.js:170-176 | a quoted text fits the array pattern and no number pattern |
| LegacyValues.ParseValueOptimizedOut | bin/GDBWrapper/GDBTextParser.js:329-387 | `name = <optimized out>` fits no pattern, so it throws |
| LegacyValues.ParseToValue | bin/GDBWrapper/GDBTextParser.js:403-415 | the loop decodes, in order, the lines shaped `lhs = rhs`; an exception ends the walk |
| LegacyValues.ValuesEmpty | bin/GDBWrapper/GDBTextParser.js:403-415 | the list is empty exactly when no line has the shape `lhs = rhs`; it is never `undefined` |
| LegacyParser.ConsoleFragment | bin/GDBWrapper/GDBTextParser.js:76 | a console fragment is `~"`, non-empty text and `"`, and gives that text |
| LegacyParser.FragmentOf | bin/GDBWrapper/GDBTextParser.js:76 | the fragment carrying a non-empty text gives that text back |
| LegacyParser.PreHandleStr | bin/GDBWrapper/GDBTextParser.js:71-91 | the loop computes the joining of console fragments |
| LegacyParser.JoinKeepsOthers | bin/GDBWrapper/GDBTextParser.js:86-88 | every line that is not a console fragment is kept, in its order |
| LegacyParser.JoinFragments | bin/GDBWrapper/GDBTextParser.js:82-84 | fragments that do not end a line emit nothing and wait, in order; fragments no newline fragment follows are dropped |
| LegacyParser.JoinNewline | bin/GDBWrapper/GDBTextParser.js:78-81 | the newline fragment emits one `~` line holding every waiting text, and nothing waits afterwards |
| LegacyParser.JoinConsoleLine | bin/GDBWrapper/GDBTextParser.js:71-91 | a console line sent in fragments comes back as one `~` line with the fragments' texts concatenated |
| LegacyParser.DeleteLineEscapes | bin/GDBWrapper/GDBTextParser.js:100 | deleting the `\n` and `\r` escapes never lengthens the text |
| LegacyParser.DeleteLineEscapesAbsent | bin/GDBWrapper/GDBTextParser.js:100 | text whose backslashes are followed by neither `n` nor `r` is kept |
| LegacyParser.HandleStrConsoleLine | bin/GDBWrapper/GDBTextParser.js:92-102 | a console line `F"TEXT\n"` loses its quotes and its newline escape |
| LegacyParser.HandleStrTab | bin/GDBWrapper/GDBTextParser.js:92-102 | a `\t` escape becomes a space, except for `print` and `info locals`, which keep it |
| LegacyParser.HandleStrEscapedQuotes | bin/GDBWrapper/GDBTextParser.js:92-102 | a quoted line whose quotes gdb escaped gives its text back |
| LegacyParser.ParseExecStatus | bin/GDBWrapper/GDBTextParser.js:48-61 | the older status rule agrees with the current parser's on every line |
| LegacyParser.AsyncRecordFrom | bin/GDBWrapper/GDBTextParser.js:104 | the unanchored match finds a `*` followed by a word, a comma and non-empty results, anywhere from the start position |
| LegacyParser.ParseToRunningStatus | bin/GDBWrapper/GDBTextParser.js:103-118 | throws, with the null-match message, exactly when no `*` is followed by a word, a comma and more; otherwise the class and results follow some `*` of the line |
| LegacyParser.RunningStatusOf | bin/GDBWrapper/GDBTextParser.js:103-118 | `*CLASS,RESULTS` gives that class and those results |
| LegacyParser.IsFileNoSymbol | bin/GDBWrapper/GDBTextParser.js:253-261 | true exactly when some line holds `(No debugging symbols found`, in that letter case |
| LegacyParser.ParseToStacks | bin/GDBWrapper/GDBTextParser.js:293-311 | the loop keeps, in order, the frames of exactly the lines that show one, with nothing after the line number |
| LegacyParser.ResultOf | bin/GDBWrapper/GDBTextParser.js:119-151 | a failed reply or one with an async record is left alone; only `print` and `info locals` can throw; `break` keeps the status; `file` fails exactly when some line reports missing symbols |
| LegacyParser.ParseToResult | bin/GDBWrapper/GDBTextParser.js:119-151 | the extraction method computes the result function, on the as-written repeat and character-array conversions |
| LegacyParser.BreakVariants | bin/GDBWrapper/GDBTextParser.js:143-145 | both parsers report the same breakpoint; only the current one fails the reply when none is reported |
| LegacyParser.GatherLines | bin/GDBWrapper/GDBTextParser.js:18-44 | throws the null-match error exactly when some cleaned `*` line is malformed; otherwise the status is that of the last cleaned `^` line (success when there is none), the running status that of the last cleaned `*` line, and there are no more console lines than lines |
| LegacyParser.RouteLineEffect | bin/GDBWrapper/GDBTextParser.js:20-40 | one cleaned line: a malformed `*` line throws; a `^` line sets the status, a `*` line the running status, and any other leaves them alone |
| LegacyParser.GatheredConsole | bin/GDBWrapper/GDBTextParser.js:36-39 | the console list is exactly the cleaned `~`/`&` lines without their flag, in order |
| LegacyParser.GatherThrownPrefix | bin/GDBWrapper/GDBTextParser.js:18-44 | once a line has thrown, later lines do not change the outcome |
| LegacyParser.Gather | bin/GDBWrapper/GDBTextParser.js:18-44 | the loop over the lines after the first computes the gathering function |
| LegacyParser.ParseResponse | bin/GDBWrapper/GDBTextParser.js:8-47 | the response is built from the cleaned lines after the first: a malformed `*` line throws; otherwise the extraction runs on the last `^` line's status, the last `*` line's running status and the console lines, and its exception leaves the parser, while its result and status become the response with that running status |
| LegacyParser.ParseResponseSkipsFirst | bin/GDBWrapper/GDBTextParser.js:15-20 | outside `print` and `info locals`, the response does not depend on the first line |
| LegacyParser.Parse | bin/GDBWrapper/GDBTextParser.js:8-47 | the parse method computes the response function |
| Time.MonthLength | bin/GDBWrapper/out/Time.js:147-159 | a month has between 28 and 31 days |
| Time.DaysBefore | bin/GDBWrapper/out/Time.js:144-159 | the days before a month are never negative |
| Time.YearOfMonths | bin/GDBWrapper/out/Time.js:144-159 | the twelve month lengths add up to the year length |
| Time.MonthShifted | bin/GDBWrapper/out/Time.js:70-80 | the month count moves by exactly `n` and only year and month change; as written a month landing on a multiple of 12 above 12 becomes month 0 of the next year |
| Time.NextDay | bin/GDBWrapper/out/Time.js:126-134 | `AddDate` changes only the year, month and date |
| Time.PrevDay | bin/GDBWrapper/out/Time.js:135-143 | `ReduceDate` changes only the year, month and date |
| Time.NextDayStep | bin/GDBWrapper/out/Time.js:126-143 | on a valid date `AddDate` moves to the valid date of the next day number, and `ReduceDate` undoes it |
| Time.PrevDayStep | bin/GDBWrapper/out/Time.js:126-143 | on a valid date `ReduceDate` moves to the valid date of the previous day number, and `AddDate` undoes it |
| Time.DaysShifted | bin/GDBWrapper/out/Time.js:81-92 | `IncreaseDate` changes only the year, month and date |
| Time.DaysShiftedValid | bin/GDBWrapper/out/Time.js:81-92 | on a valid date `IncreaseDate(n)` moves the day number by exactly `n` and keeps the date valid |
| Time.DaysShiftedRestores | bin/GDBWrapper/out/Time.js:81-92 | on a valid date `IncreaseDate(n)` followed by `IncreaseDate(-n)` gives the time back |
| Time.HoursShifted | bin/GDBWrapper/out/Time.js:93-103 | `IncreaseHour` leaves the hour in 0..23 and changes nothing below the hour |
| Time.MinutesShifted | bin/GDBWrapper/out/Time.js:104-114 | `IncreaseMinute` leaves the minute in 0..59 and changes nothing below the minute |
| Time.SecondsShifted | bin/GDBWrapper/out/Time.js:115-125 | `IncreaseSecond` leaves the second in 0..59 |
| Time.HoursForward | bin/GDBWrapper/out/Time.js:93-103 | a non-negative `IncreaseHour` moves the time by exactly `n` hours and keeps the date valid |
| Time.HoursBorrowShort | bin/GDBWrapper/out/Time.js:93-103 | a borrow of `IncreaseHour` moves the time by `n - 1` hours instead of `n` |
| Time.MinutesForward | bin/GDBWrapper/out/Time.js:104-114 | a non-negative `IncreaseMinute` moves the time by exactly `n` minutes and keeps the hour in range |
| Time.SecondsForward | bin/GDBWrapper/out/Time.js:115-125 | a non-negative `IncreaseSecond` moves the time by exactly `n` seconds and keeps date and clock valid |
| Time.SecondBorrowExample | bin/GDBWrapper/out/Time.js:115-125 | one second before 2000-03-01 00:00:00 comes out as 2000-02-29 22:58:58, as written |
| Time.TimeData.constructor | bin/GDBWrapper/out/Time.js:15-17 | the object holds the time it was built with |
| Time.TimeData.Increase | bin/GDBWrapper/out/Time.js:21-47 | a number that is not whole throws and changes nothing; a whole number moves the chosen field |
| Time.TimeData.IncreaseMonth | bin/GDBWrapper/out/Time.js:70-80 | the time becomes the month-shifted time |
| Time.TimeData.IncreaseDate | bin/GDBWrapper/out/Time.js:81-92 | the loop of `AddDate` or `ReduceDate` calls gives the day-shifted time |
| Time.TimeData.IncreaseHour | bin/GDBWrapper/out/Time.js:93-103 | the time becomes the hour-shifted time |
| Time.TimeData.IncreaseMinute | bin/GDBWrapper/out/Time.js:104-114 | the time becomes the minute-shifted time |
| Time.TimeData.IncreaseSecond | bin/GDBWrapper/out/Time.js:115-125 | the time becomes the second-shifted time |
| Time.TimeData.AddDate | bin/GDBWrapper/out/Time.js:126-134 | the time moves to the next day |
| Time.TimeData.ReduceDate | bin/GDBWrapper/out/Time.js:135-143 | the time moves to the previous day |
| Time.Compare | bin/GDBWrapper/out/Time.js:48-69 | zero exactly when the six numeric fields agree; negative exactly when the object's time comes first in field order; positive exactly when it comes after |
| Time.CompareBySeconds | bin/GDBWrapper/out/Time.js:48-69 | on valid dates and clocks the comparison orders times as the seconds elapsed since year 0 do |
| Time.DayNumberOrder | bin/GDBWrapper/out/Time.js:48-69 | day numbers follow the order of year, month and date on valid dates |
| Time.Parse | bin/GDBWrapper/out/Time.js:196-209 | throws exactly when the stamp holds no `\|` |
| Time.SplitStamp | bin/GDBWrapper/out/Time.js:210-214 | a written stamp whose region has no `\|` splits into date, clock and region |
| Time.ParseStringify | bin/GDBWrapper/out/Time.js:196-214 | `Parse` reads back every field `Stringify` wrote, when the region has no `\|` |
| Runtime.Check | src/Runtime.ts:43-84 | a missing or absent program fails with a warning; an SVD path that does not exist replaces the warning and, as written, makes the check succeed |
| Runtime.SetBreakpoint | src/Runtime.ts:584-604 | the breakpoint keeps the requested path; without an answer it is id 0, unverified, at the requested line; with one it takes the answer's id, line and verification |
| Runtime.FailureReaction | src/Runtime.ts:512-532 | a message is written exactly when the command failed with a message, prefixed `[GDBWrapper] : `; the session disconnects exactly when that happens to a command that starts or moves the target |
| Runtime.CollapseSlashes | src/Runtime.ts:874 | no two slashes stay adjacent, only slashes are removed, and a leading slash stays leading |
| Runtime.CollapseClean | src/Runtime.ts:874 | a path without adjacent slashes is left unchanged |
| Runtime.DotSlashRemoved | src/Runtime.ts:875 | removing every `./` leaves no `./` and creates no adjacent slashes and no leading slash |
| Runtime.DropTrailingSlash | src/Runtime.ts:876 | the path is kept or loses exactly one trailing slash |
| Runtime.DelRepeat | src/Runtime.ts:871-883 | on POSIX the cleaned path has no adjacent slashes, no `./` and no trailing slash; on Windows it has no slash |
| Runtime.DelRepeatIdempotent | src/Runtime.ts:871-883 | cleaning a cleaned POSIX path changes nothing |
| Runtime.DotSlashAbsent | src/Runtime.ts:875 | text without a dot before a slash has no `./` at any position |
| Runtime.Stack | src/Runtime.ts:626-649 | the frames are the gdb frames that have an id and a line, converted in order; no answer gives no frames |
| Runtime.StackFrames | src/Runtime.ts:633-642 | every returned frame comes from a gdb frame with that id and a line; none is returned exactly when no gdb frame has both |
| Runtime.GetDataType | src/Runtime.ts:769-791 | integer exactly for decimal or hex text, float exactly for float text, object exactly for braced text; `array` and `char_array` are never returned |
| Runtime.ShapesExclusive | src/Runtime.ts:771-788 | a value text has at most one of the integer, float and object shapes |
| Runtime.GetDataTypeTrims | src/Runtime.ts:776 | surrounding white space does not change the type |
| Runtime.Runtime.constructor | src/Runtime.ts:109-112 | both breakpoint maps start empty |
| Runtime.Runtime.PreSetBreakpoints | src/Runtime.ts:319-332 | one pending breakpoint per requested line, in order, recorded for the path |
| Runtime.Runtime.SetBreakpoints | src/Runtime.ts:606-624 | one resolved breakpoint per requested line, in order, recorded for the path |
| LaunchConfig.CheckConfig | src/LaunchConfig.ts:163-216 | passes exactly when every check holds; an empty name fails on `name`; each failure tag implies that the earlier checks passed |
| LaunchConfig.FixedLists | src/LaunchConfig.ts:32-42 | the endian list holds exactly `little` and `big`; the protocol list exactly `SWD`, `JTAG`, `cJTAG`, `FINE` and `ICSP` |
| LaunchConfig.GetDefault | src/LaunchConfig.ts:119-128 | a given name is kept, otherwise the name starts `default_`; the other fields are the fixed defaults |
| LaunchConfig.DefaultPasses | src/LaunchConfig.ts:119-216 | a default configuration passes the check exactly when the device list knows `STM32F103C8` |
| LaunchConfig.IndexOfName | src/LaunchConfig.ts:143 | the first position holding that name, none when no configuration has it |
| LaunchConfig.LaunchConfigManager.constructor | src/LaunchConfig.ts:55-68 | with a configuration file the manager holds its list and has written nothing; without one it holds a single default configuration named `New` and has written that list once |
| LaunchConfig.LaunchConfigManager.GetConfigByName | src/LaunchConfig.ts:142-148 | a configuration with that name from the list, none exactly when no configuration has it |
| LaunchConfig.LaunchConfigManager.AddNewConfig | src/LaunchConfig.ts:150-153 | one default configuration is appended and the list written out |
| LaunchConfig.LaunchConfigManager.DeleteConfig | src/LaunchConfig.ts:155-161 | the first configuration with that name is removed and the list written out; with none nothing happens |
| LaunchConfig.LaunchConfigManager.Update | src/LaunchConfig.ts:256-258 | the list is written out once more |
| LaunchConfig.WithoutNameRemovesFirst | src/LaunchConfig.ts:155-161 | deleting removes exactly the first configuration with that name and keeps the others in order |
| LaunchConfig.AddThenDelete | src/LaunchConfig.ts:150-161 | a configuration added under a fresh name is the one found under it, and deleting it gives the old list back |
| LaunchConfigView.SetField | src/LaunchConfigView.ts:118-164 | succeeds exactly for a known property and a value of its type; sets that property and keeps the others |
| LaunchConfigView.ModifyConfig | src/LaunchConfigView.ts:111-180 | a successful change replaces the configuration in the list; an unknown configuration, property or wrong type gives the matching warning and changes nothing |
| LaunchConfigView.SpeedInputAccepted | src/LaunchConfigView.ts:274-280 | accepted exactly for three or more digits whose value is above 100 and at most 10000 |
| LaunchConfigView.NameInputAccepted | src/LaunchConfigView.ts:215-216 | accepted exactly when no configuration already has the name |
| LaunchConfigView.RenameFound | src/LaunchConfigView.ts:213-221 | a rename the validator accepted leaves the renamed configuration the one found under the new name |
| LaunchConfigView.SpeedBoundsDisagree | src/LaunchConfigView.ts:274-280 | the input box accepts a speed of 8000 that the configuration check refuses, and refuses 100 that the check accepts |
| LogManager.AppendedOneBucket | src/LogManager.ts:58-82 | logging appends the message to the bucket of its type only, and the data is then not empty |
| LogManager.LogManager.constructor | src/LogManager.ts:31-37 | empty buckets, both counters zero, nothing written |
| LogManager.LogManager.IsEmpty | src/LogManager.ts:54-56 | true exactly when every bucket is absent |
| LogManager.LogManager.ClearAll | src/LogManager.ts:49-52 | the buckets are emptied, the count reset and the empty data written |
| LogManager.LogManager.Dump | src/LogManager.ts:84-87 | the buckets are written and the count reset |
| LogManager.LogManager.ErrorDump | src/LogManager.ts:89-92 | the buckets are written, the count reset and one more failure counted |
| LogManager.LogManager.ResetCount | src/LogManager.ts:94-96 | the count is zero |
| LogManager.LogManager.Log | src/LogManager.ts:58-82 | the message is appended; an upload is asked for exactly when the count reaches 5 with fewer than 3 failures; with 3 failures the buckets are written instead |
| LogManager.LogManager.UpdateLogNumber | src/LogManager.ts:98-101 | the count goes up by one and the events are notified |
| LogManager.LogManager.NotifyEvents | src/LogManager.ts:103-120 | an upload is asked for exactly when the number reaches 5 with fewer than 3 failures; with 3 failures the buckets are written and the count reset |
| LogManager.LogManager.Upload | src/LogManager.ts:169-178 | a request starts exactly when some bucket is present |
| LogManager.LogManager.UploadSettled | src/LogManager.ts:171-175 | success clears and writes the buckets; failure writes them and counts a failure; the count is reset either way |
| LogManager.LogManager.Load | src/LogManager.ts:122-132 | an existing file replaces the buckets with its contents, or empty ones, and resets the count; otherwise nothing changes |
| LogAnalyzer.Analyze | src/LogAnalyzer.ts:66-116 | the message is kept; it is not logged exactly for a string warning or info; it is shown exactly for a string error, warning or info, with its content as text and its class, or for info its title, as title |
| LogAnalyzer.DispatchMessage | src/LogAnalyzer.ts:36-64 | a `Log` event exactly when the message is logged, and first; one show event exactly when it is shown; nothing else |
| LogAnalyzer.LoggedOrShown | src/LogAnalyzer.ts:66-116 | every message is logged or shown; errors are always logged; a message of another type is only logged |
| File.NoSuffixName | src/File.ts:72-80 | the name loses its last dot and what follows; a name without a dot is kept |
| File.GetRelativePath | src/File.ts:107-113 | a result exactly when the path begins with the base, matched with ASCII case folded and with `.` for any character but a line terminator; the result is what follows the base |
| File.MatchEscaped | src/File.ts:108 | the base with its backslashes doubled, read as a regular expression, matches exactly like the base and as long as it |
| File.RelativeOfJoined | src/File.ts:107-113 | a path below the base gives back what follows it, also when the base is written in lower case |
| File.ToNoProtocolUri | src/File.ts:256-258 | the result starts with `/`; on Windows it is one longer than the path and has no backslash |
| File.ToUri | src/File.ts:252-254 | the result starts with `file:///` |
| File.Filter | src/File.ts:28-70 | the passing files in input order, then the passing directories |
| File.Select | src/File.ts:31-68 | one pass appends the entries of its kind that pass the filters |
| File.AnyAccepts | src/File.ts:34-39 | true exactly when some pattern accepts the name |
| File.SelectedMembers | src/File.ts:28-70 | an entry is selected exactly when it is listed, of the kind asked for, and passes the filters |
| AutoComplete.MatchingMembers | src/AutoComplete.ts:54-56 | the matches are exactly the listed devices whose label starts with the word |
| AutoComplete.Limit | src/AutoComplete.ts:51 | 50 for no limit or 0, the limit itself when positive, never below 1 |
| AutoComplete.GetMatchedList | src/AutoComplete.ts:49-64 | the walk returns the matching devices cut at the limit |
| AutoComplete.MatchingPrefix | src/AutoComplete.ts:49-64 | the matches in a prefix of the list are a prefix of all matches |
| AutoComplete.MatchingIsSubsequence | src/AutoComplete.ts:49-64 | the matches keep the order of the device list |
| AutoComplete.MatchedListProperties | src/AutoComplete.ts:49-64 | at most the limit, all matching, in list order, and every match when they fit |

Where the code and its own description disagree, the model follows the
code. The `\NNN` escapes of a `^error,msg=` status are read in base 10,
as both parsers do, although GDB writes them in octal. Several behaviours
look unintended and are modelled as written, each with a lemma that names
it:
- `IncreaseMonth` gives month 0 when the month count lands on a multiple of 12 above 12 (`Time.MonthShifted`).
- A negative borrow in `IncreaseHour`, `IncreaseMinute` and `IncreaseSecond` adds 23 or 59 instead of 24 or 60, so the time moves one unit too little (`Time.HoursBorrowShort`, `Time.SecondBorrowExample`).
- `LaunchConfigChecker.Check` turns a failed check into a success when the SVD path is given and does not exist (`Runtime.Check`).
- The speed input box and `CheckConfig` use different bounds (`LaunchConfigView.SpeedBoundsDisagree`).
- `ConvertCharArray` of the current parser rewrites `\\a` before `\\\\`, so an escaped backslash followed by `a` is read as a bell (`CharArray.ConvertCharArrayMisreadsBackslash`, `ExpressionValues.ParseValueMisreadsBackslash`).
- `UnFoldRepeat` of the older parser keeps a `{` in front of a repeat block that is the whole value (`UnfoldRepeat.RepeatPrefixFinding`).

The parsers use these conversions as written. The intended ones (`CharArray.ConvertCharArrayIntended`, `UnfoldRepeat.Unfolded`) are defined beside them, with their intended properties proved, and the two agree where the findings do not apply (`CharArray.ConvertedPlainBytes`).

## Left out

- Processes, sockets, readline and the file system: the gdb child process, the port-1122 server, `SendResponse`, log files and the upload request are not part of this model. Lines arrive as parameters, and what would be written or sent is returned or recorded in a field (`dumps`, the written command list).
- GdbTextParser.ParseToRunningStatus: the `JSON.parse` of the record is not modelled; the running status keeps the record's text after the `word,` shape check. LegacyParser.ParseToRunningStatus does the same.
- ExpressionValues.ParseValue: `ToJsonString` of the current parser and the pointer, repeat and char pre-pass of its `ParseToValue` are lookbehind-heavy regular-expression rewrites. They are parameters (`Rewriters`), so every contract that depends on them holds for any rewriting. This also applies to ExpressionValues.ParseToValue, GdbTextParser.ParseToResult and GdbTextParser.Parse.
- `JSON.parse` of rewritten object and array text is not modelled: an object or array value keeps the rewritten text.
- `ESCReplacer._reset` only resets a regular expression's `lastIndex` and has no counterpart.
- Regular expressions are hand-written recognisers. Wherever a source pattern has `.` the recogniser takes any character, line terminators included, where JavaScript's `.` excludes `\n`, `\r`, U+2028 and U+2029; on text holding one of these (the line reader splits lines on `\n` and `\r` only, so U+2028 and U+2029 can reach the parsers) they may accept what the program rejects. This holds for the recognisers of `ExpressionMatcher`, `UnfoldRepeat` and `LegacyValues`; for `ExpressionValues.IsStringText` (`"(.+)"`), `IsArrayText` (`.*`), `IsObjectText` (`.+`) and the default split of `ExpressionValues.ParseValue` (`(.*)`); for the `(.+)` of `GdbTextParser.ParseExecStatus`, `GdbTextParser.ParseToRunningStatus`, `LegacyParser.ParseExecStatus` and `LegacyParser.ParseToRunningStatus`; and for `Runtime.GetDataType`, which tests objects with `IsObjectText`. File.GetRelativePath interprets no metacharacter of the base path other than `.` and `\`, and its `.` does exclude line terminators. AutoComplete.MatchingMembers reads the completion word literally, as a prefix.
- File.GetRelativePath: case is folded for the ASCII letters only; JavaScript's `i` flag also folds other letters (`é` and `É`), which the model treats as different characters.
- Strings are sequences of Unicode code points, while JavaScript strings are sequences of UTF-16 code units: lengths, indices and `charCodeAt` differ for characters outside the Basic Multilingual Plane. Only `String.fromCharCode` of a lone surrogate is handled explicitly (next line).
- CharArray.CodesOf: `String.fromCharCode` of a code in D800-DFFF cannot be a Dafny `char`; the model substitutes U+FFFD there.
- Handler.Calls: for `break` and `delete breakpoints` the program runs `JSON.parse` on the message's `data` (bin/GDBWrapper/out/Handler.js:101 and 107); `Content` carries the already parsed breakpoint, so the exception on malformed data is not modelled.
- LogManager.Load: an unparsable log file gives empty buckets as in the program, but the `error` event it emits on `GlobalEvent` (src/LogManager.ts:127-128) is not modelled.
- The event buses (`GlobalEvent`, the log manager's `trigger_upload` and `trigger_dump`) are calls in the model. `NotifyEvents` performs the dump itself and reports whether an upload is asked for.
- The `OnRunNewOne` callback of `ExecutableQueue` is modelled as the entry that `Execute`, `RunNext` and `NotifyRunNext` return. The session then runs it.
- The device list that the `LaunchConfigManager` constructor reads from JLinkDevices.xml is passed in, and so is the configuration list it loads (`stored`, none when the file does not exist). The `JSON.parse` exception of a malformed configuration file, the exceptions on a malformed JLinkDevices.xml and the file watcher are not modelled.
- LegacyValues.ToJsonObject: the characterisation of `ToJsonString` covers printed structures one level deep, with fields separated by `, `, each value a decimal number, a hexadecimal literal or an identifier, and no name or identifier value holding `0x` or `0X`; nested structures, arrays and other values are covered only by the contract that no `=` is left.
- LaunchConfig.GetDefault: the random default name is a parameter (`drawn`); the contract states only that the name starts with `default_`.
- The tree view, quick picks and input boxes of `LaunchConfigView.ts` are not part of this model, beyond `ModifyConfig` and the two validators.
- The clock and date functions `GetTimeStamp`, `GetDateString` and `GetTimeInfo` of `Time.js` read the system clock and are not part of this model.
- Time.TimeData.constructor: the object keeps its own copy of the time, so aliasing of the caller's object is not modelled.
- Time.SecondsShifted: for negative amounts the contract states only the ranges of the fields, since a borrow moves the time one unit too little (see `Time.HoursBorrowShort`).
- JavaScript numbers are integers in the model, except where integrality is checked (`TimeData.Increase`, the configuration speed), which use `real`. Integer overflow of double precision is not modelled.
- `File.ToUnixPath`, `path.basename` and `path.sep` are parameters of the runtime (`PathEnv`, `Platform`).
- The legacy parser's `ParseToVariablesDefine`, `ParseToRegisterValue` and `ParseToBreakpointInfo` use the same regular expressions as the current parser. The model reuses the matchers of `ExpressionMatcher` for them.
- `getALLBreakpoints` of `Runtime.ts`, and the promise plumbing around `Connect`, `Init` and `continue`, are not part of this model.

## Findings

| source | as written | input that shows it | evidently intended | confidence | as-written member | corrected member |
|---|---|---|---|---|---|---|
| bin/GDBWrapper/out/GDBTextParser.js:465-479 | the `\\a` rewrite runs before the `\\\\` rewrite, so an escaped backslash followed by the letter `a` is read as the bell escape | the bytes 92 and 97, which reach the parser as four backslashes and `a`, give the codes 92, 48, 48, 55 | the codes 92, 97 | not executed | CharArray.ConvertCharArrayMisreadsBackslash | CharArray.ConvertCharArrayIntendedRender |
| bin/GDBWrapper/GDBTextParser.js:210-211 | the text in front of `[` keeps a `{` even when the repeat block is the whole value | `{0 <repeats 3 times>}` gives `{[0 ,0 ,0 ]` | `[0 ,0 ,0 ]` | not executed | UnfoldRepeat.RepeatPrefixFinding | UnfoldRepeat.UnfoldSingleBlock |
