# Marlin Ender 3 streamer: the command-streaming core in Dafny

This project models the core of `MarlinEnder3Streamer.cpp`, a G-code streamer
for Marlin firmware over a serial line. It covers:

- **Trimming and the override transformer** (`trim`, `modify_line`). Each
  source line is trimmed and split into whitespace-separated tokens.
  - F values are scaled by a feedrate percentage and rounded half up.
  - S values are forced to a bed temperature on `M140`/`M190` lines, and
    otherwise to a hotend temperature on `M104`/`M109` lines.
  - The original line comes back when the single-spaced rewrite equals the
    trimmed line. Otherwise the trimmed rewrite comes back.
- **The framer.** It builds the payload `N<line> <command>`, then appends
  `*`, the exclusive-or of the payload's bytes in decimal, and a line feed.
  A decoder, written the way the receiving firmware reads a frame, is the
  partner every frame is checked against.
- **The acknowledgment reader** (`read_line`). Bytes are read up to the
  first line feed and carriage returns are dropped. Silence yields the empty
  string, which stands for a timeout. Responses are then classified: "ok"
  anywhere acknowledges; "Resend" or "rs" anywhere asks for a retransmission;
  anything else is ignored.
- **The streaming session** (the main loop of `main`). It has two passes:
  1. The first pass counts the command lines.
  2. The second pass frames each command with the current line number,
     writes it, counts it and waits for an acknowledgment. Resend requests
     retransmit the frame. The third consecutive one writes the emergency
     reset and restarts line numbering at 1. A timeout ends the stream.
  3. After the last line, an unnumbered `M400` flush is written and the
     session waits for "ok".

Modules:

- `Text`: the whitespace classes of `trim` and of `>>`, trimming,
  tokens, prefix and substring tests, and decimal numerals.
- `Transform`: the override rules and `modify_line`.
- `Framing`: the checksum, the frame builder and the receiving decoder.
- `Responses`: `read_line`'s character handling and the classification of
  responses.
- `Protocol`: the session as a pure specification. `State`, `AwaitAck`,
  `Dispatch`, `StreamFrom` and `Streamed` are functions over a sequence of
  printer responses. `Session` is a class whose fields are the program's
  counters, its write log and the pending responses. Its methods are proved
  to follow those functions, and `Stream` is the two-pass driver.
- `SessionProperties` and `StreamProperties`: what the session and the
  stream promise.
- `Scenarios`: worked examples on concrete lines, frames and responses.

Where the code and its design description differ, the model follows the
code:

- A line whose tokens all pass through unchanged still comes back
  single-spaced when it had runs of blanks (`Transform.ModifiedOutputForm`,
  `Scenarios.SpacingNormalised`). It comes back untouched only when it was
  already single-spaced (`Transform.NoOverridesIdentity`).
- The flush is the raw, unnumbered `M400\n`, not a numbered frame.
- The reset writes 11 bytes: `M112\nM999\n` plus the terminating NUL of the
  C string literal.
- After a reset, the frame is retransmitted as it was built, with the old
  line number. The next frame after the acknowledgment is numbered 2
  (`SessionProperties.ThreeResendsThenOk`; in general
  `SessionProperties.AckedLineNumber`).
- A frame is counted when it is written, not when it is acknowledged.

## Model

| member | source | states |
|---|---|---|
| Text.FirstKept | MarlinEnder3Streamer.cpp:112 | the index of the first character that is not space, tab, CR or LF; everything before it is strippable |
| Text.LastKept | MarlinEnder3Streamer.cpp:113 | one past the last character that is not strippable; everything after it is strippable |
| Text.TrimmedSpec | MarlinEnder3Streamer.cpp:111-114 | the trim is a contiguous piece of the input, with only strippable characters on both sides; it starts and ends with kept characters; it is empty exactly when the whole input is strippable |
| Text.TrimmedOfTrimmed | MarlinEnder3Streamer.cpp:111-114 | a string that starts and ends with kept characters is its own trim |
| Text.TrimIdempotent | MarlinEnder3Streamer.cpp:111-114 | trimming twice is trimming once, so the second trim of a returned line (line 207) changes nothing already trimmed |
| Text.Trim | MarlinEnder3Streamer.cpp:111-114 | the two-scan erase computes exactly the trimmed string |
| Text.WordEnd | MarlinEnder3Streamer.cpp:126 | the length of the leading run of non-separators, which ends at a separator or at the end |
| Text.Tokens | MarlinEnder3Streamer.cpp:121-126 | the tokens `>>` extracts are each non-empty and free of separators |
| Text.TokensOfSpaceJoin | MarlinEnder3Streamer.cpp:126-151 | splitting the single-space accumulation of tokens gives the same tokens back |
| Text.TrimmedSpaceJoin | MarlinEnder3Streamer.cpp:156-158 | trimming a non-empty accumulation only drops its leading space |
| Text.TokensOfTrimmed | MarlinEnder3Streamer.cpp:118-126 | trimming a line does not change its tokens |
| Text.ContainsAt | MarlinEnder3Streamer.cpp:225 | the `find(..) != npos` test holds exactly when the pattern occurs at some index |
| Text.NatToString | MarlinEnder3Streamer.cpp:136 | `to_string` of a non-negative number is a non-empty digit string with no leading zero |
| Text.ParsePrinted | MarlinEnder3Streamer.cpp:136 | reading back a printed number gives the number |
| Text.PrintParsed | MarlinEnder3Streamer.cpp:133 | printing the value of a digit string without superfluous leading zeros gives the string back |
| Transform.ScaledFeedrate | MarlinEnder3Streamer.cpp:135 | the scaled feedrate is within half a unit of value times percent over 100, with halves rounded up |
| Transform.RewriteToken | MarlinEnder3Streamer.cpp:127-150 | only an F or S token of length two or more can change; only an F token can fail; a rewritten token is still a token |
| Transform.RewriteAll | MarlinEnder3Streamer.cpp:126-151 | on success, each output token is the rewrite of the input token at the same place; the line fails exactly when some token fails |
| Transform.ModifyLine | MarlinEnder3Streamer.cpp:116-161 | the token loop with its accumulator returns exactly the transformer's result |
| Transform.RewriteAllStops | MarlinEnder3Streamer.cpp:133 | once a token has failed, the whole line fails with that error |
| Transform.BlankOrCommentUnchanged | MarlinEnder3Streamer.cpp:117-119 | blank and comment lines come back byte for byte |
| Transform.ModifiedFails | MarlinEnder3Streamer.cpp:131-133 | a line fails exactly when one of its tokens is an F token whose value is not a plain digit string (the stand-in for the conversion throwing) |
| Transform.ModifiedKeepsTokens | MarlinEnder3Streamer.cpp:126-151 | the output has the input's tokens in number and order; each is the rewrite of the token at the same place; only F and S tokens can differ |
| Transform.OutputTokens | MarlinEnder3Streamer.cpp:156-160 | whichever form is returned, its tokens are the rewritten tokens |
| Transform.ModifiedOutputForm | MarlinEnder3Streamer.cpp:156-160 | the original line comes back exactly when the accumulation equals " " + trimmed line; otherwise the result is the single-spaced rewrite |
| Transform.NoOverridesIdentity | MarlinEnder3Streamer.cpp:126-160 | with no override set and every F value a plain digit string, a single-spaced line comes back byte for byte |
| Transform.FeedrateRule | MarlinEnder3Streamer.cpp:131-138 | an F token whose value is a plain digit string never fails; with a positive percentage it becomes F plus the value scaled and rounded half up, printed without leading zeros; otherwise it is kept |
| Transform.FullFeedrateKeepsValue | MarlinEnder3Streamer.cpp:131-136 | at 100 percent an F token with a canonical digit string comes back with the same digits and an upper-case F |
| Transform.SetpointRule | MarlinEnder3Streamer.cpp:140-149 | an S token is forced to the bed temperature on an M140/M190 line when that is set, else to the hotend temperature on an M104/M109 line when that is set, printed without leading zeros, else kept; the two families never overlap |
| Transform.ModifiedOfSingleSpaced | MarlinEnder3Streamer.cpp:116-160 | a single-spaced command line comes back as its rewritten tokens, single-spaced |
| Framing.ChecksumAppend | MarlinEnder3Streamer.cpp:211-212 | the checksum of a concatenation is the exclusive-or of the two checksums |
| Framing.SingleByteChangeDetected | MarlinEnder3Streamer.cpp:211-212 | changing one byte of a payload changes its checksum |
| Framing.ChangedByteChecksum | MarlinEnder3Streamer.cpp:211-212 | the same for a payload with one index updated |
| Framing.ComputeChecksum | MarlinEnder3Streamer.cpp:211-212 | the accumulating exclusive-or loop computes the checksum of the whole payload |
| Framing.BuildFrame | MarlinEnder3Streamer.cpp:210-213 | the frame is the payload sealed with its own checksum and a line feed |
| Framing.LastIndexOf | MarlinEnder3Streamer.cpp:213 | helper of the receiving decoder: the last occurrence of a character, used to find the '*' that line 213 puts before the checksum |
| Framing.IndexOf | MarlinEnder3Streamer.cpp:88-92 | the first occurrence of a character: the LF that ends a response line (also used by the receiving decoder to find the blank after the line number) |
| Framing.PayloadParses | MarlinEnder3Streamer.cpp:210 | a payload gives back its line number and command |
| Framing.SplitAtStar | MarlinEnder3Streamer.cpp:213 | after payload, '*', digits and a line feed, the receiver finds the payload and the number again |
| Framing.DecodeSealed | MarlinEnder3Streamer.cpp:211-213 | a sealed payload passes the checksum test and is read as its payload |
| Framing.DecodeWire | MarlinEnder3Streamer.cpp:210-213 | every frame built passes the receiver's check and gives back its line number and command |
| Framing.WrongChecksumRejected | MarlinEnder3Streamer.cpp:211-213 | a frame whose number is not the exclusive-or of its payload is rejected |
| Framing.CorruptedPayloadRejected | MarlinEnder3Streamer.cpp:210-213 | a frame with one payload byte changed in transit is rejected |
| Responses.WithoutCR | MarlinEnder3Streamer.cpp:94 | no CR is kept, and every kept character comes from the input |
| Responses.ResponseLine | MarlinEnder3Streamer.cpp:83-101 | a response line holds neither CR nor LF |
| Responses.ReadLine | MarlinEnder3Streamer.cpp:87-100 | the byte loop returns the bytes before the first LF minus CRs, or the empty sentinel when no LF arrives, and consumes through the LF |
| Responses.WithoutCRIdentity | MarlinEnder3Streamer.cpp:91 | a string without CR is left alone |
| Responses.TerminatedLine | MarlinEnder3Streamer.cpp:88-94 | a line ended by LF or by CR LF reads back as its text, and the read stops right after the LF |
| Responses.SilenceReadsEmpty | MarlinEnder3Streamer.cpp:95-97 | silence and an empty printer line both read as the empty timeout sentinel |
| Responses.ClassifyByOccurrence | MarlinEnder3Streamer.cpp:222-236 | empty means timeout; "ok" anywhere acknowledges and wins; "Resend" or "rs" anywhere without "ok" asks for a resend |
| Protocol.Prepared | MarlinEnder3Streamer.cpp:205-208 | each source line is transformed and trimmed again, in order, one result per line |
| Protocol.FirstOk | MarlinEnder3Streamer.cpp:242 | the first response containing "ok", and no earlier one contains it |
| Protocol.CommandLinesAppend | MarlinEnder3Streamer.cpp:197 | the count of one more line adds one exactly for a line that is not blank or a comment |
| Protocol.CountCommands | MarlinEnder3Streamer.cpp:196-197 | the first pass counts exactly the lines that are not blank or comments |
| Protocol.Session.constructor | MarlinEnder3Streamer.cpp:196-202 | the session starts at line 1, streak 0, nothing sent or written |
| Protocol.Session.Write | MarlinEnder3Streamer.cpp:215 | a write appends to the log and changes nothing else |
| Protocol.Session.ReadResponse | MarlinEnder3Streamer.cpp:221 | the next response, or the empty line when the printer stays silent; the counters are unchanged |
| Protocol.Session.EmergencyReset | MarlinEnder3Streamer.cpp:103-109 | the 11-byte stop and restart write and nothing else |
| Protocol.Session.ReadUntilAck | MarlinEnder3Streamer.cpp:219-237 | the acknowledgment loop keeps the session healthy and ends in the state, remaining responses and verdict of `AwaitAck` |
| Protocol.Session.Send | MarlinEnder3Streamer.cpp:210-237 | framing, writing, counting and waiting end as `Dispatch` says |
| Protocol.Session.StreamLines | MarlinEnder3Streamer.cpp:205-238 | the second pass ends in the state, remaining responses and outcome of `StreamFrom` over the prepared lines |
| Protocol.Session.Finish | MarlinEnder3Streamer.cpp:240-242 | the flush writes `M400\n` once and stops at the first response containing "ok"; without one it is still pending |
| Protocol.Stream | MarlinEnder3Streamer.cpp:196-242 | the two-pass driver returns the first-pass count and exactly the run `Streamed` specifies |
| SessionProperties.AwaitKeepsHealthy | MarlinEnder3Streamer.cpp:220-236 | waiting keeps the streak below 3 and the line number at least 1; it never counts a frame and only appends writes; an acknowledgment leaves the streak at 0 |
| SessionProperties.AwaitKeepsCount | MarlinEnder3Streamer.cpp:219-237 | retransmissions are not counted as sent |
| SessionProperties.DispatchCountsOnce | MarlinEnder3Streamer.cpp:217 | each command is counted exactly once, whatever the responses |
| SessionProperties.DispatchKeepsHealthy | MarlinEnder3Streamer.cpp:210-237 | sending a command keeps the session healthy and only appends writes |
| SessionProperties.OccurrencesAppend | MarlinEnder3Streamer.cpp:215 | counting writes distributes over concatenated logs |
| SessionProperties.AwaitSkipsIgnored | MarlinEnder3Streamer.cpp:220-237 | responses that are neither empty, "ok" nor a resend request are read and discarded: the wait goes on as if they had not arrived |
| SessionProperties.DispatchAckRun | MarlinEnder3Streamer.cpp:210-237 | a command answered by ignored responses and then "ok" is written once, counted once, moves the line number on and clears the streak |
| SessionProperties.FrameIsNotReset | MarlinEnder3Streamer.cpp:213 | a frame ends in LF and the reset write of line 105 in NUL, so no frame is the reset write and the resend lemmas apply to every frame |
| SessionProperties.AwaitAfterResends | MarlinEnder3Streamer.cpp:230-236 | a run of resend requests is handled one by one without leaving the wait |
| SessionProperties.ResendRunCounters | MarlinEnder3Streamer.cpp:230-234 | after n resends from streak s, the streak is (s+n) mod 3; the line number is 1 if a reset happened and unchanged otherwise |
| SessionProperties.ResendRunWrites | MarlinEnder3Streamer.cpp:230-235 | after n resends from streak s, exactly (s+n)/3 resets and n retransmissions were written and nothing else |
| SessionProperties.ResendWrites | MarlinEnder3Streamer.cpp:230-235 | one resend writes the frame again, preceded by the reset when the streak reaches 3 |
| SessionProperties.AckedLineNumber | MarlinEnder3Streamer.cpp:220-236 | whatever responses precede the acknowledgment, the line number after it is one past the frame's own when no reset was written during the wait, and 2 when one was; the wait only appends to the log |
| SessionProperties.DispatchLineNumber | MarlinEnder3Streamer.cpp:210-236 | the same for a whole command, from before its frame is written |
| SessionProperties.DispatchTimesOut | MarlinEnder3Streamer.cpp:215-222 | an empty response after any ignored ones ends the wait unacknowledged, with the frame written and counted once and nothing retransmitted |
| SessionProperties.ThreeResendsThenOk | MarlinEnder3Streamer.cpp:220-236 | three resends then ok give four copies of the frame with one reset before the last; the frame is counted once; the next line number is 2 |
| StreamProperties.StreamKeepsHealthy | MarlinEnder3Streamer.cpp:202-238 | the whole loop keeps the session healthy and only appends writes |
| StreamProperties.Frames | MarlinEnder3Streamer.cpp:210-213 | one frame per command |
| StreamProperties.FramesAt | MarlinEnder3Streamer.cpp:210-213 | the i-th frame carries the i-th command with line number n + i |
| StreamProperties.AcknowledgedNumbersConsecutively | MarlinEnder3Streamer.cpp:202-238 | with no resend request or timeout, and every frame eventually acknowledged (ignored responses allowed in between), the commands go out once each in source order, numbered consecutively without gaps |
| StreamProperties.StreamStepAcknowledged | MarlinEnder3Streamer.cpp:205-237 | one sendable line answered by ignored responses and then "ok" moves the loop to the next line with the line number one higher |
| StreamProperties.StreamStepTimesOut | MarlinEnder3Streamer.cpp:205-222 | a sendable line whose wait ends in an empty response stops the stream as timed out at that point, and no flush is written |
| StreamProperties.LoopWritesNoFlush | MarlinEnder3Streamer.cpp:205-238 | the loop writes frames and resets only, never the flush command |
| StreamProperties.TimedOutWritesNoFlush | MarlinEnder3Streamer.cpp:202-242 | a stream that times out is exactly the loop's run: the flush command of line 241 is never written |
| StreamProperties.FlushedAcknowledged | MarlinEnder3Streamer.cpp:202-242 | in such a run the log is frames N1, N2, ... followed by the flush, which completes at the first later response containing "ok" |
| StreamProperties.StreamedAcknowledged | MarlinEnder3Streamer.cpp:196-242 | the end-to-end run from the source lines without resends or timeouts writes frames numbered 1.. for the commands, then the flush, and completes |
| StreamProperties.StreamedAllOk | MarlinEnder3Streamer.cpp:196-242 | the special case where every frame and the flush are acknowledged by the very next response |
| StreamProperties.FramesDecode | MarlinEnder3Streamer.cpp:210-213 | each frame of such a run decodes at the receiver to its line number and command |
| StreamProperties.BlankOrCommentSkipped | MarlinEnder3Streamer.cpp:206-208 | a blank or comment line is never sent: the stream goes on as if it were absent |
| StreamProperties.SendableWithinCommandLines | MarlinEnder3Streamer.cpp:197-208 | every line the second pass sends was counted by the first pass |
| StreamProperties.SentWithinSendable | MarlinEnder3Streamer.cpp:217 | frames are counted once per command, never per retransmission |
| StreamProperties.StreamedWithinTotal | MarlinEnder3Streamer.cpp:196-228 | frames counted never exceed the first-pass total, so the progress division at line 228 never divides by zero; the session ends healthy |
| Scenarios.FeedrateExample | MarlinEnder3Streamer.cpp:131-138 | "G1 F3" at 150 percent becomes "G1 F5" (4.5 rounded half up) |
| Scenarios.BedExample | MarlinEnder3Streamer.cpp:140-144 | "M140 S60" with the bed forced to 70 becomes "M140 S70" |
| Scenarios.HotendExample | MarlinEnder3Streamer.cpp:145-148 | "M104 S200" with the hotend forced to 215 becomes "M104 S215" |
| Scenarios.BedOverrideSkipsHotend | MarlinEnder3Streamer.cpp:140-148 | the bed override leaves a hotend command alone |
| Scenarios.SpacingNormalised | MarlinEnder3Streamer.cpp:156-158 | "G1  X10" comes back as "G1 X10" though no rule applies |
| Scenarios.FrameExample | MarlinEnder3Streamer.cpp:210-213 | the first frame for "G28" is "N1 G28*18\n" |
| Scenarios.ChecksumExample | MarlinEnder3Streamer.cpp:211-212 | the exclusive-or of "N1 G28" is 18 |
| Scenarios.ClassifyResend | MarlinEnder3Streamer.cpp:230 | "Resend: 3" asks for a resend |
| Scenarios.ClassifyWait | MarlinEnder3Streamer.cpp:225-236 | the idle message "wait" is ignored |
| Scenarios.WaitThenOk | MarlinEnder3Streamer.cpp:220-229 | "wait" then "ok" acknowledges a frame without a resend |
| Scenarios.ClassifyOk | MarlinEnder3Streamer.cpp:225 | "ok" acknowledges |
| Scenarios.ClassifySilence | MarlinEnder3Streamer.cpp:222 | the empty sentinel is a timeout |

## Left out

- Serial I/O is not modelled: opening the device, `termios` configuration,
  baud-rate lookup and `tcflush`. Writes are entries of a log, and the
  printer's responses are a sequence given in advance.
- Timing is not modelled: the 10-second silence deadline, the 5 ms polling
  sleep, the 2 s start-up pause and the 4 s reset pause. Running out of
  bytes, or out of responses, stands for the deadline passing.
- Console output is not modelled: debug echo, progress reports and
  messages. Option parsing (`main` lines 164-178) is also left out; the
  overrides are a parameter.
- Transform.RewriteToken: F values are read only as plain digit strings;
  anything else is modelled as the conversion failure (`BadFeedrate`).
  `std::stod` reads more, and then the program scales the value and goes on
  streaming where the model crashes the stream. That covers:
  - a sign, a decimal point or an exponent (`F1.5` becomes `F2` at 150
    percent);
  - text after the number, such as an inline comment (`F1200;fast` becomes
    `F1800` and the comment is dropped);
  - `inf`, `nan` and hexadecimal values.

  The reverse also holds: a digit string too large for a `double` makes
  `std::stod` throw `out_of_range`, while the model scales it. Floating-point
  rounding is not modelled either.
- Transform.ModifiedFails: fails exactly on a non-digit F value, so it
  states failure for the extra inputs listed under `Transform.RewriteToken`,
  and success for too-large digit strings, where the program does the
  opposite.
- Transform.FeedrateRule: stated only for F values that are plain digit
  strings, for the reason given under `Transform.RewriteToken`.
- Transform.NoOverridesIdentity: requires every F value to be a plain digit
  string, for the same reason. The program also returns such lines
  unchanged when their F values are any other text `std::stod` reads.
- Transform.ScaledFeedrate: the `int` conversion of large products and
  `int` overflow of the line number and counters are not modelled; numbers
  are unbounded.
- Protocol.Session.Finish: the source waits forever for "ok" after the
  flush. The model stops when the given responses run out and reports
  `FlushPending`.
- Responses.ReadLine: the `pop_back` of a trailing CR at line 91 is omitted
  because CRs are never appended, so it cannot fire.
- StreamProperties.StreamedWithinTotal: the bound is `sent <= total`, not
  equality. A line made only of vertical tabs or form feeds is counted by
  the first pass (trim keeps it) but yields no tokens, so it is never sent.
  A line such as `"\v; note"` is counted too (after trim it starts with the
  vertical tab), but modify_line re-joins its tokens as `"; note"`, which
  line 208 skips as a comment.
- Characters stand for bytes: the checksum takes each character's code
  modulo 256, as the cast to `unsigned char` does. Multi-byte encodings
  are not modelled.
