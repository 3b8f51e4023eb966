# ContextShield: the detection and masking pipeline

ContextShield is a gateway between applications and model APIs. It looks for secrets in requests and in streamed
responses, and blocks or masks them. This project models its pipeline and proves that the fast, incremental code does
what a simple description says.

- **Finding.** An Aho-Corasick automaton (`AhoCorasick.dfy`) points out where a rule may match, a regular expression looks
  at a bounded window (`Rules.dfy`), and `Find` collects the results (`Matching.dfy`). The description: try every rule
  wherever one of its keywords occurs, or wherever a digit or IBAN start lies. `Noticing.dfy` says of the bytes of the text,
  the expression, the match group and the validators what is noticed and what is reported.
- **Finding in a stream.** `StreamScan` (`Holding.dfy`, `WaitLists.dfy`, `Streaming.dfy`, `Equivalence.dfy`) reads chunks,
  keeps candidates waiting until their window is complete, and says how many bytes must be held back. Its results are those
  of `Find` on the whole text, however the text is cut.
- **Masking a stream.** Events are queued, released as soon as they are settled, masked or withheld (`SpanMask.dfy`,
  `GateSpec.dfy`, `Gate.dfy`). `Release.dfy` says without a queue when each event is written and what is known then, and
  `Response.dfy` that this is what is sent. `Online.dfy` compares it with masking the complete text, and
  `OnlineExactly.dfy` says exactly when the two agree. Frames are cut and rewritten in `Sse.dfy`, `SseFrame.dfy` and
  `FrameShape.dfy`, and `SseWritten.dfy` starts from frames spelled in bytes; `ClientView.dfy` reads the bytes sent as a client
  does, and `Relay.dfy` goes from chunks to client.
- **Masking a request.** A JSON parser records for every decoded byte where it came from (`Utf8.dfy`, `JsonString.dfy`,
  `JsonGrammar.dfy`, `JsonTree.dfy`), positions are mapped back, also through JSON inside a string (`RawMapping.dfy`,
  `NestedMask.dfy`), and the raw body is masked (`Request.dfy`, `RequestBody.dfy`, `RequestExactly.dfy`). That the masked
  body is still the same document follows from what replacing bytes does to literals and documents (`Splice.dfy`,
  `LiteralSplice.dfy`, `DocumentSplice.dfy`, `LiteralMask.dfy`, `DocumentMask.dfy`, `NestedDocument.dfy`). Whether it is
  still valid JSON is decided in `JsonSyntax.dfy` and `SyntaxSplice.dfy`, with an example in `JsonExample.dfy`.
- **Reading what others write.** Strings and values written as RFC 8259 asks are read back (`JsonQuote.dfy`,
  `JsonPrint.dfy`), and the syntax check is compared with its grammar (`JsonNumber.dfy`).
- **Checksums.** The Luhn and IBAN checks and the errors they catch (`Checksums.dfy`), in the words of their standards
  (`ChecksumLaws.dfy`).

Objects whose methods update their fields are classes: `Automaton`, `Matcher`, `StreamScan`, `StreamScanner`,
`FrameReader`, `JsonParser`. Their methods are proved against specification functions; the laws about those functions are
lemmas. Findings are compared as multisets (`Bag`) of one finding per key, because each result of a stream is sorted but
their concatenation is not.

A regular expression is any function from a window to group offsets that lie in the window and inside the whole match; a
validator is any predicate on bytes; a policy is any function of class and confidence that only logs what it exempts.

## Where the code and its comments differ

- The comment on `holdLen` (engine/engine.go:436-447) promises that every uncertain region is held. The code does not count
  `deferredIBANStarts`, so with IBAN rules three promises fail. A finding can start in the part already let go
  (`Holding.EarlyRelease`; exactly when: `Holding.HoldSafeExactly`). The settled part can shrink (`Holding.ProgressLost`;
  exactly when: `Holding.SteadyExactly`). A stream can be sent with the start of an IBAN in the clear
  (`OnlineExactly.FailingRun`; exactly when: `OnlineExactly.RightExactly`). `Online.NoneOvertaken` is the condition on the
  frames at hand under which streams are right. It always holds without IBAN rules (`Online.NoIbanNoneOvertaken`), and
  without it the error is confined to the last three bytes of an event (`Online.StopsWithinThree`, `Online.OnlyLastThree`).
- Rules may share an identifier: neither `NewMatcher` (engine/engine.go:36-79) nor the loading of rules rejects it, and
  `scanRequestBody` (gate/gateway.go:235-262) drops a finding whose identifier and raw span have been seen. If the policy
  treats the two rules differently, a block or a mask can be lost (`RequestExactly.BlockLost`, `RequestExactly.MaskLost`);
  `RequestExactly.AlikeExactly` says that this is the only way. With distinct identifiers it cannot happen
  (`RequestBody.DistinctIsAlike`).
- Numbers are extracted and masked like strings (adapter/adapter.go:152-209, 223-239), and the body is sent on without another
  look. With a number starred out it is no longer valid JSON (`JsonExample.NumberBreaks`); `DocumentMask.MaskedValid` says
  that this is the only way masking makes it invalid.
- engine/engine.go:138-139 describes the second result of `Feed` as the longest live partial match; it is the largest of
  that and the distances to all waiting candidates, which is what is modelled.
- gate/stream.go:346-350 says that events with several choices are returned raw. `maskOpenAIChat` masks them, spans that
  straddle choices included (`SpanMask.MaskingCommutesWithJoining`).
- `parseString` (adapter/adapter.go:1039-1080) reads strings by the rules of Go. It takes escapes JSON does not have, which the
  preceding `json.Valid` refuses, and it refuses the escape `\/`, which JSON has (`JsonQuote.OtherEscapes`).
- `parseString` does not look at the byte before the content of a key; that it is a quote is guaranteed by the preceding
  `json.Valid`. `JsonGrammar.KeyAt` leaves it open in the same way.

## Model

| member | source | states |
|---|---|---|
| AhoCorasick.Automaton.Add | engine/automaton.go:23-41 | Adding a keyword keeps the nodes exactly the prefixes of the keywords, one each, and appends it to the keywords unless it is empty. |
| AhoCorasick.Automaton.Build | engine/automaton.go:43-70 | Every node gets the failure link and the output list of its longest live proper suffix; nodes are taken in any order of the edge maps, so the result does not depend on it. |
| AhoCorasick.FailLink | engine/automaton.go:52-64 | The search along failure links ends, because depth decreases, at the node of the longest proper suffix of the child that is a prefix of a keyword. |
| AhoCorasick.Automaton.QueueRootChildren | engine/automaton.go:44-47 | The children of the root are queued once each, in whatever order the map gives them. |
| AhoCorasick.Automaton.LinkChildren | engine/automaton.go:50-68 | Expanding a node links and queues all of its children and keeps every finished node finished. |
| AhoCorasick.FailOfChild | engine/automaton.go:52-66 | The failure path of a child is the longest live suffix of its parent's failure path extended by the edge byte. |
| AhoCorasick.LongestLiveIsLongest | engine/automaton.go:72-83 | The state's path is the longest suffix of the input that is a prefix of a keyword. |
| AhoCorasick.LongestLiveStep | engine/automaton.go:72-83 | The longest live suffix after one more byte depends only on the one before it. |
| AhoCorasick.Automaton.Step | engine/automaton.go:72-83 | From the node of the longest live suffix of the input, one byte leads to the node of the longest live suffix of the extended input. |
| AhoCorasick.OutExact | engine/automaton.go:60-66 | A built state lists exactly the (rule, length) pairs of the keywords that end the input, directly or by failure links. |
| AhoCorasick.Automaton.PartialMatchLen | engine/automaton.go:99-104 | The partial-match length of a state is the length of the longest suffix that may still grow into a keyword. |
| AhoCorasick.ShallowQueued | engine/automaton.go:49-69 | Breadth-first order: when a node is taken from the queue, every node no deeper has been queued. |
| Bytes.FoldASCII | engine/engine.go:652-665 | The folded text has the same length and the same letters, in whatever case, with no capital among them, and is what keywords are compared in. |
| Bytes.FoldMeans | engine/engine.go:652-665 | Two texts fold to the same if and only if they differ at most in the case of ASCII letters; no capital is left, and whatever is no capital stays. |
| Bytes.Classes | engine/engine.go:640-650 | Exactly the characters of the three written-out alphabets are digits, capitals and word characters. |
| Noticing.OccursExactly | engine/engine.go:95-99 | A keyword occurs where its letters stand in the text, in whatever case, and nowhere else. |
| Noticing.CaseDecidesNothing | engine/engine.go:67-99 | Changing the case of ASCII letters in the text or in keywords changes no keyword candidate. |
| Noticing.DigitRun | engine/engine.go:619-628 | Every digit belongs to the run of exactly one digit start. |
| Noticing.IBANStartMeans | engine/engine.go:630-638 | An IBAN start is two capitals and two digits, inside the text, that no letter or digit stands before. |
| Rules.MatchSpanLocal | engine/engine.go:527-535 | A candidate whose window lies inside the text finds the same in every longer text. |
| Rules.MatchSpan | engine/engine.go:537-582 | A reported span is non-empty, inside the text, and between the candidate start and the end of its window; exactly which span it is says `Noticing.SpanExactly`. |
| Noticing.SpanExactly | engine/engine.go:527-582 | A candidate yields a span if and only if, in the window from one byte before its start to one byte behind the longest value, the expression matches not before the start, the span is that of the match group (of the whole match if that group does not exist or took no part), it is not empty, and every validator accepts its bytes. |
| Noticing.ReportedExactly | engine/engine.go:89-115 | A rule and span are reported if and only if some noticed candidate of the rule yields the span in this sense. |
| Matching.ScanRule | engine/engine.go:537-591 | Trying a candidate adds its key and its finding exactly when the key is new: findings and seen keys stay in step. |
| Matching.HitsAreCandidates | engine/engine.go:95-99 | Every hit of the automaton is a position where a case-folded keyword of the rule occurs. |
| Matching.CandidatesAreHits | engine/engine.go:95-99 | Every position where a case-folded keyword of a rule occurs is a hit of the automaton at the byte that completes it. |
| Matching.CandidatesStep | engine/engine.go:94-111 | The candidates noticed up to one more byte are those before, the hits at that byte, and the digit and IBAN starts there. |
| Matching.Matcher.Find | engine/engine.go:89-115 | The result is exactly one finding for each span that some noticed candidate of the text yields, ascending by start, end and identifier; the value of every finding is one that the validators of its rule accept. |
| Matching.SortFindings | engine/engine.go:120-130 | Sorting keeps the findings and puts them in ascending order of start, then end, then identifier. |
| Rules.BeforeIsComparison | engine/engine.go:120-130 | The comparison used for sorting is a strict weak order. |
| Noticing.StringLessMeans | engine/engine.go:128 | An identifier comes first if it is a proper beginning of the other or smaller where they first differ. |
| Noticing.SortedAscends | engine/engine.go:120-130 | Sorted by the comparison means ascending by start, among equal starts by end, among equal ends by identifier. |
| Sorting.SortedUnique | engine/engine.go:117-130 | Two sorted sequences with the same elements are equal when ties are equal. |
| Matching.NewMatcher | engine/engine.go:36-79 | Either a matcher whose automaton and rule lists hold exactly the compiled rules, or the first failing check of the first rule that fails one. |
| Matching.CheckedInOrder | engine/engine.go:602-617 | A rule is refused if and only if some check objects to it, and then with the complaint of the first check that does. |
| Matching.CompiledConfidence | engine/engine.go:48-56 | A missing confidence becomes 1; any other is kept; every compiled rule has one above 0 and up to 1. |
| Holding.DecisionSettles | engine/engine.go:403-434 | An IBAN decision is yes exactly at IBAN starts, is put off only in the last three bytes, and once made never changes. |
| Holding.ReadyKeys | engine/engine.go:382-388 | A candidate that may be tried yields the same keys now as in every longer text. |
| Holding.LaterFindingsStartLate | engine/engine.go:436-461 | Hold-back safety: a finding reported later starts in the held-back part if every put-off start of this very text that becomes an IBAN start is held (always without IBAN rules); in any case it starts there or in the last three bytes. |
| Holding.EarlyRelease | engine/engine.go:436-461 | A concrete failure: one IBAN rule and the text "G" hold nothing back, yet "GA00" reports a finding at 0. |
| Holding.UnsafePatterns | engine/engine.go:448-461 | Whenever a promising IBAN start lies in the released part there are expressions of the same shape that later report a finding there. |
| Holding.HoldSafeExactly | engine/engine.go:448-461 | The hold-back is safe for all expressions and validators if and only if every promising put-off IBAN start lies in the held part. |
| Holding.SafeEndMonotone | engine/engine.go:448-461 | Steady progress: the settled part of the text does not shrink if the put-off starts that become IBAN starts are held, or no IBAN rule is longer than three bytes. |
| Holding.SteadyExactly | engine/engine.go:448-461 | The settled part shrinks for no continuation if and only if every promising put-off start is held or no IBAN rule is longer than three bytes. |
| Holding.ProgressLost | engine/engine.go:448-461 | A concrete failure: with one IBAN rule of more than three bytes the settled part is 1 byte long after "G" and empty after "GA00". |
| Holding.HoldBounded | engine/engine.go:139-146 | Bounded hold: no more is held back than the longest keyword or the largest max_match_len, however long the stream. |
| WaitLists.MaxMatchLenFor | engine/engine.go:485-495 | The loop computes the largest max_match_len over the rules of a kind, 0 if there are none. |
| WaitLists.DrainCandidates | engine/engine.go:240-253 | Exactly the waiting starts whose window now fits are tried, with every rule of their kind; the others stay. |
| WaitLists.DrainDeferred | engine/engine.go:258-269 | Each put-off IBAN start is tried, moved to the waiting starts, kept or dropped, as its decision says. |
| WaitLists.DrainLiterals | engine/engine.go:273-284 | Exactly the waiting literal candidates whose window now fits are tried; the others stay. |
| WaitLists.ProcessIBAN | engine/engine.go:393-401 | An IBAN start is tried at once if its window fits, and waits otherwise. |
| WaitLists.FeedHits | engine/engine.go:290-311 | Each automaton hit is tried if its window fits, and waits otherwise. |
| Streaming.FeedStarts | engine/engine.go:317-331 | Digit and IBAN starts at the current byte are tried, queued or put off. |
| Streaming.ResumeTried | engine/engine.go:238-284 | Draining the three queues leaves tried exactly what a scan that had all bytes from the beginning would have tried. |
| Streaming.ByteDone | engine/engine.go:286-332 | One byte later the queues again hold exactly the noticed candidates that cannot be tried, and nothing else. |
| Streaming.StreamScan.constructor | engine/engine.go:195-197 | A fresh scan has read nothing and reported nothing. |
| Streaming.StreamScan.HoldLen | engine/engine.go:448-461 | The hold-back length is the distance to the first position that could begin a keyword or holds a waiting candidate. |
| Streaming.StreamScan.Feed | engine/engine.go:211-340 | Feeding any chunk, the empty one included, reports sorted exactly the findings that have become decidable and not been reported, and returns the hold-back length of the text so far; a chunk missing from the reassembled text changes nothing and reports nothing. |
| Streaming.StreamScan.Finalize | engine/engine.go:350-380 | Finalizing reports sorted all findings of the text not reported before. |
| Equivalence.ScanChunks | engine/engine.go:211-380 | Over every way of cutting a text into chunks, all results together are the findings of the whole text, once each, every result is sorted, and every hold-back length depends on the text alone. |
| Equivalence.SortedResultsAgree | engine/engine.go:117-130 | With distinct rule identifiers there is only one sorted result. |
| Equivalence.StreamThenSort | engine/engine.go:132-142 | The streamed findings, sorted, equal the result of Find on the reassembled text when rule identifiers are distinct. |
| SpanMask.MaskBody | gate/gateway.go:265-297 | Sort, merge and rewrite keep the length and put a star exactly at the bytes in the span of some finding, for spans in any order, overlapping or touching. |
| SpanMask.Merge | gate/gateway.go:272-286 | The merged spans are separate and cover the same bytes. |
| SpanMask.MaskStringOffsets | gate/stream.go:559-597 | The in-place version puts a star exactly at the covered bytes of its piece, and reports whether there is one. |
| SpanMask.MaskOpenAIChat | gate/stream.go:455-499 | Each choice with content is masked where it lies in the concatenated text; the flag says whether any byte was covered. |
| SpanMask.MaskingCommutesWithJoining | gate/stream.go:450-499 | Concatenating the masked choices is masking the concatenation, also for spans that straddle choices. |
| GateSpec.MaskedEventLocal | gate/stream.go:357-371 | Masking an event depends only on the spans that reach into it. |
| GateSpec.OutputLocal | gate/stream.go:305-334 | Events that end before a position are written the same whatever is found from there on. |
| Gate.FindBlock | gate/stream.go:280-292 | The detail is that of the first finding that blocks, and there is none exactly if no finding blocks. |
| Gate.CollectMaskSpans | gate/stream.go:294-303 | The collected spans cover exactly what the findings to be masked cover. |
| Gate.AppendMaskSpans | gate/stream.go:265-278 | Appending with duplicates dropped covers exactly what both lists cover. |
| Gate.ApplyMaskToEvent | gate/stream.go:357-412 | An event is written raw if no span reaches into its choices, if it has no readable choices, or if it cannot be written again; otherwise with exactly the covered bytes of its choices masked. |
| Gate.FlushMasked | gate/stream.go:329-334 | Events are written in order, each masked with all spans known. |
| Gate.SafeCount | gate/stream.go:305-320 | The released events are the longest prefix of the queue that ends in the settled part. |
| Gate.StreamScanner.AddEvent | gate/stream.go:190-204 | An event is queued with the range of its text in the decoded text. |
| Gate.StreamScanner.Ingest | gate/stream.go:212-223 | Findings are recorded; the first blocking one is latched and stays, otherwise the spans to mask grow by those of the findings. |
| Gate.ScanKeeps | gate/stream.go:234-247 | Scanning new text keeps the invariant: written and queued events are those added, in order and inside the text; the block flag says whether a finding reported so far blocks; and until then the mask spans cover exactly what the reported findings mask. |
| Gate.FlushKeeps | gate/stream.go:305-334 | Releasing events keeps the invariant: written events followed by queued events are the events added, in order. |
| Gate.StreamScanner.ScanAndFlush | gate/stream.go:225-260 | A call blocks exactly if a finding reported so far blocks, and then writes nothing; otherwise it writes exactly the longest part of the queue that ends in the settled text, each event masked with all findings reported so far. |
| Gate.StreamScanner.FlushAllPending | gate/stream.go:322-327 | While nothing is decoded the queue is written as it came, which is what masking it would give. |
| Gate.StreamScanner.Finalize | gate/stream.go:599-638 | The stream ends blocked exactly if the whole text has a blocking finding, and then writes nothing more; otherwise everything queued is written, masked with all findings of the whole text, and the verdict tells whether there were any to mask. |
| Gate.BlamedByScan | gate/stream.go:280-292 | The detail of a block names a finding of the scan that blocks. |
| Release.SentStep | gate/stream.go:225-260 | One more frame adds to what was sent exactly the events released by it, masked with what is known then; nothing sent before changes. |
| Release.SentAtEnd | gate/stream.go:599-638 | At the end the events still waiting are sent masked with the findings of the complete text. |
| Release.SentCountStays | gate/stream.go:225-240 | Once a reported finding blocks, no later frame sends anything, and the complete text has a block. |
| Release.PassedThrough | gate/stream.go:305-334 | Conservation: with any rules, a stream in which nothing is to be blocked or masked is sent as the concatenation of its raw events. |
| Release.UntouchedEvent | gate/stream.go:357-371 | An event that no finding of the complete text masks is sent as it came, even when others are masked. |
| Release.ReleasedInTime | gate/stream.go:305-320 | Bounded delay: with n a bound on all keywords and value lengths, every event that ends at least n bytes before the end of the text read has been released. |
| Response.HandleStream | gate/stream.go:742-819 | What is sent, in every case, is each released event masked with the findings known when it was released, up to the call that found a block; the verdict is the one the complete text deserves (block before mask before nothing), the detail names a blocking finding of it, and with nothing to block or mask the output is the raw events byte for byte. |
| Online.LateForEvent | engine/engine.go:436-461 | A finding unknown when an event was written starts behind the event unless a start was overtaken, and in any case no more than three bytes before its end. |
| Online.OnlineIsOffline | gate/stream.go:225-260 | If no event was written past the start of an IBAN still undecided then, what the stream sends is every event masked with all findings of the complete text, and a withheld stream stops before every blocking finding. |
| Online.HeldNoneOvertaken | engine/engine.go:436-461 | No event is overtaken if at the end of every frame the hold-back covers the put-off starts of the text. |
| Online.StopsWithinThree | gate/stream.go:234-259 | With any rules, a withheld stream stops no later than three bytes into any finding that blocks. |
| Online.WrittenWithinThree | gate/stream.go:234-259 | With any rules, no event already written ends later than three bytes behind the start of a finding reported afterwards. |
| Online.OnlyLastThree | gate/stream.go:305-334 | With any rules, an event is written masked as the complete text asks for, except perhaps in its last three bytes. |
| OnlineExactly.RightExactly | engine/engine.go:436-461 | For given frames and shapes of rules, what is sent is right for all expressions, validators, policies and event formats if and only if no written event was overtaken. |
| OnlineExactly.CoversExactly | engine/engine.go:436-461 | For every event format: the positions masked are right for all expressions, validators and policies if and only if no written event was overtaken. |
| OnlineExactly.FailingRun | engine/engine.go:436-461 | A concrete failure: with one IBAN rule the frames "G" and "A00" are sent as "GA00", although masking the complete text gives "*A00". |
| ClientView.EventText | gate/stream.go:415-499 | The text read from an event that was to be masked is its masked text, or its text if it cannot be written again. |
| ClientView.ReceivedIsMasked | gate/stream.go:329-334 | The text read from all events is the masked text of the stream, wherever findings cross events, but for events that cannot be written again. |
| ClientView.ClientReadsMaskedText | gate/stream.go:742-819 | If no event was overtaken, the client of an unblocked stream reads the complete text with exactly the findings to be masked starred out, but for events that cannot be written again, which the code sends raw. |
| ClientView.MaskedFramesStay | gate/stream.go:666-689 | Masked frames written one after the other, some of them raw, are cut into the same frames again. |
| ClientView.ClientReadsBytes | gate/stream.go:742-819 | The bytes sent, cut into frames as the gateway cuts its input, are the masked frames, and the text read from them is the complete text with the findings to be masked starred out, but for events that cannot be written again. |
| Relay.RelayBody | gate/stream.go:742-819 | From upstream chunks to client bytes, for bodies that end well or with an error: what is sent does not depend on how the body is cut into chunks, equals what was read if nothing is to be blocked or masked, and is read as the masked text. |
| Sse.FramesCover | gate/stream.go:666-689 | The frames together are the stream, none is empty, and every frame but the last ends at its first blank line. |
| Sse.FrameReader.Next | gate/stream.go:666-689 | The next frame depends on the unread bytes only, not on how reads divide them. |
| Sse.ReadAll | gate/stream.go:752-763 | However the body is cut into reads, the tokens are the frames of what is delivered: of the whole body, or, if it ends with an error, of its part up to the last blank line. |
| Sse.CompletePartEnds | gate/stream.go:666-689 | When a body ends with an error, exactly what is behind its last blank line is lost. |
| FrameShape.FramesOfFlat | gate/stream.go:666-689 | Frames that end at their first blank line are recovered from their concatenation. |
| FrameShape.RewrittenComplete | gate/stream.go:404-412 | A rewritten frame still ends at its first blank line and has no other. |
| FrameShape.RewrittenLast | gate/stream.go:404-412 | The last frame, with or without a blank line, is rewritten to a last frame. |
| SseFrame.LinesOfJoined | gate/stream.go:373-412 | Splitting at newlines undoes joining lines that contain none. |
| SseFrame.JoinOfLines | gate/stream.go:373-412 | Joining undoes splitting. |
| SseFrame.ParseSSEToken | gate/stream.go:699-727 | One pass over the lines finds the last event name, the data lines joined by newlines, and whether a comment says something; in bytes, `SseWritten.FrameSays` says so. |
| SseWritten.FieldMeans | gate/stream.go:708-719 | What a line says is decided by whether it begins, white space aside, with the letters event: and a space, data: with or without a space, or a colon, in this order. |
| SseWritten.DataLineSays | gate/stream.go:711-720 | The letters data: followed by any plain payload, with a space between or without, say this payload. |
| SseWritten.EventLineSays | gate/stream.go:709-710 | The letters event: and a space followed by any plain name say this name. |
| SseWritten.CommentLineSays | gate/stream.go:721-724 | A colon followed by any plain text is a comment that says this text. |
| SseWritten.Trimmed | gate/stream.go:707-724 | Trimming takes nothing but white space from the ends of a line, and leaves none there. |
| SseWritten.FrameSays | gate/stream.go:699-727 | Any frame of event, data and comment lines, written in bytes, is read as the last name it has, its payloads with newlines between them, and whether it has a comment. |
| SseWritten.StreamIsCut | gate/stream.go:666-689 | A stream of such frames is cut into exactly these frames. |
| SseFrame.ReassemblePayload | gate/stream.go:374-397 | The payload put together for masking is the data that reading the frame gives. |
| SseFrame.RewritePayload | gate/stream.go:404-412 | The masked payload takes the place of the first data line and the other data lines go. |
| SseWritten.RewrittenFrame | gate/stream.go:373-412 | In the rewritten frame a line of the letters data: and a space and the masked payload takes the place of the first data line, the other data lines are dropped, and every other line stays as and where it was. |
| SseFrame.RewriteReadsBack | gate/stream.go:346-412 | Reading a rewritten frame gives the same event name and comment flag, and exactly the masked payload as its data. |
| ClientView.FrameRewrites | gate/stream.go:373-412 | If a payload can be rewritten and read back, so can its frame. |
| Utf8.DecodeEncoded | adapter/adapter.go:1048-1053 | Decoding the encoding of a rune gives the rune and its length, whatever follows. |
| Utf8.EncodeDecoded | adapter/adapter.go:1048-1054 | A well-formed multi-byte sequence is the encoding of the rune it decodes to. |
| Utf8.EncodedLength | adapter/adapter.go:1054 | A rune is encoded in one to four bytes by the table of section 3 of RFC 3629. |
| Utf8.EncodedBits | adapter/adapter.go:1054 | The bits of the encoding behind the marks of its bytes are the number of the rune. |
| Utf8.DecodeExactly | adapter/adapter.go:1048 | What is decoded is the rune whose encoding comes first, or a replacement character for one byte if and only if there is none. |
| Utf8.SpacesAre | gate/stream.go:707 | White space is the 25 characters of the Unicode standard. |
| JsonQuote.UnicodeEscape | adapter/adapter.go:1048 | The escape \u and the four hexadecimal digits of a rune, in either case, are read as this rune. |
| JsonQuote.HexEscapeReads | adapter/adapter.go:1048 | Every escape with hexadecimal digits is read as the number that its digits spell if this is a rune, and refused if not. |
| JsonQuote.ShortEscapes | adapter/adapter.go:1048 | The escapes of two characters that section 7 of RFC 8259 lists, the solidus aside, stand for the characters it names. |
| JsonQuote.OctalEscape | adapter/adapter.go:1048 | Three octal digits behind a backslash are read as the number they spell, up to 255. |
| JsonQuote.EscapesAre | adapter/adapter.go:1048 | The parser reads no other escapes than these, and each exactly as said; in particular it refuses the solidus behind a backslash. |
| JsonQuote.QuoteRoundTrip | adapter/adapter.go:1045-1065 | Round trip: every UTF-8 text, quoted as section 7 of RFC 8259 asks, is read back as it was and closes at its own quote. |
| JsonQuote.QuoteConforms | adapter/adapter.go:938-941 | Every text quoted in this way passes the syntax check. |
| JsonString.UnquoteLocal | adapter/adapter.go:1045-1052 | One character of a literal is read from its own bytes; what follows may change if it begins with ASCII. |
| JsonString.DecodeWellRanged | adapter/adapter.go:1042-1065 | Decoding gives one non-empty source range per decoded byte, inside the literal, with starts and ends in order. |
| JsonString.BoundariesAre | adapter/adapter.go:1045-1065 | The places of a decoded text that whole characters of its source lead to are exactly those where a rune of the text begins, and its end. |
| JsonString.DecodeFrom | adapter/adapter.go:1045-1065 | From a character boundary on, a literal decodes to the rest of its text. |
| JsonString.OwnByte | adapter/adapter.go:1045-1065 | A decoded byte whose source range is one byte is that byte, unless the byte is invalid UTF-8. |
| JsonString.MaskLiteral | gate/gateway.go:288-295 | Overwriting the source between two character boundaries leaves a literal with the same closing quote that decodes to the text before, the stars, and the text after; no escape is split. |
| JsonGrammar.Unambiguous | adapter/adapter.go:954-1112 | Two trees that spell the same data from the same byte on are the same tree. |
| JsonSyntax.NumberIsBytes | adapter/adapter.go:938-941 | A number that passes the syntax check is not empty and consists of digits, signs, dots and exponent letters. |
| JsonSyntax.ValidByTree | adapter/adapter.go:938-941 | Whether a document passes the syntax check can be read off the one tree that spells it. |
| JsonSyntax.TextSpliced | adapter/adapter.go:938-941 | Replacing bytes of a string that passes the check by printable ones, escapes as a whole, leaves one that passes. |
| JsonNumber.NumbersAre | adapter/adapter.go:938-941 | The numbers that pass the syntax check are exactly those of the grammar in section 6 of RFC 8259. |
| JsonNumber.TextsAre | adapter/adapter.go:938-941 | The texts that pass are exactly those made of unescaped characters and escapes of the grammar that the parser reads, up to a quotation mark. |
| JsonNumber.Separators | adapter/adapter.go:1091-1112 | White space is space, tab, line feed and carriage return; these, commas and closing brackets end a number. |
| JsonTree.JsonParser.ParseString | adapter/adapter.go:1038-1080 | A literal is read exactly if its characters can all be decoded up to a closing quote, with its text and source ranges. |
| JsonTree.JsonParser.ParseNumber | adapter/adapter.go:1091-1112 | A number is the run of bytes up to the next delimiter, and is its own source. |
| JsonTree.JsonParser.ParseLiteral | adapter/adapter.go:1082-1089 | A literal word is read exactly if it is there. |
| JsonTree.JsonParser.ParseArray | adapter/adapter.go:1012-1036 | An array is read as the tree that spells it; nothing is returned only if no array spells the data there. |
| JsonTree.JsonParser.ParseObject | adapter/adapter.go:977-1010 | An object is read as the tree that spells it; nothing is returned only if no object spells the data there. |
| JsonTree.JsonParser.ParseValue | adapter/adapter.go:954-975 | A value is read as the tree that spells it; nothing is returned only if no tree spells the data there. |
| JsonTree.ParseJSON | adapter/adapter.go:938-952 | A document is parsed if and only if the library finds it valid and some tree spells it, and the result is that one tree. |
| JsonPrint.PrintRoundTrip | adapter/adapter.go:938-1112 | Round trip: every JSON value, written with any white space between its parts, is valid JSON, and the one tree that spells the bytes has exactly this value. |
| RawMapping.RawSpanIsHull | adapter/adapter.go:48-56 | For an extracted text the raw span of a range is the exact hull of its source ranges; the fallback is never taken. |
| RawMapping.LeavesReadFrom | adapter/adapter.go:191-209 | Every extracted string and number spells its part of the body. |
| RawMapping.LeafSound | adapter/adapter.go:1038-1112 | Every extracted text has one source range per byte, in order, inside its own content. |
| RawMapping.ComposeByteRanges | adapter/adapter.go:674-689 | The loop composes every range, or gives none if one is not a range of the outer text. |
| RawMapping.ComposeWellRanged | adapter/adapter.go:674-689 | Composing keeps one non-empty range per byte, in order, inside the outer ranges. |
| RawMapping.ComposedSound | adapter/adapter.go:241-274 | A text from nested JSON has one source range per byte, in order, inside the string of the body that holds it. |
| NestedMask.MaskString | gate/gateway.go:288-295 | Masking the raw span of any decoded range of a string leaves a literal with the same closing quote; between character boundaries it reads as the old text, stars, the old text. |
| NestedMask.NestedBounds | adapter/adapter.go:241-274 | In the body, a nested unit and its content extend from where the source of their first byte begins to where that of their last byte ends. |
| NestedMask.InnerBoundary | adapter/adapter.go:674-699 | A character boundary of a literal inside a decoded text is a character boundary of the string that holds the text. |
| NestedMask.MaskNested | adapter/adapter.go:241-274 | Masking any decoded range through one level of nested JSON leaves the outer string a literal; between character boundaries the inner string is still one in its text, with the stars where the range was. |
| LiteralSplice.DecodeCloses | adapter/adapter.go:1038-1080 | A literal can be decoded exactly if it closes when only escapes are read as a whole, and at the same quote. |
| LiteralSplice.ClosesSpliced | gate/gateway.go:288-295 | Replacing any bytes of a literal by bytes that are no quote or backslash, escapes as a whole, moves its closing quote to where it ends up and nowhere else. |
| LiteralSplice.HullWhole | adapter/adapter.go:48-56 | The raw span of a decoded range never covers a part of an escape, wherever the range begins and ends. |
| LiteralMask.MaskedCloses | gate/gateway.go:265-297 | Masking any bytes of a literal, escapes as a whole, leaves its closing quote where it was, split characters included. |
| DocumentSplice.SplicedDocument | adapter/adapter.go:954-1112 | Replacing parts of strings by harmless bytes of any length, escapes as a whole, and bytes of numbers by bytes that run on, leaves a document with the same tree, moved, and its strings and numbers read again. |
| SyntaxSplice.SplicedValid | adapter/adapter.go:938-941 | Such a document, with pieces no number holds, passes the syntax check if and only if no byte of a number was replaced. |
| DocumentMask.MaskedStringNode | gate/gateway.go:265-297 | Every string of a masked document stays where it was; one covered by whole characters reads as its text with stars. |
| DocumentMask.MaskedNumberNode | adapter/adapter.go:1091-1112 | A masked number stays where it was and reads as its digits with the covered ones starred out. |
| LiteralMask.MaskWholeChars | gate/gateway.go:265-297 | Masking any set of whole characters leaves a literal with the same closing quote in which each masked character is stars. |
| DocumentMask.MaskedDocument | gate/gateway.go:265-297 | Masking any findings in strings and numbers, overlapping or not, on character boundaries or not, leaves a document that is taken apart into the same tree with its strings and numbers read again. |
| DocumentMask.MaskedValid | gate/gateway.go:265-297 | If the body passed the syntax check, the masked body passes it if and only if no masked finding touches a number. |
| JsonExample.NumberBreaks | adapter/adapter.go:596-605 | A concrete failure: in {"input":{"output":7}} the number is extracted; masked it is sent on as {"input":{"output":*}}, which no longer passes the syntax check. |
| NestedDocument.MaskedReads | adapter/adapter.go:1045-1065 | A masked literal reads as its text with each touched character replaced, by stars or, where a rune was split, by stars and replacement characters. |
| NestedDocument.ChangedText | adapter/adapter.go:674-699 | Masking sources of ranges changes at ASCII bytes of the text exactly those ranges, and elsewhere only within the strings the ranges lie in. |
| NestedDocument.MaskedInside | adapter/adapter.go:211-274 | A string that holds JSON still holds the same document with masked strings and numbers after findings in the strings and numbers of that JSON are masked, whatever else of the body is; it passes the syntax check if and only if none of its numbers is touched. |
| Request.MappedInBody | gate/gateway.go:240-247 | The mapped span of a finding is a non-empty range of the body; neither the fallback nor the skip applies. |
| Request.MapUnit | gate/gateway.go:239-260 | The findings of one text are added once per identifier and raw span, and none is lost; the one kept is that of the first text that has it. |
| Request.ScanUnits | gate/gateway.go:235-262 | The collected findings lie in the body, come from findings of the texts, are distinct, are those of the first text with their identifier and raw span, and none is lost. |
| Request.ApplyActions | gate/gateway.go:158-224 | The verdict says which actions apply, block before mask; the detail is that of the first block; the body sent on is masked exactly where findings ask for it. |
| RequestBody.ActionDecides | gate/gateway.go:170-195 | What the policy says decides: a finding blocks if and only if its action is to block, and masks if and only if it is to mask; an exemption asks for neither. |
| RequestBody.ExtractedInBody | adapter/adapter.go:191-274 | Every text extracted directly or from nested JSON is mapped inside the body. |
| RequestBody.BlockedAlike | gate/gateway.go:235-262 | Removing duplicates never hides a block from a policy that treats rules with the same identifier alike. |
| RequestBody.MaskedAlike | gate/gateway.go:235-262 | Nor does it change what is masked. |
| RequestBody.NothingAdded | gate/gateway.go:235-262 | With any identifiers, what is collected blocks or masks only what a finding of a text asks for. |
| RequestExactly.BlockLost | gate/gateway.go:235-262 | A concrete failure: two rules with one identifier, the second blocking, on {"input":{"arguments":"\"1\""}}, whose arguments and the JSON they hold are both extracted (adapter/adapter.go:211-221): a finding blocks, yet nothing collected does. |
| RequestExactly.MaskLost | gate/gateway.go:235-262 | Likewise, on the same request, a byte that a finding asks to mask is sent on in the clear. |
| RequestExactly.AlikeExactly | gate/gateway.go:235-262 | Verdict and mask are those of all findings, for all expressions, bodies that pass the syntax check, and texts, if and only if the policy treats rules with the same identifier alike. |
| RequestBody.ForwardedReads | gate/gateway.go:265-297 | Wherever the findings are, the body sent on is taken apart into the same tree with masked strings and numbers, and it passes the syntax check, if it did, if and only if no masked finding touches a number. |
| RequestBody.NestedReads | adapter/adapter.go:211-274 | A string of the body that holds JSON still holds it if its findings lie in strings and numbers of that JSON, and it passes the syntax check if and only if none of these numbers is touched. |
| RequestBody.GuardBody | gate/gateway.go:158-263 | A request is withheld only if a finding of an extracted text blocks, and otherwise sent on with only source bytes of findings starred out, taken apart as before, and valid JSON exactly if no number is masked; if the policy treats equal identifiers alike, it is withheld whenever one blocks and all their source bytes are starred out. |
| Checksums.DigitsOnly | engine/validators.go:32-40 | Exactly the ASCII digits are kept, in order. |
| ChecksumLaws.DigitsKept | engine/validators.go:32-40 | Of any byte between two texts exactly an ASCII digit is kept, between what is kept of the two. |
| Checksums.ValidLuhn | engine/validators.go:62-80 | The right-to-left loop accepts exactly the non-empty strings whose Luhn sum is divisible by ten. |
| ChecksumLaws.LuhnByHand | engine/validators.go:62-80 | The sum adds, counted from the right, every first digit and the digits of the double of every second one. |
| Checksums.LuhnCatchesSubstitution | engine/validators.go:62-80 | Every substitution of one digit in a valid number is rejected. |
| Checksums.LuhnCatchesSwap | engine/validators.go:62-80 | Every swap of adjacent different digits is rejected except that of 0 and 9. |
| Checksums.LuhnCheckDigit | engine/validators.go:62-80 | Every prefix has exactly one check digit that makes it valid. |
| Checksums.ValidIBANMod97 | engine/validators.go:142-161 | For any bytes, the loop accepts exactly those whose normalized text, with its first four characters moved to the end, spells a number that leaves 1 modulo 97; in digits, `ChecksumLaws.AcceptedText` says so. |
| ChecksumLaws.CheckedNumber | engine/validators.go:142-161 | A country code, two check digits and a national part are valid if and only if the number spelled by the national part, the code and the check digits, letters counting from 10, leaves 1 modulo 97. |
| ChecksumLaws.CheckDigitsAre | engine/validators.go:142-161 | For every code and national part, of the pairs from 02 to 98 exactly one is accepted: 98 less what the number leaves with 00 in their place. |
| ChecksumLaws.AcceptedText | engine/validators.go:142-161 | A text is accepted by what is left of it without white space and in capitals, in the same way. |
| ChecksumLaws.RejectedText | engine/validators.go:142-161 | Fewer than four characters, or any that is neither digit nor capital, are rejected. |
| Checksums.NormalizedIBAN | engine/validators.go:163-172 | Rune by rune, white space is dropped and the rest mapped to upper case. |
| ChecksumLaws.NormalizedRune | engine/validators.go:163-172 | Character by character: white space goes, any other character is mapped to upper case. |
| Checksums.Mod97CatchesSubstitution | engine/validators.go:142-161 | Every change of one digit or letter into another of its kind is rejected. |
| Checksums.Mod97CatchesSwap | engine/validators.go:142-161 | Swapping adjacent different characters is rejected except exactly for the pairs 1-B, 2-M and 3-X. |
| Checksums.IBANCatchesSubstitution | engine/validators.go:142-161 | The same holds for a change in the IBAN before it is rearranged. |
| Checksums.TextCatchesSubstitution | engine/validators.go:142-172 | However a valid IBAN is spaced, and whatever else is in the text, every change of one digit or capital into another of its kind is rejected. |

## Left out

- Go's regular expressions: a function of the window bytes, with the properties named above.
- `json.Valid`, `json.Unmarshal` and `json.Marshal`: how a payload is read and written is a parameter (`GateSpec.Codec`, `ClientView.FrameCodec`).
- strconv.UnquoteChar and the UTF-8 routines are not part of the repository; `JsonString.UnquoteChar` and `Utf8.DecodeRune` follow their documented behaviour.
- Checksums.ValidLuhn: its argument consists of digits, as its only caller passes it.
- Streaming.StreamScan.Feed: buffers that do not begin with what was fed, buffers that run past the chunk, and scans without a matcher.
- Streaming.StreamScan.Finalize: buffers other than what was fed, and scans without a matcher.
- Checksums.NormalizedIBAN: the case mapping of runes is a parameter, because Unicode's tables are not part of the repository.
- JsonTree.ParseJSON: which texts the library finds valid is a parameter; `JsonSyntax.Conforms` says what the check asks of a text that the parser takes apart, except for the limit on nesting depth.
- Gate.ApplyMaskToEvent: how the choices of a payload are read and written is a parameter, so the bytes of a rewritten payload are not determined.
- NestedDocument.MaskedInside: findings in the string that cover quotes, brackets, commas, colons, words or keys of the JSON it holds; what is left may or may not be JSON.
- ClientView.ClientReadsBytes: payloads that are written again but read differently, or not on one line; JSON marshalling gives none.
- Matching.ScanRule: the validators are consulted whether or not the key has been seen, which makes no difference to the result.
- Sse.FrameReader.Next: a read that returns neither bytes nor an error.
- Provider field tables and the walks over provider bodies: any choice of direct and nested strings and numbers is allowed (`RequestBody.Extracted`); removal of repeated paths and the list of unscanned fields are left out.
- Findings in bodies of unsupported paths, which `Find` reports on the raw bytes: `Request.ApplyActions` applies to them as it is.
- Policy rules, glob matching and block bodies: the policy is a fixed function.
- The ledger: counts, verdict texts and summaries, except which of the four verdicts is reached.
- HTTP, headers, flushing, request identifiers, timestamps and hashing.
- Entropy, card and SSN tables and the IBAN length table: lookups read from one body.
- Map iteration order: a loop over a map takes an arbitrary order, and keys are a set.
- In `build`, a node is completed in one step from `next` and `fail`; slices that share memory are sequences.
- Parts of long loops (`AhoCorasick.Automaton.Insert`, `Streaming.FeedStarts`, `Matching.Matcher.ScanByte`, `JsonTree.JsonParser.ParseMember`) are methods of their own.
