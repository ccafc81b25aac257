# Message splitter of astrbot_plugin_outputpro, in Dafny

This project models the message splitter in `core/split.py`, which the plugin
runs before a bot reply goes out. `MessageSplitter.split_chain` cuts a reply
(a chain of message components) into logical segments:

- Plain text is cut after every run of configured delimiter characters.
- Reply and At units wait for what comes next. The next text run takes
  them into the open segment, just before that run. The next other component
  turns them into a segment of their own. Those still waiting at the end of
  the chain are dropped.
- Images and faces join the open segment or, when none is open, the last
  closed one, whatever it holds (an other component's own segment included).
  They start a segment only when no segment has been opened or closed yet;
  waiting Reply/At units and empty texts do not count.
- Every other component stands alone.
- An optional `max_count` caps the number of segments.
- Each segment loses the trailing punctuation of its last text.

`MessageSplitter.split` then acts only when there are two segments or more;
with one or none the caller's chain keeps its original, unsplit and untrimmed
content. Otherwise it sends every segment but the last, in order, skipping
empty segments. After each send that returns without raising it pauses for a
delay that, with ordered bounds, does not shrink as the segment's text grows; a send that raises gets no
pause and the loop goes on. Finally the caller's chain is cleared and refilled
with the last segment's units, or left empty when that segment is empty.

Modules:

- `Components` (`components.dfy`): the message components and the helpers on
  sequences of them. These are the Plain text of a chain, filtering by kind,
  and Python's whitespace set as `str.isspace` and `\s` use it.
- `Segments` (`segment.dfy`): the `Segment` container and its queries `text`,
  `has_media` and `is_empty`. It also holds the tail-punctuation trim, both as
  the source writes it and as it is evidently meant.
- `SplitPattern` (`split_pattern.dfy`): `_build_split_pattern`, as a method
  that builds the delimiter class token by token. It also holds the capturing
  `re.split` of a text into alternating delimiter and non-delimiter runs.
- `Delay` (`delay.dfy`): `_calc_delay`, in exact real arithmetic.
- `Splitter` (`split_chain.dfy`): `split_chain`.
  - It is an imperative method with the source's three locals (closed
    segments, open segment, waiting binding units) and the `buf` of the text
    loop.
  - It is proved equal to a left fold of one-component rules (`Run`,
    `RawSegments`, `SplitChainSpec`).
  - That fold is in turn proved against an independent reference (`Emit`),
    which says which units come out in which order, ignoring segment
    boundaries.
  - From that reference the lemmas show what survives the pass: all the text,
    every attachment, and every Reply/At except the trailing ones.
- `Dispatch` (`dispatch.dfy`): `split`.
  - The transport is an input `delivered: nat -> bool`: whether
    `send_message` returns without raising for each segment index. Its
    return value is not used.
  - The sends and pauses form an event trace.
  - The caller's chain is a class whose field the method clears and refills.
- `Scenarios` (`scenarios.dfy`): concrete runs that pin down the behaviour on
  delimiters, a leading image, a trailing mention, the cap, and the pause
  after the last send.

## Model

| member | source | states |
|---|---|---|
| Segments.ExtendQueries | core/split.py:27-38 | after `extend`, the text is the old text followed by the new units' text, and the segment has media exactly when either part has some |
| Segments.AppendQueries | core/split.py:24-38 | after `append`, the text grows by the unit's text, and the segment has media exactly when it had some or the unit is not Plain |
| Segments.IsEmptyIff | core/split.py:40-43 | `is_empty` holds exactly when every unit is a Plain whose text is only whitespace |
| Segments.TrimTail | core/split.py:53 | the trimmed text is a prefix of the text, does not end in tail punctuation, and only tail punctuation was removed (corrected trim) |
| Segments.TrimTailUnique | core/split.py:53 | those three properties determine the trimmed text: the longest trailing punctuation run is removed, no less and no more (corrected trim) |
| Segments.TrimTailIdempotent | core/split.py:53 | trimming a trimmed text changes nothing (corrected trim) |
| Segments.TrimTailAsWritten | core/split.py:53 | for a text ending in a newline, the result still ends in that newline, and before it is a prefix of the text before the newline that does not end in tail punctuation, with only tail punctuation removed; for any other text the result is a prefix without trailing tail punctuation, with only tail punctuation removed |
| Segments.TrimTailAsWrittenNotIdempotent | core/split.py:53 | as written, "a.\n." trims to "a.\n" and then to "a\n", so a second trim changes the text again |
| Segments.LastPlain | core/split.py:50-51 | the index found is a Plain unit and every unit after it is not Plain; -1 when there is none |
| Segments.StripTailShape | core/split.py:45-54 | the strip keeps the number of units and the last Plain position, and changes no unit other than the last Plain (corrected trim) |
| Segments.StripTailIdempotent | core/split.py:45-54 | stripping a stripped segment changes nothing (corrected trim) |
| Segments.StripTailPunctuation | core/split.py:45-54 | the backward scan trims exactly the last Plain unit's text, and the segment is unchanged when it has no Plain unit |
| SplitPattern.EscapedLiterals | core/split.py:96 | an escaped token inside the class admits exactly the token's own characters |
| SplitPattern.BuildSplitPattern | core/split.py:83-98 | the class admits a character exactly when some token admits it (`\n` a newline, `\s` any whitespace, others their own characters), and it is a valid pattern exactly when some token is non-empty |
| SplitPattern.RunLength | core/split.py:192 | the first run has length at least one, is all delimiters or all non-delimiters, and is maximal |
| SplitPattern.SplitParts | core/split.py:192-197 | the non-empty parts of the capturing split concatenate back to the text, each is all delimiters or has none, and neighbouring parts alternate, so every delimiter run is maximal |
| Delay.CalcDelayZero | core/split.py:106-107 | no text means no pause |
| Delay.CalcDelaySaturates | core/split.py:109-110 | from 150 characters on the pause is `max_delay` |
| Delay.CalcDelayBounds | core/split.py:109-111 | with ordered bounds and some text the pause lies between them, strictly above the minimum when the bounds differ |
| Delay.CalcDelayMonotone | core/split.py:109-111 | with `min_delay <= max_delay` and some text, a longer text never gets a shorter pause |
| Splitter.Push | core/split.py:160-169 | `push` adds exactly the segment's units at the end of the list, and adds a new segment exactly when the segment is non-empty and the cap is not reached |
| Splitter.PushKeeps | core/split.py:160-169 | a push leaves earlier segments alone, adds the segment itself when it adds one, adds no empty segment and never exceeds the cap |
| Splitter.FlushKeeps | core/split.py:171-176 | `flush` keeps the units placed and the waiting units, and leaves the open segment empty |
| Splitter.DrainKeeps | core/split.py:203-205 | moving the waiting Reply/At units onto the open segment places them next and leaves nothing waiting |
| Splitter.PartStepKeeps | core/split.py:195-223 | a non-empty run places the waiting units and then the run as one Plain; nothing waits afterwards |
| Splitter.PartStepCloses | core/split.py:199-223 | without a cap, a delimiter run becomes its own Plain unit after the open segment's units and the waiting units, and that whole segment is closed; any other run is added to the open segment the same way and leaves it open; nothing waits afterwards |
| Splitter.PartsStepGood | core/split.py:195-223 | the loop over the runs of a text keeps the invariants (no empty closed segment, cap held, only Reply/At wait) |
| Splitter.PartsStepPlaces | core/split.py:195-223 | the runs of a text place the waiting units and then one Plain per run, in order |
| Splitter.AttachKeeps | core/split.py:235-242 | an Image or Face is placed next, behind what was placed before, and never disturbs the waiting units |
| Splitter.IsolateKeeps | core/split.py:245-249 | any other component places the waiting units and then itself, and nothing waits afterwards |
| Splitter.StepPlaces | core/split.py:178-249 | one component of the pass extends the placed units exactly as the reference order does |
| Splitter.RunPlaces | core/split.py:178-249 | after the pass, the placed units and the waiting units are exactly the reference's |
| Splitter.RawSegmentsShape | core/split.py:251-252 | before the trim no segment is empty, the cap holds, and the segments read in order are the reference's units |
| Splitter.StripAllShape | core/split.py:254-255 | the trim pass keeps the number of segments and of units in each, so no segment becomes empty of units |
| Splitter.FilterStripAll | core/split.py:254-255 | the trim pass keeps every non-Plain unit of the segments, in order |
| Splitter.SplitText | core/split.py:186-232 | the loop over one text's parts, with `buf`, makes the same state change as the text's rule |
| Splitter.StripEach | core/split.py:254-255 | the loop over the segments trims each one as `strip_tail_punctuation` does |
| Splitter.SplitChain | core/split.py:149-257 | `split_chain` returns the fold of the rules, with no empty segment and no more segments than `max_count` when a cap is set |
| Splitter.EmitKeepsText | core/split.py:186-232 | the reference order keeps the chain's Plain text, character for character |
| Splitter.EmitKeepsBindings | core/split.py:181-183 | every Reply/At is either placed, in order, or still waiting at the end |
| Splitter.EmitKeepsAttachments | core/split.py:235-249 | every Image, Face and other component is placed, in input order |
| Splitter.EmitNothingWaits | core/split.py:203-221 | after a non-empty text or an other component nothing waits |
| Splitter.SplitChainKeepsText | core/split.py:149-252 | before the trim, the segments hold exactly the input's Plain text, in order |
| Splitter.SplitChainKeepsBindings | core/split.py:181-183 | each Reply/At lands in exactly one segment of the returned list (and of the list before the trim), in order, except those still waiting at the end, which are dropped |
| Splitter.SplitChainKeepsAttachments | core/split.py:235-257 | each Image, Face and other component lands in exactly one segment of the returned list (and of the list before the trim), in order |
| Splitter.StripAllIdempotent | core/split.py:254-255 | a second trim pass would change nothing (corrected trim) |
| Splitter.OtherStandsAlone | core/split.py:245-249 | without a cap, an other component closes the open segment, turns the waiting units into a segment of their own, then forms the last segment alone |
| Splitter.MediaNeverCloses | core/split.py:235-242 | an Image or Face never closes a segment: it opens one only when nothing was built yet |
| Dispatch.SendAllButLast | core/split.py:121-141 | the send loop produces the trace of attempts on every segment but the last |
| Dispatch.Split | core/split.py:114-146 | `split` sends as the trace says; the chain is left unchanged for one segment or fewer, and otherwise holds exactly the last segment's units, or nothing when it is empty (corrected trim) |
| Dispatch.HandBackLast | core/split.py:144-146 | the chain is untouched for one segment or fewer; otherwise it holds exactly the last segment's units, or nothing when that segment is empty |
| Dispatch.AttemptShape | core/split.py:128-141 | one iteration sends at most one segment, its own, only if it is not empty, with a pause right after a successful send |
| Dispatch.AttemptsValid | core/split.py:127-141 | every send is of a non-empty segment, with that segment's units and whether its send returned without raising |
| Dispatch.AttemptsInOrder | core/split.py:127 | segments are sent in strictly increasing order |
| Dispatch.AttemptsDeliveredThenPause | core/split.py:138-139 | a successful send is followed at once by a pause of `_calc_delay(len(seg.text))` |
| Dispatch.AttemptsFailedThenNoPause | core/split.py:140-141 | a failed send is followed by the next send or by nothing, never by a pause |
| Dispatch.AttemptsPauseOnlyAfterDelivery | core/split.py:133-141 | every pause comes right after a successful send |
| Dispatch.AttemptsCover | core/split.py:127-131 | every non-empty segment within the loop's range is attempted |
| Dispatch.DispatchTraceShape | core/split.py:119-141 | nothing is sent for one segment or fewer; otherwise every non-empty segment but the last is sent once, in order, paced as above, and the last is never sent |
| Scenarios.DelimiterClosesSegment | core/split.py:192-209 | "a。b" becomes two segments; the stop is its own Plain unit, which the trim empties but does not remove |
| Scenarios.LeadingImageStandsAlone | core/split.py:235-242 | an image at the start of the chain forms a segment of its own, so a text after it starts a second segment |
| Scenarios.TrailingMentionDropped | core/split.py:181-183 | an At at the end of the chain is in no segment |
| Scenarios.CapMergesIntoLast | core/split.py:165-167 | with `max_count` 1 a second segment is merged into the first |
| Scenarios.PauseAfterLastSend | core/split.py:127-139 | the last segment that is sent is still followed by its pause |

## Left out

- Concurrency and cancellation are not modelled: `split` is a coroutine, and a cancellation at one of its `await` points (the send or the sleep) would end it before the caller's chain is handed back; the model runs it to completion.
- `core/state.py` is not part of this model; the splitter does not use it.
- Sending, sleeping and logging (`context.send_message`, `asyncio.sleep`, `logger`) are left out.
  - A send is an event whose success is the input `delivered(i)`: whether the call returns without raising.
  - A pause is an event that carries its length.
  - The `umo` session id is only passed through, so it is not modelled.
- The constructor's parsing of `typing_delay` and its fallback to 1.5 and 3.5 are left out: they need string-to-float conversion. The bounds are plain real parameters.
- Floating point is modelled as exact reals: `_calc_delay` divides and multiplies without rounding.
- Python's regular-expression engine is not modelled.
  - The compiled pattern is a character class (`SplitPattern.Pattern`), and matching is membership in it.
  - `re.split` with a capturing group is modelled by its result once empty parts are dropped: the maximal runs of the text.
- Splitter.SplitChain and Dispatch.Split require a valid pattern whenever a non-empty text reaches `re.split`. The source raises `re.error` on the class `[]+`, which is what an empty or all-empty `char_list` gives. The exception is not modelled.
- Segments.StripTailPunctuation, Splitter.StripEach, Splitter.SplitChain and Dispatch.Split trim only at the true end of the text, and Segments.TrimTail, Segments.TrimTailUnique, Segments.StripTailShape, Segments.StripTailIdempotent and Splitter.StripAllIdempotent are stated for that corrected trim. The source's `$` also matches before a final newline. That behaviour is modelled separately by Segments.TrimTailAsWritten and reported under Findings.
- Dispatch.Split sends and hands back the segments of the corrected trim. Where the source's `$` matches before a final newline, the two can differ. For example, a segment `[Plain(".\n")]` is trimmed to `"\n"` by the source, which then skips it as empty or leaves the chain empty when it is the last segment; the model sends it or hands it back.
- `Segment` and the components are values, not shared objects.
  - `append`, `extend` and the in-place trim return new values.
  - In the source no segment or Plain unit is reachable from two places once it is pushed, so no aliasing is lost.
  - The caller's chain in `split` is a class field updated in place.
- A Plain whose text is `None` is modelled as the empty text, which the source's `comp.text or ""` makes it.
- The component classes of the host framework are reduced to the six kinds the splitter distinguishes, each with an id (`Other` stands for every other class).
- Three behaviours of the code that its comments do not announce are modelled as the code has them.
  - Reply/At units still waiting at the end of the chain are dropped (Splitter.SplitChainKeepsBindings, Scenarios.TrailingMentionDropped).
  - An Image or Face forms its own segment when no segment has been opened or closed yet, so one at the start of the chain is split from the text after it (Scenarios.LeadingImageStandsAlone). Waiting Reply/At units and empty texts do not count.
  - A successful send is followed by its pause even when it is the last segment sent (Scenarios.PauseAfterLastSend).
- In the source `buf` is always empty when a non-delimiter part arrives and at the end of the parts loop. Splitter.SplitText keeps those branches and proves them unreachable.

## Findings

| source | as written | input that shows it | evidently intended | confidence | as-written member | corrected member |
|---|---|---|---|---|---|---|
| core/split.py:53 | the pattern `[,，。.、；;：:]+$` ends in `$`, which also matches just before a final newline, so the run before that newline is removed and the newline kept | "a.\n." becomes "a.\n", and trimming again gives "a\n" | remove the trailing punctuation at the true end of the text, so that trimming is idempotent | not executed | Segments.TrimTailAsWrittenNotIdempotent | Segments.TrimTailIdempotent |
