# Caption re-timing, modelled in Dafny

This project models the caption side of a YouTube archiver.

`ConvertSubtitles.py` takes the automatically generated WebVTT track that carries per-word
timing markers. It does the following:

- groups the file into four-line blocks;
- pulls out one timed token per spoken word;
- removes "rollover" repeats, that is, a word repeated by the next block starting where it
  ended;
- glues the words into a transcript, splits it into sentences and wraps them into caption
  lines of at most 42 columns (with a preferred break after a comma);
- writes three re-timed tracks:
  - *non-iterative*: one cue per caption line, timed from its first to its last token;
  - *iterative*: one cue per token, showing its line so far;
  - *direct*: the original blocks, each token adding a word.

Around it, the project also models:

- the video id taken from a URL (`main.py`);
- the subtitle-language name scheme, the ordering of subtitle streams and the stream options
  used when subtitles are embedded (`subtitles_embedding.py`);
- the value sanitiser and the row update of the CSV archive database (`database.py`).

Modules (one file each):

| file | module | models |
|---|---|---|
| results.dfy | `Results` | `Option`, `Result` |
| text.dfy | `Text` | the Python string operations used: `isspace`, `strip`, `rstrip`, `split()`, `split(sep)`, `replace`, `rfind`, `startswith`, `in`, slicing, string `<=`, `str(n)` |
| tracks.dfy | `Tracks` | tokens, four-line blocks, timing markers, `_get_word_time_triples`, `_get_token_list` |
| wrapping.dfy | `Wrapping` | `_split_text_into_sentences` (around the punctuation model), `_split_sentence_into_subtitle_lines`, `_get_caption_lines` |
| alignment.dfy | `Alignment` | `_clean_string`, the consumption loop, both reformatting strategies |
| direct.dfy | `Direct` | `Block`, `generate_iterative_subtitles_direct` |
| convert.dfy | `Convert` | the text written to each output file, and the whole pipeline |
| urlid.dfy | `UrlId` | `_get_id_from_url` |
| embedding.dfy | `Embedding` | `_get_subtitle_language`, `_order_subtitles`, the stream options of `add_subtitle_streams` |
| database.dfy | `Database` | `_sanitize_value`, the subtitle-name derivation, the row update of `update_database` |

Outside inputs become parameters:

- The lines of a caption file are a `seq<string>`.
- The punctuation-restoring model is a function `restore: string -> string`.
- The configured `subtitle_languages` and `subtitle_priority` are sequences.
- The current time is a `stamp` string.
- The CSV rows are a sequence of `Row` values.

Python exceptions become `Err` values:

- an `IndexError` while aligning becomes `OutOfTokens`;
- the `None` check before writing becomes `MissingTime`;
- an `IndexError` on a short file name becomes `TooFewFields`;
- a missing URL form becomes `NoId`;
- a missing row becomes `RowNotFound`.

Where the code and its comments or docstrings disagree, the model follows the code:

- Rollover removal judges every pair in the original list, so it is not idempotent
  (`Tracks.DedupNotIdempotent`).
- The direct strategy's own duplicate removal builds a list nothing reads, so it has no effect.
- The URL forms are searched anywhere in the address, but the cut treats them as opening it
  (`UrlId.LateOccurrence`).
- The caption pipeline (`Wrapping.CaptionLines`, `Convert.NonIterativeTrack`,
  `Convert.IterativeTrack`) and the row update (`Database.UpdateTable`) are modelled as
  written. The corrected versions stand beside them and are named under Findings.

## Model

| member | source | states |
|---|---|---|
| Tracks.MakeToken | src/ConvertSubtitles.py:8-11 | both timestamps lose every angle bracket and keep their other visible characters in order, a timestamp without brackets is kept as it is, and the word is kept |
| Tracks.RStripAll | src/ConvertSubtitles.py:74 | every line right-stripped, in place |
| Tracks.MarkerTime | src/ConvertSubtitles.py:9-10 | removing the angle brackets from a marker leaves exactly its bare timestamp |
| Tracks.ClockHasNoBrackets | src/ConvertSubtitles.py:9-10 | a bare timestamp passes the bracket removal unchanged |
| Tracks.DropTrailingEmpty | src/ConvertSubtitles.py:77-78 | the result is a prefix whose last line is non-empty, and every line dropped was empty |
| Tracks.PaddedLines | src/ConvertSubtitles.py:80-88 | the line count becomes a multiple of four; one left-over line is dropped, two or three are padded with empty lines; the original lines keep their places |
| Tracks.Chunks | src/ConvertSubtitles.py:91 | consecutive groups of four: line `k` of block `b` is input line `4b+k` |
| Tracks.FourLineBlocks | src/ConvertSubtitles.py:68-93 | `(n+2)/4` blocks of four lines for `n` right-stripped lines without trailing empties; every slot past the end is the empty line |
| Tracks.MarkerSplitRoundTrip | src/ConvertSubtitles.py:47-50 | the texts `re.split` returns, interleaved with the markers `re.findall` returns, rebuild the line exactly |
| Tracks.SegmentsHoldNoMarker | src/ConvertSubtitles.py:47-50 | no segment `re.split` leaves holds a marker, so with the round trip above `re.findall` found every marker in the line |
| Tracks.Pieces | src/ConvertSubtitles.py:53 | the non-blank segments, stripped: none starts or ends with a blank, and the visible characters are those of all segments |
| Tracks.WordTimeTriples | src/ConvertSubtitles.py:45-64 | counting only the non-blank segments, triple i starts at marker i-1 (none for the first) and ends at marker i (none when there are no more markers); the texts are the stripped non-blank segments, there are at most one more triples than markers, and neighbours share a marker |
| Tracks.TriplesCarryMarkers | src/ConvertSubtitles.py:60-61 | every start or end a triple carries is a well-formed marker |
| Tracks.WordsBetweenMarkers | src/ConvertSubtitles.py:47-62 | when no segment is blank, word i is the text between markers i-1 and i of the line and is timed by exactly those two markers |
| Tracks.ResolveTriple | src/ConvertSubtitles.py:189-194 | a missing start or end falls back to the block's; a marker gives its bare timestamp; both ends are `HH:MM:SS.mmm` |
| Tracks.ResolveChained | src/ConvertSubtitles.py:189-194 | two triples sharing a marker become tokens that meet at its timestamp |
| Tracks.ResolveAllShape | src/ConvertSubtitles.py:189-194 | resolving keeps the words in order, yields timestamps only, and the first token starts at the block start |
| Tracks.ResolveAllChained | src/ConvertSubtitles.py:189-194 | each token of a block ends where the next one starts |
| Tracks.BlockTokens | src/ConvertSubtitles.py:176-194 | a timed block's tokens carry the words of its third line without the `<c>` tags, start at `line[0][:12]` and are chained |
| Tracks.LineTokens | src/ConvertSubtitles.py:183-194 | the same, for any caption text inside a block from `s` to `e` |
| Tracks.TokensOf | src/ConvertSubtitles.py:166-194 | every extracted token has two bare timestamps and a non-empty word |
| Tracks.OnlyTimedBlocksCount | src/ConvertSubtitles.py:166-173 | the header block and any block without a timing line contribute no tokens |
| Tracks.DedupPicksSurvivors | src/ConvertSubtitles.py:196-208 | the kept tokens are exactly those at the surviving positions, in order |
| Tracks.Survivors | src/ConvertSubtitles.py:198-205 | the surviving positions increase, and they are all positions whose predecessor in the original list is not a rollover of them |
| Tracks.DedupShape | src/ConvertSubtitles.py:196-208 | removal never lengthens, keeps the first token, and only keeps tokens of the input |
| Tracks.DedupFixpoint | src/ConvertSubtitles.py:196-208 | removal changes nothing if and only if no neighbours form a rollover pair |
| Tracks.DedupNotIdempotent | src/ConvertSubtitles.py:198-208 | for three equal words, the second and third both starting where the first ends, one pass removes only the second and a second pass also removes the third |
| Tracks.SurvivorsBound | src/ConvertSubtitles.py:198-205 | no more survivors than tokens, with equality only when every token survives |
| Tracks.RemoveRollovers | src/ConvertSubtitles.py:196-208 | the two loops of the source (record the duplicates, then filter) compute the rollover removal |
| Tracks.TokenListWellFormed | src/ConvertSubtitles.py:157-208 | every token of a track has two bare timestamps and a non-empty word |
| Tracks.TokenList | src/ConvertSubtitles.py:157-208 | `_get_token_list`: the list after rollover removal is never longer than the extracted tokens and keeps the first of them; its tokens are well-formed by `Tracks.TokenListWellFormed` |
| Wrapping.CommaBreak | src/ConvertSubtitles.py:134-147 | the comma break fires exactly when a comma is present, the stripped line is over 0.8 of the width, and the last comma is not between two digits; it emits exactly one line and keeps the earlier ones |
| Wrapping.CommaBreakAtLastComma | src/ConvertSubtitles.py:137-147 | a fired break emits a line ending in a comma, and no comma is left in the line being filled |
| Wrapping.CommaHeadOf | src/ConvertSubtitles.py:146 | the emitted head ends with the comma it was cut at |
| Wrapping.CommaTailOf | src/ConvertSubtitles.py:147 | the rest after the last comma holds no comma |
| Wrapping.CommaBreakSound | src/ConvertSubtitles.py:135-147 | the comma break keeps every line within the width (or a single long word) and keeps the visible characters |
| Wrapping.CutSound | src/ConvertSubtitles.py:146-147 | cutting after the last comma keeps the lines fitting and the visible text unchanged |
| Wrapping.CutAt | src/ConvertSubtitles.py:146-147 | cutting the line being filled after any position but its last keeps it sound and loses no visible character |
| Wrapping.StepLongWord | src/ConvertSubtitles.py:126-129 | a word wider than a line, met at an empty line, becomes a line of its own |
| Wrapping.StepFlush | src/ConvertSubtitles.py:121-125 | when a word does not fit, the stripped current line is emitted and the word starts the next one, keeping the lines within the width |
| Wrapping.StepAppend | src/ConvertSubtitles.py:132 | a word that fits is added with a trailing blank, keeping the lines within the width |
| Wrapping.StepSound | src/ConvertSubtitles.py:119-147 | one loop iteration keeps every line within the width and appends exactly the word to the visible text |
| Wrapping.WrapFrom | src/ConvertSubtitles.py:119-147 | the whole loop keeps every line within the width, and the visible text is the words in order |
| Wrapping.FinishSound | src/ConvertSubtitles.py:149-151 | the final flush keeps the lines fitting and the visible text unchanged |
| Wrapping.SubtitleLinesAsWritten | src/ConvertSubtitles.py:114-153 | as written, every line fits the width (or is one long word) and the lines hold exactly the sentence's visible characters |
| Wrapping.EmptyLineAfterComma | src/ConvertSubtitles.py:145-151 | as written, a comma break that leaves only a blank makes the final flush emit an empty caption line |
| Wrapping.SubtitleLines | src/ConvertSubtitles.py:114-153 | corrected: the lines fit, none is empty, and they hold exactly the sentence's visible characters |
| Wrapping.SubtitleLinesDiffer | src/ConvertSubtitles.py:149-151 | the corrected lines differ from the lines as written exactly when an empty line was written |
| Wrapping.NonEmptyKeeps | src/ConvertSubtitles.py:150-151 | dropping empty lines changes nothing if and only if there was none |
| Wrapping.NonEmpty | src/ConvertSubtitles.py:150-151 | the kept lines are non-empty lines of the input and hold the same characters |
| Wrapping.TranscriptContent | src/ConvertSubtitles.py:214-216 | the transcript shows exactly the tokens' words in order |
| Wrapping.Sentences | src/ConvertSubtitles.py:108-110 | splitting at `;:!?.` gives at least one piece, no piece holds a delimiter, and together the pieces are the text without delimiters |
| Wrapping.LinesOfAll | src/ConvertSubtitles.py:222-224 | as written: the lines of all sentences fit and hold all the sentences' visible characters; an empty line can be among them |
| Wrapping.CaptionLines | src/ConvertSubtitles.py:212-226 | as written: the caption lines fit and hold exactly the visible characters of the punctuated transcript, without the sentence delimiters; an empty line can be among them |
| Wrapping.CorrectedLinesOfAll | src/ConvertSubtitles.py:222-224 | corrected: the lines of all sentences fit, none is empty, and they hold all the sentences' visible characters |
| Wrapping.CorrectedDropsEmpty | src/ConvertSubtitles.py:149-151 | the corrected lines are exactly the lines as written with the empty ones left out |
| Wrapping.CorrectedCaptionLines | src/ConvertSubtitles.py:212-226 | corrected: the caption lines as written without the empty ones; they fit, none is empty, and they keep the visible characters |
| Alignment.Clean | src/ConvertSubtitles.py:230-232 | a cleaned string holds none of `;:!?.,-`, is never longer, and its visible characters are exactly those of the input that are not among `;:!?.,-`, in order |
| Alignment.CleanPlain | src/ConvertSubtitles.py:230-232 | a word without blanks or that punctuation is its own cleaned form |
| Alignment.Consume | src/ConvertSubtitles.py:249-255 | the loop takes tokens while the rest of the cleaned line starts with their cleaned word; it takes one or more exactly when the first matches, and never passes the end |
| Alignment.ConsumeExact | src/ConvertSubtitles.py:249-255 | a line that is the blank-joined words of tokens `i..j` takes exactly those tokens when the next word is not empty |
| Alignment.Spans | src/ConvertSubtitles.py:239-257 | the spans of all lines form a chain through the tokens; running out of tokens at the start of a line is the error |
| Alignment.SpansFail | src/ConvertSubtitles.py:239-257 | the loop fails exactly when some line begins with the cursor past the last token |
| Alignment.SpansAt | src/ConvertSubtitles.py:239-257 | when it succeeds, line k takes the tokens from the cursor at its start to the cursor at the start of line k+1 |
| Alignment.SpansExact | src/ConvertSubtitles.py:239-257 | lines written from consecutive runs of non-empty cleaned words are re-aligned to exactly those runs |
| Alignment.LineTimes | src/ConvertSubtitles.py:243-257 | a line gets the start of its first token and the end of its last, and gets no time exactly when it took no token |
| Alignment.FirstMissing | src/ConvertSubtitles.py:263-266 | the first line lacking a time, all before it timed |
| Alignment.WriteTimed | src/ConvertSubtitles.py:263-268 | writing succeeds if and only if every line is timed, each cue replacing `&nbsp`; otherwise the error names the first untimed line, counted from 1 |
| Alignment.LineSpans | src/ConvertSubtitles.py:239-257 | fails exactly when some caption line begins after every token has been taken (an `IndexError` at line 246 or 281) |
| Alignment.NonIterativeCues | src/ConvertSubtitles.py:236-268 | running out of tokens is an error; otherwise there is one cue per caption line |
| Alignment.NonIterativeTimes | src/ConvertSubtitles.py:243-268 | each cue runs from the start of the line's first token to the end of its last, with `&nbsp` replaced |
| Alignment.NonIterativeMissing | src/ConvertSubtitles.py:263-266 | the error names the first line that took no token |
| Alignment.LineSpansExact | src/ConvertSubtitles.py:239-257 | captions written from consecutive runs of tokens with non-empty cleaned words are aligned to exactly those runs |
| Alignment.TimedCues | src/ConvertSubtitles.py:257-268 | every written cue runs from the start of its line's first token to the end of its last |
| Alignment.NonIterativeExact | src/ConvertSubtitles.py:236-268 | captions written from consecutive runs of the tokens are timed by exactly those runs |
| Alignment.LineAfterLastToken | src/ConvertSubtitles.py:239-292 | a caption line after lines that used up every token, such as the empty line the wrapper can leave, makes both strategies fail with `OutOfTokens` |
| Alignment.NbspGone | src/ConvertSubtitles.py:267 | no `&nbsp` is left in a written line |
| Alignment.RunCues | src/ConvertSubtitles.py:282-292 | one cue per token taken, with the token's times and the line's words so far |
| Alignment.IterativeCues | src/ConvertSubtitles.py:272-303 | fails exactly when `LineSpans` fails, and then with `OutOfTokens`; otherwise one cue per token taken, and cue m carries token m's own start and end and shows the words of its line from the line's first token through token m, each followed by a blank, with `&nbsp` replaced |
| Alignment.ChainCues | src/ConvertSubtitles.py:275-292 | for spans chaining through the tokens from 0, the cues of all lines number the tokens covered, and cue m is timed by token m and shows its line's words through token m |
| Alignment.AllLineCuesAt | src/ConvertSubtitles.py:275-292 | the same from any cursor i: cue m is timed by token i+m and shows the words of its line through token i+m |
| Alignment.LineFromAt | src/ConvertSubtitles.py:277-290 | in a chain, the line of token t begins at the first token of the span holding t |
| Alignment.ChainCount | src/ConvertSubtitles.py:282-292 | a chain of spans yields as many cues as tokens it covers |
| Alignment.IterativeExact | src/ConvertSubtitles.py:272-303 | for aligned captions, every token yields exactly one cue |
| Alignment.CueTextGrows | src/ConvertSubtitles.py:285 | each cue of a line shows the previous one's text plus the next word and a blank |
| Direct.Sort | src/ConvertSubtitles.py:40-41 | sorting keeps the length |
| Direct.SortPerm | src/ConvertSubtitles.py:40-41 | sorting is a permutation |
| Direct.SortSorted | src/ConvertSubtitles.py:40-41 | the result is in non-decreasing order of start strings |
| Direct.SortStable | src/ConvertSubtitles.py:40-41 | the sort is stable: tokens with equal starts keep their order |
| Direct.SortKeepsSorted | src/ConvertSubtitles.py:40-41 | sorting an already sorted list changes nothing |
| Direct.MakeBlock | src/ConvertSubtitles.py:31-38 | a block is invalid exactly when it has no tokens; otherwise it runs from its first sorted token's start to its last one's end |
| Direct.BlockStartsFirst | src/ConvertSubtitles.py:33-35 | a valid block starts at the earliest start among its tokens |
| Direct.GroupsOf | src/ConvertSubtitles.py:319-354 | the blocks' token groups, concatenated, are the tokens of the shared extraction |
| Direct.BlockCues | src/ConvertSubtitles.py:381-385 | one cue per token of a block, timed by that token, showing the block's words so far and a blank |
| Direct.DirectCueCount | src/ConvertSubtitles.py:356-385 | the direct track has one cue per extracted token, rollovers included |
| Direct.BlockCueGrows | src/ConvertSubtitles.py:383-385 | each cue's text is the previous one's without its last blank, then the next word and two blanks |
| Direct.DirectCues | src/ConvertSubtitles.py:307-385 | one cue per token of the valid blocks taken in order; cue m carries that token's own start and end and shows the words of its block from the block's first token through it, each followed by a blank, then a blank |
| Direct.DirectOrderTokens | src/ConvertSubtitles.py:319-354 | the blocks' tokens taken in order are the groups of the extraction, each sorted by start, concatenated: a permutation of the extracted tokens, each block sorted |
| Direct.OrderIsSortedGroups | src/ConvertSubtitles.py:31-41 | building one block per group and concatenating their tokens is concatenating the sorted groups |
| Direct.CuesOfBlocksInOrder | src/ConvertSubtitles.py:378-385 | for blocks whose invalid ones hold no tokens, the written cues follow the blocks' tokens one for one, each timed by its token and showing its block's words so far |
| Direct.CuesOfBlocksFrom | src/ConvertSubtitles.py:378-385 | the same against any token list that holds the blocks' tokens from position i on |
| Convert.Render | src/ConvertSubtitles.py:260-268 | every output file begins with the header and a line break |
| Convert.RenderAppend | src/ConvertSubtitles.py:263-268 | writing one more cue appends its block to the file |
| Convert.CueBlockTimed | src/ConvertSubtitles.py:268 | a cue with bare timestamps is written under a line that matches the block-start pattern, with its own start and end in the pattern's places |
| Convert.NonIterativeClocked | src/ConvertSubtitles.py:243-257 | when every token carries bare timestamps, so does every non-iterative cue |
| Convert.IterativeClocked | src/ConvertSubtitles.py:286-288 | when every token carries bare timestamps, so does every iterative cue |
| Convert.DirectClocked | src/ConvertSubtitles.py:378-385 | every direct cue carries two bare timestamps |
| Convert.TracksTimed | src/ConvertSubtitles.py:389-409 | every cue of the three tracks is written under a timing line with two bare timestamps |
| Convert.NonIterativeTrack | src/ConvertSubtitles.py:236-268 | the `.reformatted.non-iterative` file fails with `OutOfTokens` when a caption line starts past the last token; a written file begins with the header and a line break (cue count and times: `Alignment.NonIterativeCues`, `Alignment.NonIterativeTimes`, `Convert.TracksTimed`) |
| Convert.IterativeTrack | src/ConvertSubtitles.py:272-303 | the `.reformatted.iterative` file fails exactly when a caption line starts past the last token, always with `OutOfTokens`; a written file begins with the header and a line break (cues: `Alignment.IterativeCues`, `Convert.TracksTimed`) |
| Convert.DirectTrack | src/ConvertSubtitles.py:307-385 | the `.direct.iterative` file begins with the header and a line break (cues: `Direct.DirectCues`, `Direct.DirectCueCount`, `Convert.TracksTimed`) |
| UrlId.FirstPrefix | src/main.py:414-420 | the first URL form contained in the address, or none exactly when no form is contained |
| UrlId.IdAfter | src/main.py:422-423 | the id is the longest prefix without `&` or `?` |
| UrlId.IdFromUrl | src/main.py:414-425 | fails exactly when neither form occurs, naming the address; otherwise the id is the longest prefix without `&` or `?` of the text after the form's length from the start |
| UrlId.ShortRoundTrip | src/main.py:414-423 | `https://youtu.be/` + id + query gives back the id |
| UrlId.WatchRoundTrip | src/main.py:414-423 | `https://www.youtube.com/watch?v=` + id + query gives back the id |
| UrlId.LateOccurrence | src/main.py:419-421 | a form found later in the address is still cut at its length from the start |
| Embedding.SubtitleLanguage | src/subtitles_embedding.py:15-37 | the second-to-last dot field if it is a configured language, otherwise the two fields before the extension joined by a dot; names with too few fields are an error |
| Embedding.LanguageOfName | src/subtitles_embedding.py:32-35 | `stem.lang.ext` with a configured `lang` gives `lang` |
| Embedding.LanguageOfTaggedName | src/subtitles_embedding.py:32-37 | `stem.lang.tag.ext` with an unconfigured `tag` gives `lang.tag` |
| Embedding.DocExamples | src/subtitles_embedding.py:19-20 | the two docstring examples hold |
| Embedding.LanguagesOf | src/subtitles_embedding.py:59 | the language of every file, in order, or the first failure |
| Embedding.SlotsLanguageMajor | src/subtitles_embedding.py:63-71 | the slots are language-major: slot `i*|priorities|+j` is language `i` with priority `j`, `default` meaning the bare language |
| Embedding.IndexOf | src/subtitles_embedding.py:74 | `list.index`: the first position holding the value, or none exactly when it is absent |
| Embedding.Picks | src/subtitles_embedding.py:72-79 | as many files as filled slots (slots some file's language names), never more than the slots, each picked file having its language in a slot |
| Embedding.OrderedBySlot | src/subtitles_embedding.py:62-79 | for two filled slots, the earlier slot's file comes first in the result |
| Embedding.SlotsLength | src/subtitles_embedding.py:63-71 | there is one slot per language and priority |
| Embedding.ExampleSlots | src/subtitles_embedding.py:63-71 | languages `en, de` and priorities `default, dir_iter` give the slots `en, en.dir_iter, de, de.dir_iter` |
| Embedding.OrderSubtitles | src/subtitles_embedding.py:41-79 | succeeds exactly when every name has a language; the ordered files are input files, as many as the filled slots |
| Embedding.OrderPlacesSlot | src/subtitles_embedding.py:62-79 | the order is the picks over the slots, and every filled slot contributes the first file with that language, at the position counting the filled slots before it |
| Embedding.OrderExample | src/subtitles_embedding.py:41-79 | with English before German and the plain track before `dir_iter`, three files come out English plain, English `dir_iter`, German |
| Embedding.LanguageTags | src/subtitles_embedding.py:122-125 | the language metadata holds `metadata:s:s:i` to `language=` + the i-th file's language, and nothing else |
| Embedding.CodecOptions | src/subtitles_embedding.py:127-128 | the codec options hold `scodec:s:i` to `webvtt` for each stream, and nothing else |
| Embedding.StreamOptions | src/subtitles_embedding.py:106-128 | fails exactly when a name has no language; otherwise the files are the ordered subtitles, each tagged `language=` with its own language at its stream number, and each stream gets the codec `webvtt` |
| Embedding.MetadataKeyFresh | src/subtitles_embedding.py:125 | different stream numbers give different metadata keys |
| Embedding.CodecKeyFresh | src/subtitles_embedding.py:127-128 | different stream numbers give different codec keys |
| Embedding.OrderedTags | src/subtitles_embedding.py:110-125 | files taken from a list in which every name has a language are tagged, stream by stream, with their own languages |
| Embedding.OutputPath | src/subtitles_embedding.py:106-107 | a separate output path is kept; otherwise `.temp` is inserted before the four-character extension and nothing else changes |
| Embedding.OutputPathDiffers | src/subtitles_embedding.py:106-107 | the output path never equals the video path |
| Database.SanitizeText | src/database.py:24-26 | a sanitized string holds no line break and no NUL |
| Database.SanitizeEach | src/database.py:24-26 | a character-by-character reference sanitiser: no line break or NUL left, never longer |
| Database.SanitizeOnePass | src/database.py:25-26 | the two replacements act character by character: a line break becomes a blank and a NUL disappears |
| Database.SanitizeFixed | src/database.py:24-26 | sanitizing changes a string if and only if it holds a line break or a NUL |
| Database.SanitizeIdempotent | src/database.py:24-26 | sanitizing twice is sanitizing once |
| Database.SanitizeLength | src/database.py:24-26 | the length shrinks by exactly the number of NULs |
| Database.SanitizeKeepsText | src/database.py:24-26 | apart from blanks, line breaks and NULs, every character survives in order |
| Database.SanitizeConcat | src/database.py:24-26 | sanitizing distributes over concatenation |
| Database.SanitizeValue | src/database.py:22-28 | lists and dicts become their JSON text, strings are sanitized, other values pass unchanged |
| Database.SanitizeValueStr | src/database.py:24-26 | for strings: idempotent, and a fixpoint exactly for strings without line break or NUL |
| Database.SubtitleTag | src/database.py:176-184 | the same fields as the embedding code: an error exactly when a name has too few fields |
| Database.TagAgreesWithEmbedding | src/database.py:176-184 | the derived format equals the embedding language, and the derived language is that format or the part before its dot |
| Database.SubtitleTags | src/database.py:173-186 | the language and format of every file, in order, or the first failure |
| Database.Distinct | src/database.py:298 | `list(set(...))`: the same elements, each once |
| Database.NewColumns | src/database.py:287-299 | a new row's languages are the derived languages without repeats; its formats are the derived formats in order |
| Database.UpdateColumnsAsWritten | src/database.py:216-227 | as written, the languages column receives the old and new formats, and the formats column is unchanged |
| Database.ColumnsSwapped | src/database.py:216-227 | as written, a format lands in the languages column and is missing from the formats column |
| Database.UpdateColumns | src/database.py:216-227 | corrected: each column gains its own new entries, without repeats |
| Database.RecordAsWritten | src/database.py:194-208 | as written, the raw value is looked up but the sanitized value is stored; other stamps are untouched |
| Database.RecordRepeats | src/database.py:194-208 | as written, a title with a line break is stored again on every update |
| Database.Record | src/database.py:194-208 | corrected: the sanitized value is in the history afterwards, added only if absent, other stamps untouched |
| Database.RecordIdempotent | src/database.py:194-208 | recording the same value again, under any stamp, changes nothing |
| Database.RecordAgrees | src/database.py:194-208 | for values without line break or NUL, the two versions agree |
| Database.AddSourceAsWritten | src/database.py:210-214 | as written, a new source is appended character by character |
| Database.SourceSplit | src/database.py:210-214 | as written, the source `pl` is stored as `p`, `l`, and `pl` itself is never found |
| Database.AddSource | src/database.py:210-214 | corrected: the source is present afterwards, appended once only if absent, earlier entries kept |
| Database.AddSourceIdempotent | src/database.py:210-214 | adding the same source twice is adding it once |
| Database.UpdateRowAsWritten | src/database.py:194-227 | as written: a history already holding the raw value is untouched, otherwise it gains the sanitized value at the stamp; other stamps keep their values and no other stamp appears; a new source is appended character by character; the languages column receives the old and new formats and the formats column is unchanged |
| Database.UpdateRow | src/database.py:194-227 | corrected: the row keeps its id and holds the sanitized title and description; a history already holding the sanitized value is untouched, other stamps keep their values and no other stamp appears; the source follows the earlier sources, added once only if absent; each subtitle column gains the derived entries, or is untouched when no subtitle files are given |
| Database.FindRow | src/database.py:190-191 | the first row with the id, or none exactly when no row has it |
| Database.UpdateTable | src/database.py:173-232 | fails exactly when a subtitle name is too short or the id is missing; otherwise only the first matching row changes, and it becomes that row updated as the source writes it (`Database.UpdateRowAsWritten`) with the tags derived from the subtitle files |
| Database.UpdateRowRepeat | src/database.py:194-214 | for the corrected update, repeating it leaves titles, descriptions and sources as after the first |
| Database.UpdateRowAgrees | src/database.py:194-214 | for an already sanitized title and description, a one-character or already listed source and no subtitle files, the update as written is the corrected one |
| Text.Words | src/ConvertSubtitles.py:115 | `split()`: non-empty words without whitespace that together are the text's visible characters |
| Text.WordsJoin | src/ConvertSubtitles.py:115 | splitting words joined by single blanks gives back those words |
| Text.SplitJoin | src/subtitles_embedding.py:32 | splitting at a separator and joining with it gives back the text |
| Text.SplitAnyContent | src/subtitles_embedding.py:32 | the fields together are the text without separators |
| Text.StripUnspaced | src/ConvertSubtitles.py:124 | stripping loses no visible character |
| Text.StripPiece | src/ConvertSubtitles.py:124 | `strip()` is a piece of the string with only whitespace around it, beginning and ending with a visible character unless it is empty |
| Text.StripUnique | src/ConvertSubtitles.py:124 | any such piece is the result of `strip()` |
| Text.RStrip | src/ConvertSubtitles.py:74 | the longest prefix not ending in whitespace, with only whitespace removed |
| Text.ReplaceAllRemoves | src/ConvertSubtitles.py:267 | after replacing a pattern by a text sharing no character with it, the pattern is gone |
| Text.RFind | src/ConvertSubtitles.py:137 | the last position of the character, or -1 exactly when it is absent |
| Text.LexLeTotal | src/ConvertSubtitles.py:41 | Python's string order is total |
| Text.LexLeTrans | src/ConvertSubtitles.py:41 | Python's string order is transitive |
| Text.NatToStringInjective | src/subtitles_embedding.py:125 | different stream numbers print differently |

## Left out

- Reading and writing files, `ffmpeg`, `os.remove` and `os.rename`, `json.load` and
  `json.dumps`, and CSV parsing are left out. The model works on the lines read, the cues
  written and the rows in memory.
- The punctuation model is a parameter `restore`. Nothing is known of its output but that it is a string.
- The warnings-filter handling around the punctuation model is left out; it has no effect on
  the data.
- The time of day is the parameter `stamp`. The format `%Y.%m.%d_%H.%M.%S` is not modelled.
- The configuration file is left out. `subtitle_languages` and `subtitle_priority` are
  parameters.
- `\d` and `str.isdigit` are modelled as the ASCII digits only.
- `str.isspace` is the fixed set of Unicode whitespace code points listed in `Text.IsSpace`.
- Python's `0.8` is taken as exact: the test `len > max * 0.8` is written
  `5 * len > 4 * max`. For the width 42 that is used, both hold exactly from length 34 on.
- The source's `TimedToken.__eq__` and `__str__` are unused by the modelled code.
- `Direct.DirectCues` does not run the direct strategy's own duplicate removal: nothing reads
  its result.
- The `if four_line_block[1].strip() != '': pass` checks do nothing and are left out.
- The `__main__` blocks are left out. The header, read as the first four lines minus the
  final character, is a parameter.
- MakeToken: where blanks sit in a timestamp after the brackets are removed is not stated; the
  timestamps the source passes are markers or bare `HH:MM:SS.mmm` strings, which hold none
  (`Tracks.MarkerTime`, `Tracks.ClockHasNoBrackets`).
- Words: the contract states the words and their order through their characters; where
  the boundaries fall is stated by `Text.WordsJoin` for texts with single blanks only.
- `Database.Distinct` keeps the first occurrence of each element. Python's `list(set(...))`
  order is hash-dependent. Only membership and the absence of repeats are stated.
- `Database.SanitizeValue`: a list or dict is represented by its JSON text
  (`Composite(json)`). JSON serialisation itself is not modelled.
- `Database.UpdateTable` models the part of `update_database` after the files are read. The
  missing-file error and the writing back are left out.
- `update_database` sets the title's and description's stamps from two separate clock reads.
  The model uses one `stamp` for both.
- `UrlId.WatchRoundTrip` requires that the short form `https://youtu.be/` does not occur in
  the address. The source checks that form first, so the round trip fails otherwise.
- `Wrapping.CommaBreakAtLastComma` requires that the break fires. The case where it does not
  fire is stated by `Wrapping.CommaBreak`.
- NonIterativeTrack, IterativeTrack, DirectTrack: the contracts of the written text state only
  its header and when it fails. The cues behind it are stated by `Alignment.NonIterativeTimes`,
  `Alignment.IterativeCues` and `Direct.DirectCues`, and the shape of each cue block by
  `Convert.CueBlockTimed`. Reading the text back into cues is not stated.
- `Embedding.OrderPlacesSlot` names slot positions through `Embedding.Offset`, which
  `Embedding.OffsetIsProduct` proves equal to `i * |priorities|`.
- The rest of `main.py`, `database.py` (the CSV writer, `add_to_database`'s other columns, row
  lookup by other fields) and the downloader and transcription files are not part of this
  model.

## Findings

| source | as written | input that shows it | evidently intended | confidence | as-written member | corrected member |
|---|---|---|---|---|---|---|
| src/ConvertSubtitles.py:145-151 | after a comma break the current line becomes the stripped rest plus a blank; when the rest is empty it is `" "`, which is truthy, so the final flush appends `""` | `_split_sentence_into_subtitle_lines("ab,", 3)` gives `["ab,", ""]` | no empty caption line is emitted | not executed | Wrapping.SubtitleLinesAsWritten, Wrapping.EmptyLineAfterComma, Alignment.LineAfterLastToken | Wrapping.SubtitleLines, Wrapping.CorrectedCaptionLines |
| src/database.py:195-208 | the new title or description is looked up raw but stored sanitized | updating twice with the title `"a\nb"` stores `"a b"` under two stamps | a value already recorded is not recorded again | not executed | Database.RecordAsWritten, Database.RecordRepeats, Database.UpdateRowAsWritten | Database.Record, Database.UpdateRow |
| src/database.py:210-214 | `list += str` extends the list by the string's characters | the sources `["direct"]` and the new source `"pl"` give `["direct", "p", "l"]` | the source is appended as one entry | not executed | Database.AddSourceAsWritten, Database.SourceSplit, Database.UpdateRowAsWritten | Database.AddSource, Database.UpdateRow |
| src/database.py:216-227 | the de-duplicated languages go to an unused variable, and the formats overwrite the `subtitle_languages` column, so `subtitle_formats` never changes | the row `(["en"], ["en"])` with the new `(["en"], ["en.dir_iter"])` gets languages holding `en.dir_iter` and formats without it | each column is extended with its own new entries, without repeats | not executed | Database.UpdateColumnsAsWritten, Database.ColumnsSwapped, Database.UpdateRowAsWritten | Database.UpdateColumns, Database.UpdateRow |
