# SubRip encoder, modelled and verified in Dafny

The repository transcribes audio into timed text segments and writes them
out as a SubRip (`.srt`) subtitle file. Its own logic is the SubRip encoder.
There are two near-identical copies of it:

- utils/srt.py: `srt_format_timestamp` and `write_srt`.
- app.py: a second `srt_format_timestamp`, which asserts a non-negative time
  and splits it by repeated subtraction, and a second `write_srt`, which
  counts cues and `print`s them to a caller's file.

This project models both copies and proves what they promise. Times enter
the model as whole milliseconds, the value both formatters compute with
`round(seconds * 1000.0)`.

- `Decimal` (decimal.dfy): Python's `str(n)` and the `{n:02}` / `{n:03d}`
  zero-padded formats. It also defines the value of a digit string, so
  renderings can be read back.
- `Text` (text.dfy): `t.replace('-->', '->')` as one left-to-right pass, and
  `t.strip()` with Python's `str.isspace` set of characters.
- `Segments` (segments.dfy): the segment record. It has an id, start and end
  in milliseconds, and text.
- `Sinks` (sinks.dfy): a text file opened for writing, seen as the text
  written so far. It also has the `print(s, file=f)` builtin.
- `Srt` (srt.dfy): utils/srt.py. The formatter is a function. It is proved
  to be a bijection from non-negative counts onto the strings that
  `ParseTimestamp` accepts: those shaped `H:MM:SS,mmm` whose minutes and
  seconds are below 60. The document is the in-order concatenation of the
  cues.
  `write_srt` is a method whose loop is proved to write exactly that
  document.
- `App` (app.py's copy): the subtraction split and the asserting formatter
  are methods proved equal to utils/srt.py's formatter. `write_srt` is a
  method proved to print the same document. When a segment has a negative
  time, it prints only the cues before that segment and then fails.

utils/srt.py has no assertion, so its formatter is modelled on every
integer. Python's `//` and `%` by a positive divisor round toward negative
infinity, as Dafny's `/` and `%` do. A negative count therefore gets
negative hours and in-range minutes, seconds and milliseconds, for example
`-1:59:59,999` for -1.

## Model

| member | source | states |
|---|---|---|
| Decimal.Dec | utils/srt.py:7 | `{hours}` for a non-negative count: Python's `str` of a natural number, never empty |
| Decimal.Str | utils/srt.py:7 | `str` of any integer, with a leading minus sign when negative; never empty |
| Decimal.ZeroPad | utils/srt.py:7 | `{n:02}` and `{n:03}`: zeros on the left up to the width, so exactly the width long when the number fits and its own length otherwise |
| Decimal.DecDigits | utils/srt.py:7 | `str(n)` of the hours is digits only, has no leading zero, and denotes `n` |
| Decimal.ZeroPadDigits | utils/srt.py:7 | the `:02` / `:03` padded rendering is digits only and still denotes the number |
| Decimal.DecLength | utils/srt.py:7 | a number below 10^w renders in at most w digits, so fields below 60 and 1000 pad to exactly 2 and 3 characters |
| Decimal.DecOfValue | utils/srt.py:7 | every canonical digit string is `str` of its value, so `str` is onto the canonical strings |
| Decimal.ZeroPadOfValue | utils/srt.py:7 | every fixed-width digit string is the zero-padded rendering of its value at that width |
| Srt.Render | utils/srt.py:7 | the f-string layout: hours, `:`, two-digit minutes, `:`, two-digit seconds, `,`, three-digit milliseconds; never shorter than 11 characters |
| Srt.FormatTimestamp | utils/srt.py:1-7 | `srt_format_timestamp` on integer milliseconds: the split, then the layout; never shorter than 11 characters |
| Srt.Split | utils/srt.py:3-6 | the `//` and `%` split puts minutes and seconds below 60 and milliseconds below 1000; the hours are non-negative exactly when the input is |
| Srt.SplitTotal | utils/srt.py:3-6 | `hours*3600000 + minutes*60000 + seconds*1000 + ms` equals the input, for every integer input |
| Srt.SplitUnique | utils/srt.py:3-6 | any in-range fields that recombine to the count are the split's fields |
| Srt.RenderSlices | utils/srt.py:7 | in `H:MM:SS,mmm` the hours take all but the last 10 characters, and the separators sit at fixed offsets from the end |
| Srt.FormatShaped | utils/srt.py:1-7 | every non-negative count prints as `\d+:\d\d:\d\d,\d\d\d` with unpadded hours |
| Srt.ParseFormat | utils/srt.py:1-7 | reading a printed timestamp back gives the original count |
| Srt.FormatParse | utils/srt.py:1-7 | every string the reader accepts is the printing of what it reads |
| Srt.FormatInjective | utils/srt.py:1-7 | distinct non-negative counts never print alike |
| Srt.FormatZero | utils/srt.py:3-7 | 0 ms prints as `0:00:00,000` |
| Srt.FormatMixed | utils/srt.py:3-7 | 3661500 ms prints as `1:01:01,500` |
| Srt.FormatTenHours | utils/srt.py:3-7 | 36000000 ms prints as `10:00:00,000`; hours are not padded |
| Srt.FormatNegative | utils/srt.py:3-7 | -1 ms is not rejected and prints as `-1:59:59,999` |
| Srt.FormatOneSecond | utils/srt.py:3-7 | 1000 ms prints as `0:00:01,000` |
| Srt.FormatTwoSeconds | utils/srt.py:3-7 | 2000 ms prints as `0:00:02,000` |
| Text.IsSpace | utils/srt.py:14 | the characters `str.isspace` accepts and `strip()` removes, space, tab, newline and carriage return among them |
| Text.ReplaceArrow | utils/srt.py:14 | `replace('-->', '->')` as one left-to-right scan that resumes after each match; never lengthens the text |
| Text.TrimStart | utils/srt.py:14 | the leading half of `strip()`; never lengthens the text |
| Text.TrimEnd | utils/srt.py:14 | the trailing half of `strip()`; never lengthens the text |
| Text.Strip | utils/srt.py:14 | `strip()` with no argument; never lengthens the text |
| Text.Sanitize | utils/srt.py:14 | the cue text `replace('-->', '->').strip()`; never longer than the segment's text |
| Text.ReplaceArrowShrinks | utils/srt.py:14 | every replacement shortens the text |
| Text.ReplaceArrowIdentity | utils/srt.py:14 | the replacement changes nothing exactly when the text holds no `-->` |
| Text.ReplaceArrowSinglePass | utils/srt.py:14 | one pass only: `--->` becomes `-->`, so the output can still contain the delimiter |
| Text.TrimStartSpec | utils/srt.py:14 | `lstrip` keeps a suffix, removes only whitespace, and what it keeps does not start with whitespace |
| Text.TrimEndSpec | utils/srt.py:14 | `rstrip` keeps a prefix, removes only whitespace, and what it keeps does not end with whitespace |
| Text.StripSlice | utils/srt.py:14 | `strip` keeps one contiguous slice with no whitespace at its ends, and cuts only whitespace on either side |
| Text.StripIdentity | utils/srt.py:14 | `strip` changes nothing exactly when neither end is whitespace |
| Text.StripIdempotent | utils/srt.py:14 | stripping twice is stripping once |
| Text.SanitizeKeeps | utils/srt.py:14 | text the encoder leaves unchanged holds no `-->` and has no whitespace at its ends |
| Text.SanitizeClean | utils/srt.py:14 | text with no `-->` and no whitespace at its ends comes through unchanged |
| Text.SanitizeIdentity | utils/srt.py:14 | both directions at once: cue text is unchanged exactly when it is clean |
| Text.SanitizeCleanExample | utils/srt.py:14 | `A` is kept as it is |
| Text.SanitizeArrowExample | utils/srt.py:14 | `B-->C` becomes `B->C` |
| Srt.IndexLine | utils/srt.py:12 | the first line of a cue, its number, ending in a newline |
| Srt.TimingLine | utils/srt.py:13 | the second line, `start --> end`, at least 28 characters and ending in a newline |
| Srt.TextBlock | utils/srt.py:14 | the sanitized text and a blank line: ends in two newlines and is at most two characters longer than the segment's text |
| Srt.Cue | utils/srt.py:12-14 | the three writes of one iteration, at least 32 characters and ending in a blank line |
| Srt.Numbered | utils/srt.py:11 | `enumerate(segments, 1)`: one part per segment, in order, the part at position k numbered k + 1 |
| Srt.Join | utils/srt.py:11-14 | the successive writes concatenated in order; the first part starts the result |
| Srt.Document | utils/srt.py:9-14 | what the file holds after `write_srt`; nothing for no segments |
| Srt.NumberedTwo | utils/srt.py:11 | two segments give their two parts, numbered 1 and 2 |
| Srt.CueLines | app.py:52-58 | the single string app.py prints, followed by print's own newline, is the three lines utils/srt.py writes |
| Srt.DocumentExample | utils/srt.py:9-14 | segments 0-1 s `A` and 1-2 s `B-->C` give exactly `1\n0:00:00,000 --> 0:00:01,000\nA\n\n2\n0:00:01,000 --> 0:00:02,000\nB->C\n\n`, whatever their ids |
| Srt.NumberedAppend | utils/srt.py:11 | one more segment adds one more part, numbered one past the others |
| Srt.DocumentAppend | utils/srt.py:11-14 | appending a segment appends exactly its cue, numbered `\|s\|+1`; earlier output is unchanged |
| Srt.NumberedPrefix | utils/srt.py:11-14 | the parts of a prefix of the segments join to a prefix of the joined whole |
| Srt.DocumentPrefix | utils/srt.py:11-14 | the document of the first k segments is a prefix of the whole document |
| Srt.DocumentEmpty | utils/srt.py:11-14 | the document is empty exactly when there are no segments |
| Srt.DocumentIgnoresIds | utils/srt.py:11-14 | segments that differ only in their ids give the same document |
| Srt.ThreeWritesAppendCue | utils/srt.py:12-14 | the three writes of one iteration append exactly the next cue |
| Srt.WriteSrt | utils/srt.py:9-14 | the new file holds exactly the document: cue i for segment i, numbered from 1 |
| Sinks.TextSink.constructor | utils/srt.py:10 | `open(path, "w")` gives a file that holds nothing |
| Sinks.TextSink.Write | utils/srt.py:12-14 | `f.write(s)` appends `s` and changes nothing else |
| Sinks.Print | app.py:52-58 | `print` to a file appends the string and then a newline |
| App.SplitBySubtraction | app.py:37-44 | after the three subtractions the fields recombine to the count and are in range, and they are utils/srt.py's split |
| App.FormatTimestamp | app.py:33-46 | a negative count raises `AssertionError("non-negative timestamp expected")`; any other prints exactly as utils/srt.py prints it |
| App.Completed | app.py:50-58 | how many leading segments get printed: all before it are non-negative, and the one at it is not |
| App.PrintAppendsCue | app.py:52-58 | one `print` of a cue body extends the document by exactly the next cue |
| App.WriteSrt | app.py:48-58 | it succeeds exactly when no time is negative, and then prints the same document as utils/srt.py; otherwise it raises the assertion error after printing the cues before the bad segment; no segments print nothing |

## Left out

- The float step `round(seconds * 1000.0)` in both formatters. It is a float multiply followed by round-half-to-even, so the model starts from integer milliseconds. NaN and infinity are float concerns and are left out for the same reason.
- App.FormatTimestamp: it checks the sign of the millisecond count, whereas app.py asserts on the float seconds. A time in (-0.0005, 0) seconds rounds to 0 ms and fails in app.py, but the model accepts it.
- Opening, closing and flushing files: the path, `encoding="utf-8"` and `flush=True` are not modelled. A file is the sequence of characters written to it, and `open(path, "w")` is a fresh, empty sink.
- Line endings: the model gives the text with `\n` line endings. utils/srt.py opens its file in text mode with default newline handling, so on a platform whose line separator is not `\n` each `\n` reaches the disk as that separator; app.py's `file` does whatever its caller opened it to do.
- Errors from the file itself (a failed open or write) are not modelled.
- Segments are records, not dictionaries, so a missing `start`, `end` or `text` key (a `KeyError`) is not modelled.
- app.py's `transcript` iterator is modelled as a finite sequence, read once in order.
- The rest of the repository is not part of this model: the Dash UI of app.py, `save_uploaded_file`, `translate_transcribe_file`, utils/whisper.py, translate.py, utils/qa_chain.py and utils/get_model_url.py. These are web-framework glue, file I/O and calls into speech and language-model libraries.
