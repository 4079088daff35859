# SRT serializer of `utility.py`, modelled in Dafny

This project models the SubRip (SRT) subtitle serializer in `utility.py`, which has two parts.

- `format_timestamp` turns a non-negative offset in seconds into a clock text `[HH:]MM:SS<marker>mmm`.
  - It rounds the offset to whole milliseconds.
  - A floor-division cascade splits the milliseconds into hours, minutes, seconds and milliseconds. Each step updates `milliseconds` in place.
  - Each field is zero-padded.
  - The hours field is printed only when it is forced on or when the hours are positive.
- `write_srt` numbers the segments of a transcript from 1.
  - For each segment it builds the block `"{i}\n{start} --> {end}\n{text}\n"`.
  - Both timestamps have hours forced on and use `,` as the marker.
  - The text is stripped, then every `-->` in it becomes `->`.
  - The blocks are joined with `"\n"`, so a blank line separates consecutive blocks.

Modules:

- `Results` (`results.dfy`): `Option` and `Result`.
- `Decimal` (`decimal.dfy`): Python's `{n}` (`Show`) and `{n:0Wd}` (`Pad`) for non-negative integers.
  - `Value` reads digits back.
  - `Pad` never truncates.
- `TimestampFormat` (`timestamp.dfy`): `format_timestamp`.
  - The imperative method `FormatTimestamp` keeps the source's in-place cascade. It is proved equal to the function `Timestamp`.
  - `Split` is the decomposition. Its own contract states that it is lossless and normal, and `SplitUnique` proves it is the only such decomposition.
  - `Fields` and `Parse` read a clock text back. They give round-trip lemmas and shape lemmas.
- `TextLine` (`text.dfy`): `str.strip()` (`Strip`, using the characters for which Python's `str.isspace` holds) and `str.replace('-->', '->')` (`ReplaceArrow`, a left-to-right, non-overlapping scan).
- `Srt` (`srt.dfy`): `write_srt`.
  - `MapNumbered` is `enumerate(..., start=1)` with a formatter that may fail.
  - `Join` is `"\n".join`.
  - `Offset` is where each block lands in the joined document.

How the model represents the inputs:

- Offsets are exact real numbers.
- `round` is Python's round-half-to-even on the exact value.
- The `assert seconds >= 0` becomes the error value `Failure(NegativeTimestamp)`. A transcript that holds such a segment makes `WriteSrt` fail, as the list comprehension raises.

## Model

| member | source | states |
|---|---|---|
| TimestampFormat.FormatTimestamp | utility.py:4-23 | The step-by-step cascade (`//` then `-=` for hours, minutes, seconds) and the f-string produce exactly `Timestamp(seconds, alwaysIncludeHours, marker)`, a negative offset included. |
| TimestampFormat.Timestamp | utility.py:8-23 | Fails exactly when the offset is negative. Otherwise the text is the rounded millisecond total laid out by the clock decomposition. |
| TimestampFormat.Millis | utility.py:9 | A non-negative offset rounds to a non-negative millisecond count. |
| TimestampFormat.RoundHalfEven | utility.py:9 | `round` gives an integer within 0.5 of its argument, and on an exact tie it gives the even neighbour. |
| TimestampFormat.RoundUnique | utility.py:9 | Any integer with these two properties is `round`'s result, so the rounding is fully specified. |
| TimestampFormat.WholeMillis | utility.py:9 | An offset that is a whole number of milliseconds is not moved by the rounding. |
| TimestampFormat.Split | utility.py:11-18 | The cascade's four fields reconstruct the millisecond total losslessly. Minutes and seconds are below 60, milliseconds below 1000, and hours unbounded. |
| TimestampFormat.SplitUnique | utility.py:11-18 | A normal clock is the only decomposition of its total, so a text such as `00:61:...` never arises. |
| TimestampFormat.Layout | utility.py:20-22 | The f-string on a clock. Specified by `LayoutFields` (the fields read back, the marker's place, when the hours part appears) and `ClockDigits`/`ShortClockDigits` (the text digit by digit). |
| TimestampFormat.FormatMillis | utility.py:11-22 | The cascade and f-string on a millisecond total. Specified by `FormatFields` and `ParseFormat` (parsing gives the total back). |
| TimestampFormat.FixedWidths | utility.py:20-22 | Minutes and seconds are always 2 characters and milliseconds always 3. |
| TimestampFormat.LayoutFields | utility.py:20-22 | For any normal clock, reading the text back gives that clock. The marker sits just before the last three characters, and the hours part is present exactly when forced or when hours > 0. |
| TimestampFormat.FormatFields | utility.py:20-22 | The same shape facts for the text of a millisecond total: the fields read back are its decomposition. |
| TimestampFormat.ParseFormat | utility.py:20-22 | Round trip: parsing a formatted total gives the total, with or without the hours part. |
| TimestampFormat.HoursWidth | utility.py:20 | With hours forced, the hours part is `HH:` (3 characters) exactly when hours < 100. Beyond that, `:02d` widens the field rather than truncating it. |
| TimestampFormat.MarkerChar | utility.py:22 | A one-character marker is the fourth character from the end. |
| TimestampFormat.ClockDigits | utility.py:20-22 | With hours shown and below 100, the text is `HH:MM:SS<marker>mmm`, digit by digit. |
| TimestampFormat.ShortClockDigits | utility.py:20-22 | With hours zero and not forced, the text is `MM:SS<marker>mmm`. |
| TimestampFormat.CarryIntoHours | utility.py:11-22 | 3661200 ms, and 3661.2 s, with hours forced and `,`, give `01:01:01,200`: the carry lands in the hours field. |
| TimestampFormat.ZeroSeconds | utility.py:4-23 | 0 s gives `00:00:00,000`. |
| TimestampFormat.OneAndAHalfSeconds | utility.py:4-23 | 1.5 s gives `00:00:01,500`. |
| TimestampFormat.HoursOmitted | utility.py:4-23 | 123.456 s with the default arguments (hours not forced, `.` as the marker) gives `02:03.456`. |
| Decimal.Show | utility.py:31 | `{i}` is a non-empty string of digits without a leading zero. |
| Decimal.ShowValue | utility.py:31 | The digits of `{i}` read back as `i`. |
| Decimal.ShowInjective | utility.py:31 | Distinct block numbers get distinct index lines. |
| Decimal.Pad | utility.py:20-22 | `{n:0Wd}` is all digits, reads back as `n`, has width `max(W, len(str(n)))`, and ends with `str(n)`. |
| Decimal.PadWidth | utility.py:20-22 | The field has exactly width `W` precisely when `n < 10^W`. |
| Decimal.PadTwo | utility.py:20-22 | Below 100, `{n:02d}` is the tens digit followed by the units digit. |
| Decimal.PadThree | utility.py:22 | Below 1000, `{n:03d}` is the hundreds, tens and units digits. |
| TextLine.StripLeft | utility.py:31 | What is left after dropping leading whitespace is empty or starts with a non-whitespace character. |
| TextLine.StripRight | utility.py:31 | What is left after dropping trailing whitespace is empty or ends with a non-whitespace character. It keeps the first character. |
| TextLine.Strip | utility.py:31 | `strip()` leaves no leading or trailing whitespace and never lengthens the text. |
| TextLine.StripParts | utility.py:31 | The text is what `strip()` kept, with whitespace before and after it. |
| TextLine.StripUnique | utility.py:31 | Stripping whitespace padding from a trimmed text gives that text back: `strip()` removes exactly the outer whitespace. |
| TextLine.StripIdempotent | utility.py:31 | Stripping twice is stripping once. |
| TextLine.ReplaceArrow | utility.py:31 | `replace("-->", "->")` as a left-to-right scan. Specified by `ReplaceLeftmost` (leftmost occurrence replaced, rest processed again), `ReplaceWithoutArrow` and `ArrowSurvives`. |
| TextLine.ReplaceLeftmost | utility.py:31 | The scan's reading of `replace`: the text before the leftmost `-->` is kept, that occurrence becomes `->`, and the rest is processed again. |
| TextLine.ReplaceWithoutArrow | utility.py:31 | A text without `-->` is unchanged. |
| TextLine.ReplaceEdges | utility.py:31 | The replacement keeps the first and last characters and never empties a text. |
| TextLine.ArrowSurvives | utility.py:31 | The replaced text contains `-->` if and only if the original contains `--->`. |
| TextLine.ReplaceCanLeaveArrow | utility.py:31 | `"--->"` becomes `"-->"`. |
| TextLine.ReplaceDelimiter | utility.py:31 | In `before + "-->" + after`, when that `-->` is the leftmost one (no `-->` within `before + "--"`) and `after` holds no `-->`, the result is `before + "->" + after`. |
| TextLine.NoArrowBeforeDelimiter | utility.py:31 | Text without `>` cannot form a `-->` that ends inside the delimiter, so the delimiter is the leftmost `-->`. |
| TextLine.Sanitize | utility.py:31 | The text line has no leading or trailing whitespace. |
| TextLine.SanitizeClean | utility.py:31 | A trimmed text without `-->` comes out of any whitespace padding unchanged. |
| TextLine.SanitizeDelimiter | utility.py:31 | A trimmed text `before + "-->" + after` comes out as `before + "->" + after` when that `-->` is its leftmost (no `-->` within `before + "--"`) and `after` holds no `-->`. |
| TextLine.SanitizePadded | utility.py:31 | The same with one space of padding on each side: the padding goes and the delimiter is shortened. |
| TextLine.SanitizeHello | utility.py:31 | `" Hello world "` becomes `"Hello world"`. |
| TextLine.SanitizeArrow | utility.py:31 | `" a --> b "` becomes `"a -> b"`. |
| TextLine.SanitizeTurnLeft | utility.py:31 | `"turn left --> then right"` becomes `"turn left -> then right"`. |
| Srt.TimingLine | utility.py:31 | The timing line exists exactly when both offsets are non-negative. |
| Srt.Block | utility.py:31 | A block exists exactly when both of its offsets are non-negative. |
| Srt.SrtTimestamp | utility.py:31 | An SRT timestamp always shows its hours, has `,` fourth from the end, and reads back as its millisecond count. |
| Srt.BlockLines | utility.py:31 | A block's parts hold these facts. The timing line is the two `,`-marked, hours-forced timestamps around `" --> "`. Each timestamp reads back as its offset's milliseconds. The block is index line, timing line and text line, each ended by `"\n"`, and the text line is trimmed. |
| Srt.BlockText | utility.py:31 | The f-string of one block from its index, timing line and text. Specified by `BlockTextIndex` and `BlockLines`. |
| Srt.BlockTextIndex | utility.py:31 | A block text opens with its index and `"\n"`, and that index reads back as the number. |
| Srt.BlockIndex | utility.py:31-32 | The block numbered `i` opens with the line `i`. |
| Srt.BlockEndsWithNewline | utility.py:31 | Every block ends with `"\n"`. |
| Srt.MapNumbered | utility.py:30-33 | Enumerating with a formatter that may fail succeeds exactly when every element succeeds. It then gives exactly one result per element. |
| Srt.MapNumberedAt | utility.py:30-33 | Result `k` is the formatter applied to element `k` with number `first + k`, so input order is kept. |
| Srt.Blocks | utility.py:30-33 | The blocks exist exactly when every segment has non-negative offsets. There is then one block per segment. |
| Srt.BlocksAt | utility.py:30-33 | Block `k` is the block of segment `k`, numbered `k + 1`. |
| Srt.BlockStartsWithIndex | utility.py:30-33 | Block `k` opens with the index line `k + 1`. |
| Srt.BlocksEnded | utility.py:30-33 | Every block of a transcript ends with `"\n"`. |
| Srt.Join | utility.py:34 | `"\n".join(parts)`. Specified by `JoinAt`. |
| Srt.JoinAt | utility.py:34 | In `"\n".join(parts)`, part `k` sits at its offset. It is followed by `"\n"` and then the next part unless it is last, and nothing follows the last. |
| Srt.DocumentLayout | utility.py:34 | Joining `"\n"`-ended blocks puts each block at its offset, ended by its own `"\n"`. Every block but the last is followed by a second `"\n"`, which makes the blank line. |
| Srt.WriteSrt | utility.py:26-34 | `write_srt` succeeds exactly when every segment has non-negative offsets. The empty transcript gives `""`. |
| Srt.WriteSrtJoin | utility.py:30-34 | A valid transcript's document is the `"\n"`-join of its blocks. |
| Srt.WriteSrtBlock | utility.py:30-34 | In a valid transcript's document, the block of segment `k` is placed `k`-th and opens with the index `k + 1`. |
| Srt.WriteSrtSingle | utility.py:26-34 | A one-segment transcript is that segment's block, numbered 1, with no separator. |
| Srt.OneSegment | utility.py:26-34 | `[{start: 0, end: 1.5, text: " Hello world "}]` gives `"1\n00:00:00,000 --> 00:00:01,500\nHello world\n"`. |

## Left out

- Millis: models `round(seconds * 1000.0)` on exact reals. The IEEE-754 rounding of the float product, which can move a value sitting exactly on a half-millisecond, is not modelled.
- `python -O`, which removes the `assert` on line 8 so that a negative offset is formatted rather than rejected, is not modelled.
- A segment without a `start`, `end` or `text` key would raise `KeyError`. A non-string text would raise `AttributeError`. Segments are typed records in the model, so neither case can occur.
- `write_srt` accepts any iterator. The model takes a finite sequence, which is what the list comprehension consumes.
- `TextLine.IsWhitespace` lists the characters for which Python's `str.isspace` holds. Unicode database updates beyond that list are not tracked.
- A negative offset fails the `assert` on line 8 (an `AssertionError`); the model returns `Failure(NegativeTimestamp)`.
- Hours of 100 or more print with more than two digits, since `:02d` only pads (`HoursWidth`).
- A sanitised text line can still contain `-->`, since `"--->"` becomes `"-->"` (`ArrowSurvives`, `ReplaceCanLeaveArrow`). The model does not claim the delimiter always disappears.
- Timestamp: offsets are exact reals, so the non-finite floats are not modelled. `float("inf")` passes the `assert` and then makes `round` raise `OverflowError` on line 9; `float("nan")` fails the `assert`.
- Not part of this model, because they are user-interface code or calls into foreign libraries:
  - `src/app.py`: Streamlit widgets, temporary files and the `transformers` pipeline. Its call to `write_srt` is commented out.
  - `streamlit_whisper.py`: a Streamlit page calling `whisper`.
  - `src/model.py`: a cached pipeline constructor.
  - `src/config.py`: page configuration and a directory creation.
