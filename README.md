# coco utilities — a verified model

coco is the SSH front end of Jumpserver. When a user connects, coco shows a
menu and reads the user's choice one keystroke at a time over the SSH channel.
It then rebuilds the command the user typed from what a virtual terminal
displays. This project models the helpers in `coco/utils.py` that do this, plus
the small string helpers next to them, and proves what they promise.

- `net_input` (module `NetInput`, file `net_input.dfy`) is the read loop.
  Each chunk the peer sends is a backspace, a Ctrl-C, a Ctrl-D, an escape or
  unsupported key, an enter key, or a typed chunk. The `if` chain tests them in
  that order. The loop echoes or masks each chunk and keeps a buffer of typed
  chunks. It returns the parsed command line on enter, `'q'` on Ctrl-D, and
  `None` when the peer is closed or sends nothing. The peer is a class `Client`
  with a queue of incoming chunks, a `closed` flag and a log of what was sent.
  The method `NetInput` has the source's `while True` loop. It is proved
  against the function `Run`, which describes the whole session from a buffer.
  The body of the loop for one chunk, the `if` chain, is the method `Respond`.
  It is proved against `TurnOf`, which describes one turn of the session.
  The session lemmas are stated about `Run`.
- `TtyIOParser` (module `TtyParser`) is a class. Its screen state is the list
  of chunks fed since the last reset. `ParseInput` and `ParseOutput` are the
  source's loops. Each is proved equal to a function of the rows the emulator
  displays (`ParseInputOf`, `ParseOutputOf`). The prompt pattern
  `^\[?.*@.*\]?[\$#]\s|mysql>\s` is modelled exactly. The first alternative is
  anchored and its `.*` is greedy, so it removes everything up to the last
  `$ ` or `# ` that has an `@` before it on the same line. Then every
  `mysql>` followed by white space is removed, left to right.
- `split_string_int` (module `SplitStringInt`) is a method with the source's
  loop. It is proved equal to the items of `Runs(s)`, the maximal digit and
  non-digit runs of `s`.
- `wrap_with_line_feed`, `wrap_with_color` and its fixed-colour variants
  (module `Wrap`) are functions.
  A decoder reads a coloured string back, to show that `wrap_with_color`
  writes the codes in the order bold, underline, background, colour.
- `find_chinese`, `size_of_str_with_zh`, `align_with_zh`, `format_with_zh` and
  `item_max_length` (module `ZhWidth`) compute display widths; `int_length`
  is there too. A character in
  U+4E00..U+9FA5 takes two columns and any other character takes one.
- The colon grouping of `get_private_key_fingerprint` (module `Fingerprint`).
- Module `Strings` holds Python's `str`/`bytes` distinction, `str.isspace`,
  `strip`, repetition, `join` and `split`.

The docstring of `net_input` (coco/utils.py:302) promises the user's input
string, but the code returns `None` when the peer is closed or a read is
empty; the model follows the code. The docstring of `split_string_int`
(coco/utils.py:251) gives `['test-', '01', '-', '02', 'db']` for
`test-01-02-db`; the code turns digit runs into numbers and keeps the `-`
with the last word, giving `['test-', 1, '-', 2, '-db']`; the model follows
the code here too. `parse_output` keeps its rows unstripped
and strips only the joined result (coco/utils.py:126-131).

The source's default arguments are default parameter values here too:
`TtyIOParser(width=80, height=24)`, `parse_output(sep='\n')`,
`wrap_with_line_feed(before=0, after=1)`, `wrap_with_color(color='white',
background=None, bolder=False, underline=False)` (with `""` for `None`),
`bolder=False` of the fixed-colour wraps, `align_with_zh(addin=' ')`,
`item_max_length(maxi=None, mini=None)` (with `0` for `None`) and
`net_input(prompt='Opt> ', sensitive=False, before=0, after=0)`.

## Model

| member | source | states |
|---|---|---|
| Strings.Strip | coco/utils.py:126 | `strip()` is `rstrip()` after `lstrip()`; what that gives is stated by StripSpec and the lemmas below |
| Strings.StripSpec | coco/utils.py:144-147 | `strip()` gives the slice of a row that has no white space at either end; everything cut from either side is white space |
| Strings.StripEmptyIffBlank | coco/utils.py:126-127 | `if line.strip():` fails exactly when the row is all white space |
| Strings.StripIdempotent | coco/utils.py:343 | stripping a stripped line again changes nothing |
| Strings.StrippedIsFixed | coco/utils.py:153 | a string with no white space at its ends is its own `strip()` |
| Strings.Repeat | coco/utils.py:183-184 | `s * n` has `len(s) * max(n, 0)` elements, each a copy of a one-element `s` |
| Wrap.WrapWithLineFeed | coco/utils.py:181-184 | the result is `bytes` exactly when the input is |
| Wrap.UnwrapLineFeed | coco/utils.py:184 | the `str` result is `before` pairs `\r\n`, the text unchanged, then `after` pairs `\r\n`; a negative count adds none |
| Wrap.UnwrapLineFeedBytes | coco/utils.py:182-183 | the same for `bytes`: the added bytes are pairs 13, 10 |
| Wrap.SgrParams | coco/utils.py:212-219 | the list `wrap_with`: `'1'` when bold, `'4'` when underlined, the background code when one is given, then the colour code; DecodeWrapWithColor reads it back |
| Wrap.SgrPrefixShape | coco/utils.py:212-225 | the escape prefix is ASCII and its joined parameter list holds only digits and `;` |
| Wrap.WrapWithColor | coco/utils.py:221-229 | the result is `bytes` exactly when the text is |
| Wrap.DecodeWrapWithColor | coco/utils.py:187-229 | decoding the result gives back the codes bold, underline, background (when given), colour in that order, and the text unchanged |
| Wrap.NamedWrapsDecode | coco/utils.py:232-245 | `wrap_with_warning`, `wrap_with_info` and `wrap_with_primary` write red, brown and green, bold on request; `wrap_with_title` writes black on green |
| Wrap.WrapWithColorEncodes | coco/utils.py:221-229 | for ASCII text, the `bytes` result is the UTF-8 encoding of the `str` result |
| TtyParser.CleanPs1 | coco/utils.py:107-110 | `clean_ps1_etc`: removes the anchored prompt up to its last possible end, then every `mysql>` prompt; stated by the lemmas below |
| TtyParser.LastPromptMark | coco/utils.py:107 | finds the last position where the anchored prompt alternative can end, or reports that there is none |
| TtyParser.LastPromptMarkSkips | coco/utils.py:107 | positions without `$` or `#` never end the prompt alternative |
| TtyParser.RemoveMysqlPrompts | coco/utils.py:107-110 | removing `mysql>` prompts never lengthens the row |
| TtyParser.RemoveMysqlPromptsNone | coco/utils.py:107-110 | a row without `>` is left unchanged |
| TtyParser.CleanPs1Empty | coco/utils.py:109-110 | the pattern removes nothing from the empty row |
| TtyParser.CleanShellRow | coco/utils.py:107-110 | `user@host$ cmd` becomes `cmd` |
| TtyParser.CleanMysqlRow | coco/utils.py:107-110 | `mysql> cmd` becomes `cmd` |
| TtyParser.NonBlankRowsAppend | coco/utils.py:125-128 | keeping the non-blank rows of two screen parts keeps those of each part, in order |
| TtyParser.NonBlankRowsSingle | coco/utils.py:126-128 | one row is kept exactly when it is not blank |
| TtyParser.BlankRowsVanish | coco/utils.py:125-128 | an all-blank screen keeps no row in either parse |
| TtyParser.StrippedRowsAreNonBlankRowsStripped | coco/utils.py:143-147 | `parse_input` keeps the same rows as `parse_output`, each stripped |
| TtyParser.StrippedRowsLast | coco/utils.py:143-149 | the last kept row is the last non-blank row of the screen, stripped |
| TtyParser.ParseInputOf | coco/utils.py:133-153 | what `parse_input` answers for the displayed rows; stated by ParseInputTakesLastRow and the lemmas below |
| TtyParser.ParseInputTakesLastRow | coco/utils.py:143-153 | `parse_input` is the last non-blank row, stripped, without the prompt, stripped again |
| TtyParser.ParseInputAllBlank | coco/utils.py:148-153 | a blank screen gives `''` |
| TtyParser.ParseInputIsStripped | coco/utils.py:153 | the answer never starts or ends with white space |
| TtyParser.TakesOnlyRow | coco/utils.py:143-153 | a single non-blank row with blank rows below is the one that is parsed |
| TtyParser.ParseInputShellPrompt | coco/utils.py:133-153 | a screen showing `user@host$ cmd` gives `cmd` |
| TtyParser.ParseInputMysqlPrompt | coco/utils.py:133-153 | a screen showing `mysql> cmd` gives `cmd` |
| TtyParser.ParseOutputOf | coco/utils.py:112-131 | what `parse_output` answers for the displayed rows; stated by ParseOutputDropsPromptRow and the lemmas below |
| TtyParser.ParseOutputDropsPromptRow | coco/utils.py:120-131 | the last non-blank row (the new prompt) is dropped and the rest are joined with `sep`, unstripped, then the result is stripped |
| TtyParser.ParseOutputOnlyPrompt | coco/utils.py:131 | with fewer than two non-blank rows the output is `''` |
| TtyParser.ParseOutputOneRow | coco/utils.py:112-131 | one output row above the prompt gives that row stripped |
| TtyParser.TtyIOParser.constructor | coco/utils.py:103-107 | a new parser has a screen of the given size, 80 by 24 when none is given, that has been fed nothing |
| TtyParser.TtyIOParser.Feed | coco/utils.py:122-123 | feeding adds the chunk to what the screen has been fed |
| TtyParser.TtyIOParser.Reset | coco/utils.py:130 | a reset screen has been fed nothing |
| TtyParser.TtyIOParser.ParseOutput | coco/utils.py:112-131 | answers `ParseOutputOf` of the rows shown after feeding the data, and resets the screen |
| TtyParser.TtyIOParser.ParseInput | coco/utils.py:133-153 | answers `ParseInputOf` of the rows shown after feeding the data, and resets the screen |
| NetInput.Client.Recv | coco/utils.py:310 | gives the next chunk, or `b''` when none is left |
| NetInput.Client.Send | coco/utils.py:321 | logs the bytes sent |
| NetInput.Client.SendUnicode | coco/utils.py:307 | logs the text sent |
| NetInput.Classify | coco/utils.py:314-339 | the kind of a chunk, tested in the order of the `if` chain: backspace, Ctrl-C, Ctrl-D, escape or unsupported, enter, anything else |
| NetInput.Echo | coco/utils.py:345-348 | a sensitive chunk is echoed as one `*` per byte, any other chunk as itself |
| NetInput.Answer | coco/utils.py:329-343 | `None` for a closed session, `'q'` after Ctrl-D, and the stripped parsed line of the typed chunks after enter |
| NetInput.TurnOf | coco/utils.py:313-349 | one turn of the loop for one chunk: the new buffer or the outcome, and what is written; stated per key by the lemmas below |
| NetInput.Run | coco/utils.py:309-349 | a session reads no more chunks than the peer has |
| NetInput.RunEnds | coco/utils.py:310-312 | a line is returned only right after an enter key and `'q'` exactly after a Ctrl-D; `None` comes only from a closed peer, an empty read, or no more chunks |
| NetInput.CtrlDQuits | coco/utils.py:329-331 | Ctrl-D returns `'q'` whatever came before it, and nothing after it is read |
| NetInput.TypedThenEnter | coco/utils.py:339-349 | typed chunks are appended to the buffer and echoed in order; enter then writes `\r\n\r\n` and submits exactly that buffer |
| NetInput.BackspaceUndoesTyped | coco/utils.py:314-322 | a backspace after a typed chunk removes that chunk and writes the backspace bytes |
| NetInput.BackspacePops | coco/utils.py:314-322 | a backspace on any non-empty buffer removes its last chunk, writes the table's erasing bytes, and the session goes on from the shorter buffer |
| NetInput.IgnoredKeepsBuffer | coco/utils.py:334-336 | an escape sequence or unsupported key writes `b''` and the session goes on with the buffer unchanged |
| NetInput.BackspaceOnEmptyRings | coco/utils.py:319-321 | a backspace on an empty buffer writes the bell and changes nothing |
| NetInput.InterruptForgets | coco/utils.py:324-328 | after Ctrl-C the session does not depend on what was typed before |
| NetInput.InterruptClears | coco/utils.py:324-328 | Ctrl-C on any buffer writes `^C\r\n`, the prompt and a space, and the session goes on from an empty buffer |
| NetInput.InterruptThenEnter | coco/utils.py:324-343 | Ctrl-C then enter writes `^C\r\n` with the prompt, then `\r\n\r\n`, and submits an empty buffer |
| NetInput.InterruptThenEnterAnswer | coco/utils.py:324-343 | Ctrl-C then enter answers `''` whenever the terminal shows only blank rows before anything is fed, as a fresh 80x24 screen does |
| NetInput.SensitiveOnlyMasks | coco/utils.py:345-348 | masking the echo changes neither the outcome nor the chunks read nor the number of writes |
| NetInput.ClosedEndsAtOnce | coco/utils.py:310-312 | a closed peer or an empty read ends the session with `None` and writes nothing |
| NetInput.AnswerIsParsedLine | coco/utils.py:341-343 | the extra `strip()` on the parsed line changes nothing |
| NetInput.Respond | coco/utils.py:313-349 | for one chunk, writes what `TurnOf` says and either goes on with its new buffer or ends with the answer for its outcome |
| NetInput.NetInput | coco/utils.py:299-312 | writes the prompt wrapped in line breaks, then does exactly what `Run` says from an empty buffer: same answer, same writes, same chunks read |
| SplitStringInt.Lower | coco/utils.py:265 | lower-casing never gives an upper-case ASCII letter and keeps digits digits |
| SplitStringInt.LowerString | coco/utils.py:265-269 | `lower()` keeps the length, turns each ASCII capital into its small letter, keeps every other character in place, and gives all digits exactly when the word was all digits |
| SplitStringInt.ToItem | coco/utils.py:264-269 | a finished run becomes `int(word)` when it is all digits and `word.lower()` otherwise; RunItem states which |
| SplitStringInt.Runs | coco/utils.py:257-269 | the runs the loop builds, one character at a time; RunsConcat and RunsAreMaximal state what they are |
| SplitStringInt.RunsConcat | coco/utils.py:257-269 | the runs put back together give the string |
| SplitStringInt.RunsAreMaximal | coco/utils.py:260-267 | each run is non-empty and of one kind, and neighbouring runs are of different kinds |
| SplitStringInt.RunItem | coco/utils.py:264-269 | a run becomes an `int` exactly when it is made of digits |
| SplitStringInt.SplitAlternates | coco/utils.py:248-270 | the list alternates between `int(run)` for digit runs and `run.lower()` for the others |
| SplitStringInt.SplitEmpty | coco/utils.py:269-270 | the empty string gives `['']` |
| SplitStringInt.SplitStringInt | coco/utils.py:248-270 | the loop returns one item per maximal run of `s`, in order |
| ZhWidth.AsString | coco/utils.py:360-361 | `str(s)` for a string or an int: the string itself, or the decimal text with a `-` for a negative number |
| ZhWidth.Decimal | coco/utils.py:379-380 | `str(n)` is a non-empty string of digits |
| ZhWidth.DecimalValue | coco/utils.py:360-361 | `str(n)` reads back as `n` |
| ZhWidth.IntLength | coco/utils.py:403-404 | `int_length(n)` is at least 1, and at most `k` exactly when `n < 10 ** k` for `n >= 0`; a negative `n` takes one more for its sign |
| ZhWidth.DecimalLength | coco/utils.py:403-404 | `str(n)` has at most `k + 1` digits exactly when `n < 10 ** (k + 1)` |
| ZhWidth.FindChinese | coco/utils.py:355-356 | every match is one character of `s` in U+4E00..U+9FA5, and every such character of `s` is matched |
| ZhWidth.FindChineseAppend | coco/utils.py:355-356 | matches are found left to right, part by part |
| ZhWidth.FindChineseSnoc | coco/utils.py:355-356 | scanning one more character appends it to the matches exactly when it is Chinese |
| ZhWidth.WidthCountsChinese | coco/utils.py:378-385 | length plus number of matches equals the display width |
| ZhWidth.SizeOfStrWithZh | coco/utils.py:378-385 | `len(s) + len(find_chinese(s))` of the value's text; SizeIsDisplayWidth states what it is |
| ZhWidth.SizeIsDisplayWidth | coco/utils.py:378-385 | `size_of_str_with_zh` is the value's display width |
| ZhWidth.IntSize | coco/utils.py:379-380 | a number's size is the length of its text |
| ZhWidth.AlignWithZh | coco/utils.py:359-368 | the result starts with the value's text |
| ZhWidth.AlignWidth | coco/utils.py:362-368 | the result is the text followed by one copy of `addin` per missing column, so it adds `addin`'s width once per missing column |
| ZhWidth.AlignFillsColumns | coco/utils.py:359-368 | with a one-column pad the result is exactly `length` columns wide, or the text unchanged when it is already as wide |
| ZhWidth.Fields | coco/utils.py:372-374 | one field per pair, as far as the shorter list goes; each starts with its value's text and takes its size in columns, or the text's width when that is wider |
| ZhWidth.FormatWithZh | coco/utils.py:371-375 | the fields joined with one space; FormatWithZhWidth states its width |
| ZhWidth.FormatWithZhWidth | coco/utils.py:371-375 | the formatted line's display width is, per field, its size or the display width of its text when that is wider, plus one space between fields |
| ZhWidth.MaxOf | coco/utils.py:397 | `max` is an element no smaller than any other |
| ZhWidth.ItemMaxLength | coco/utils.py:388-400 | `item_max_length` without `key`; ItemMaxLengthIsMax and ItemMaxLengthEmpty state its value |
| ZhWidth.ItemMaxLengthIsMax | coco/utils.py:388-400 | for a non-empty list the result is the largest of the item sizes, `maxi` and `mini` (when given) and equals one of them |
| ZhWidth.ItemMaxLengthEmpty | coco/utils.py:393-394 | an empty list gives 1 |
| ZhWidth.ItemMaxLengthWithKey | coco/utils.py:389-390 | with a `key`, an empty list still gives 1 |
| Fingerprint.HexByte | coco/utils.py:282 | each byte becomes two hex digits |
| Fingerprint.Hexlify | coco/utils.py:282 | `hexlify` gives two hex digits per byte |
| Fingerprint.Pairs | coco/utils.py:283 | the two-byte slices of the hex line, in order; PairsShape states their shape |
| Fingerprint.PairsShape | coco/utils.py:283 | the slices put back together give the line; all have two bytes except an odd last one |
| Fingerprint.PairsOfHexlify | coco/utils.py:282-283 | the pairs are the hex digits of the fingerprint's bytes, one pair per byte |
| Fingerprint.PrivateKeyFingerprint | coco/utils.py:281-283 | the hex text of the fingerprint in colon-separated pairs; UngroupFingerprint and FingerprintLength state what it is |
| Fingerprint.UngroupFingerprint | coco/utils.py:281-283 | splitting the result on `:` gives the pairs back, and joining them gives the hex text |
| Fingerprint.FingerprintLength | coco/utils.py:281-283 | the result has three bytes per fingerprint byte, less one |

## Left out

- The pyte terminal emulator (`pyte.Screen`, `pyte.ByteStream`, `screen.display`) is a parameter of type `Emulator`. It maps the screen size and the chunks fed since the last reset to the rows displayed. `ByteStream` may keep a partly decoded UTF-8 sequence across a reset; the model treats it as keeping nothing.
- NetInput.InterruptThenEnterAnswer: the emulator is a parameter, so the lemma takes as a hypothesis that a screen with nothing fed shows only blank rows. pyte's fresh 80x24 screen does.
- The `IndexError` that `parse_output` catches comes from inside pyte, so the model has no such case.
- `parse_input` has no `try`, so in the source an error raised by pyte leaves `net_input` as an exception. The emulator here is a total function, so the model has no such exit.
- The tables of `coco/char.py` (`BACKSPACE_CHAR`, `ENTER_CHAR`, `UNSUPPORTED_CHAR`, `BELL_CHAR`) are not part of this model. They are a `CharTable` parameter with any contents.
- `client.recv(1)`, `send` and `send_unicode` are a queue of chunks and a log of writes. The chunk sizes, blocking and concurrency of the SSH channel are not modelled. `closed` keeps its value during one call.
- NetInput.Run: the session is described by the chunks the peer will deliver, fixed in advance. A peer that reacts to what is echoed is not modelled.
- SplitStringInt.SplitStringInt: `isdigit` and `lower` are modelled for ASCII only. Python also counts other Unicode digits (on which `int()` may fail) and lower-cases non-ASCII letters.
- ZhWidth.AlignWithZh: values are `str` or `int`. `str()` of any other object is not modelled. `size_of_str_with_zh` raises `TypeError` for other objects, and that is left out too.
- ZhWidth.ItemMaxLength: `maxi` and `mini` are used only when truthy, so `0` stands for `None`.
- Wrap.WrapWithColor: the `bytes` path decodes and re-encodes UTF-8. The model wraps the bytes directly. That is the same when the input is valid UTF-8, and the model does not raise on invalid input.
- `get_private_key_fingerprint` reads the fingerprint from a paramiko key. The fingerprint bytes are a parameter here.
- Not modelled, because they run on the operating system, paramiko, gettext or Python's object model: the SSH key helpers, `sort_assets`, `is_obj_attr_has`/`is_obj_attr_eq`, gettext and language switching, psutil monitoring, `gzip_file`, `make_message`, `Singleton`, `ignore_error` and `get_logger`.
