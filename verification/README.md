# Child-theme logic of intentionally-blank-child, modelled in Dafny

This project models the logic of a WordPress child theme, the part that does
not depend on WordPress itself:

- **Contact Form 7 markup parsing** (`inc/forms.php`).
  - `split_form_parts` removes HTML comments and line breaks. It then cuts the
    markup into text runs, `<label>…</label>` runs, paired `[name …]…[/name]`
    runs and bare `[name …]` tags.
  - `parse_form_elements` walks the markup cut at its `[...]` tags. It turns
    buffered text into text blocks and labels, and turns each scanned tag into
    a field record.
  - `parse_tag_options` adds `min`/`max`/default keys to text-like fields. It
    adds the option list, a `default:N` pick and the `multiple` flag to choice
    fields.
- **E-mail obfuscation** (`inc/email-encryption.php`).
  - `Crypt::encrypt` is Base64 followed by a Caesar rotation of the letters by
    `SHIFT_CHARS_BY` (10). `Crypt::decrypt` reverses both.
  - The REST filter replaces the `email` field of a response when the post's
    e-mail meta value looks like an address.
- **`.env` loading** (`inc/env.php`). `load_env` reads `name=value` lines into
  `$_ENV`, skips `#` comments and never overwrites a variable that is already
  set.
- **Event list columns** (`inc/events.php`).
  - Two columns are inserted after the first two.
  - The date column is made sortable.
  - A request ordered by that column is rewritten to order by the meta value.
- **Upload types** (`inc/media.php`). SVG is allowed and BMP is removed.

The PHP built-ins the code calls are modelled in their own modules:

- `PhpStrings` has `trim`, `rtrim`, `strpos`, `str_replace`, `strip_tags` and
  PHP string truthiness.
- `PhpArrays` has string-keyed arrays as ordered association lists:
  `$a[$k] = $v`, `unset`, `array_merge` and `array_slice`.
- `Base64` follows section 4 of RFC 4648.

The PCRE patterns of the form code are written out as explicit leftmost-first
scanners (`FormPatterns`). These follow PCRE's rules:

- alternatives are tried in order;
- `.*?` is lazy;
- the `\3` back-reference backtracks to shorter name prefixes;
- the `i` flag makes matching caseless.

`Crypt.Rotate`, `FormParts.SplitFormParts`, `FormElements.ScanParts` (the
foreach of `parse_form_elements`), `FormElements.ParseFormElements`,
`TagOptions.ParseTagOptions` and `Env.Environment` keep the source's loops and
state updates as methods. Each method is proved equal to a specification
function, and the properties are proved about that function.

Files:

- `php_strings.dfy`, `php_arrays.dfy` and `base64.dfy` hold the built-ins;
- `form_patterns.dfy`, `form_parts.dfy`, `tag_options.dfy` and
  `form_elements.dfy` hold `inc/forms.php`;
- `crypt.dfy` holds `inc/email-encryption.php`;
- `env.dfy`, `events.dfy` and `media.dfy` each hold the file of the same name.

## Model

| member | source | states |
|---|---|---|
| PhpStrings.Trim | inc/forms.php:91 | trim never lengthens a string. The result neither starts nor ends with trim-space. A string already free of trim-space at both ends is returned unchanged |
| PhpStrings.TrimIsMiddle | inc/forms.php:91 | the result of trim is a run of the input with only trim-space before it and only trim-space after it |
| PhpStrings.TrimKeepsAbsent | inc/env.php:19 | trim only removes characters, so a character absent from the input is absent from the result |
| PhpStrings.TrimEndChar | inc/forms.php:116 | `rtrim($s, "*")` keeps a prefix of the input, every character it drops is the stripped character, and the prefix does not end in it |
| PhpStrings.Find | inc/forms.php:37-42 | the literal search inside the patterns (`<!--`, `-->`, `[/name]`, and `<label` at lines 98-99): a reported position is at or after the start and holds the pattern there, exactly or caselessly |
| PhpStrings.FindIsFirst | inc/forms.php:98-99 | the search returns the first occurrence, as the lazy and leftmost matches of the patterns need. No occurrence is found only when there is none at all |
| PhpStrings.FindChar | inc/env.php:19 | the position found holds the character searched for |
| PhpStrings.FindCharIsFirst | inc/env.php:19 | that position is the first such, and "none" means there is no such character |
| PhpStrings.FindCharAt | inc/env.php:19 | a character with none of its kind before it is the position found |
| PhpStrings.StrRemove | inc/forms.php:99 | str_replace with "" never lengthens the text |
| PhpStrings.StrRemoveSuffix | inc/forms.php:99 | removing a suffix that occurs nowhere earlier leaves exactly the text before it |
| PhpStrings.TagEnd | inc/forms.php:103 | inside a tag, with nested `<` counted and quotes honoured, the end found is just after a `>` that follows the tag's start |
| PhpStrings.InTag | inc/forms.php:103 | one character inside a tag: a `<` not followed by whitespace opens a nested level, a `>` closes one, and a quote hides `<` and `>` until it is matched |
| PhpStrings.StripHead | inc/forms.php:103 | one step of strip_tags outside a tag: it consumes at least one character and keeps no more than it consumes |
| PhpStrings.StripTags | inc/forms.php:103 | strip_tags never lengthens the text |
| PhpStrings.StripTagsPlain | inc/forms.php:103 | the result has no NUL, and each `<` in it is followed by whitespace. A text changes exactly when it is not already of that form |
| PhpStrings.StripTagsKeepsSpacedOpen | inc/forms.php:103 | a `<` followed by whitespace is kept, together with that whitespace |
| PhpStrings.StripTagsNested | inc/forms.php:103 | `<a<b>c>d` becomes `d`, because a nested `<` is closed by the first `>` |
| PhpStrings.StripTagsSpacedText | inc/forms.php:103 | `Age < 18` comes back unchanged |
| PhpStrings.TrimKeepsNoTagOpens | inc/forms.php:103 | trimming text that has no NUL and no `<` before a non-space keeps it that way |
| PhpArrays.IndexOf | inc/events.php:54 | a found index holds the key, and "not found" holds exactly when the key is absent |
| PhpArrays.Get | inc/events.php:54 | `$a[$k]` is found exactly when the key exists (array_key_exists; the isset and null test is in Events.OrdersByDate) |
| PhpArrays.GetAt | inc/events.php:54 | in an array without repeated keys, reading the key of an entry gives that entry's value |
| PhpArrays.Set | inc/media.php:12 | `$a[$k] = $v` on an ordered array |
| PhpArrays.SetSpec | inc/media.php:12 | after `$a[$k] = $v`: no key repeats, and `$k` holds `$v`. Every other key reads as before. Existing keys keep their order, and an existing key keeps its place (same length). A new key is appended at the end |
| PhpArrays.SetSame | inc/events.php:44 | assigning the value a key already holds changes nothing |
| PhpArrays.Unset | inc/media.php:14 | `unset($a[$k])` on an ordered array |
| PhpArrays.UnsetSpec | inc/media.php:14 | after unset the key is absent, every other key reads as before and no key repeats. Unsetting a present key drops exactly its entry, and the other entries keep their order. Unsetting an absent key changes nothing |
| PhpArrays.Merge | inc/events.php:15-19 | array_merge of two string-keyed arrays |
| PhpArrays.MergeKeepsOrder | inc/events.php:15-19 | array_merge repeats no key, and the keys of the first array stay in their places at the front |
| PhpArrays.MergeGet | inc/events.php:55-58 | in array_merge a key of the second array takes the second array's value; any other key keeps its value from the first |
| PhpArrays.MergeFresh | inc/events.php:15-19 | array_merge of arrays with no key in common is their concatenation |
| PhpArrays.DistinctAppend | inc/events.php:15-19 | two arrays without a common key, put together, repeat no key |
| PhpArrays.Slice | inc/events.php:16-18 | array_slice with an offset and an optional length |
| PhpArrays.SliceSpec | inc/events.php:16-18 | `array_slice($a, 0, n)` and `array_slice($a, n)` repeat no key, put back together give `$a`, and the first has `min(n, count)` entries |
| Base64.SymbolValue | inc/email-encryption.php:26 | a symbol that decodes to a value is that value's symbol |
| Base64.SymbolValueOfSymbol | inc/email-encryption.php:17 | every 6-bit value has its own alphabet symbol (never `=`), which decodes back to it |
| Base64.Encode | inc/email-encryption.php:17 | base64_encode writes 4 symbols for every started group of 3 bytes |
| Base64.Decode | inc/email-encryption.php:26 | strict Base64 decoding; None for text that is not Base64 |
| Base64.DecodeEncode | inc/email-encryption.php:15-29 | decoding the encoding of any byte string gives the string back |
| Base64.EncodeUsesAlphabet | inc/email-encryption.php:17 | every output byte is an alphabet symbol, or a `=` among the last two positions |
| Crypt.RotateByte | inc/email-encryption.php:46-62 | one byte of the rotation: letters move by the shift with one wrap, other bytes stay |
| Crypt.RotateByteIsCaesar | inc/email-encryption.php:41-62 | for a shift of at most 26 either way, an upper-case letter `c` becomes `A + (c - A + shift) mod 26`, and a lower-case letter likewise. Every other byte is unchanged |
| Crypt.RotateByteInverse | inc/email-encryption.php:41-62 | rotating a byte by `shift` and then by `-shift` restores it, for a shift of at most 26 |
| Crypt.Rotate | inc/email-encryption.php:41-65 | the loop over the bytes yields the byte-wise rotation of the whole input |
| Crypt.Rotated | inc/email-encryption.php:41-65 | every byte of the input rotated, in order |
| Crypt.RotatedInverse | inc/email-encryption.php:41-65 | rotating a string by `shift` and then by `-shift` restores it |
| Crypt.Shift | inc/email-encryption.php:31-34 | the rotation by `SHIFT_CHARS_BY` (10) |
| Crypt.Unshift | inc/email-encryption.php:36-39 | the rotation by -10 |
| Crypt.ShiftInverse | inc/email-encryption.php:31-39 | unshift undoes shift, and shift undoes unshift |
| Crypt.Encrypt | inc/email-encryption.php:15-21 | Base64 encoding, then the shift |
| Crypt.Decrypt | inc/email-encryption.php:23-29 | the unshift, then Base64 decoding |
| Crypt.DecryptEncrypt | inc/email-encryption.php:15-29 | `decrypt(encrypt($s))` is `$s` for every byte string |
| Crypt.EncryptShape | inc/email-encryption.php:15-21 | the ciphertext has Base64's length, and every byte is a Base64 symbol or trailing `=` padding |
| Crypt.EncryptEmailInResponse | inc/email-encryption.php:68-80 | the response data with `email` replaced by the encryption when the meta value qualifies |
| Crypt.EncryptEmailInResponseSpec | inc/email-encryption.php:68-80 | if the meta value is non-empty and contains `@`, `(at)` or `[at]`, the response's `email` holds its encryption. Every other field is untouched, the response is unchanged otherwise, and no key repeats |
| Env.SplitLine | inc/env.php:19 | the trimmed name and value of a line split at its first `=` |
| Env.SplitLineAtFirst | inc/env.php:19 | the name holds no `=`. There is a value exactly when the line has an `=`, and then the name and value are the trimmed text before and after the first `=` |
| Env.SplitLineOfEntry | inc/env.php:19 | a trimmed name without `=` and a trimmed value written as `name=value` split back into that name and value |
| Env.Loaded | inc/env.php:15-24 | the environment after the lines, in order |
| Env.LoadedKeepsExisting | inc/env.php:20-23 | a variable already set keeps its value whatever lines follow |
| Env.LoadedKeys | inc/env.php:15-24 | after loading, a name is set exactly when it was set before or some non-comment line names it |
| Env.LoadedFirstWins | inc/env.php:20-23 | a new variable takes the value from the first line that names it |
| Env.LoadedSkipsComment | inc/env.php:16-18 | inserting a comment line anywhere changes nothing |
| Env.LoadedAllPresent | inc/env.php:20-23 | lines that name only variables already set change nothing |
| Env.LoadedIdempotent | inc/env.php:9-25 | loading the same lines twice is the same as loading them once |
| Env.Environment.constructor | inc/env.php:9 | the environment starts with the given variables |
| Env.Environment.LoadLines | inc/env.php:15-24 | the foreach leaves the environment equal to the specification fold over the lines |
| Env.Environment.LoadEnv | inc/env.php:9-25 | a missing file leaves the environment as it was; otherwise the lines are loaded |
| Events.AddCustomColumns | inc/events.php:13-20 | the first two columns, then the two new ones, then the rest, put together with array_merge |
| Events.AddCustomColumnsInserts | inc/events.php:13-20 | with neither new column present, the result is the first two columns, then date and main-event, then the rest (two entries longer) |
| Events.AddCustomColumnsDistinct | inc/events.php:13-20 | the result repeats no column |
| Events.ColumnsSplitAtTwo | inc/events.php:16-18 | a column's value is found among the columns from the third on, or else among the first two |
| Events.AddCustomColumnsSources | inc/events.php:15-19 | each column's value comes from the columns after the second if it is there, else from the new pair, else from the first two |
| Events.AddCustomColumnsKeepsOthers | inc/events.php:13-20 | every column other than the two new ones keeps its value |
| Events.AddCustomColumnsLabels | inc/events.php:15-19 | each new column gets its label, unless the same key already stood after the second column, in which case that old label wins |
| Events.MakeCustomColumnsSortable | inc/events.php:42-46 | the columns with `event_datum` set to sort by `event_datum` |
| Events.MakeSortableMarksDate | inc/events.php:42-46 | the date column sorts by `event_datum`, and no other column changes. No key repeats, and applying it twice is the same as applying it once |
| Events.SortByDateValue | inc/events.php:52-61 | the request, merged with the meta-value ordering when it is ordered by `event_datum` |
| Events.SortByDateValueRewrites | inc/events.php:52-61 | a request ordered (loosely) by `event_datum` gets `meta_key = event_datum` and `orderby = meta_value`, and other query variables are untouched. Any other request is unchanged |
| Events.SortByDateValueIdempotent | inc/events.php:52-61 | rewriting a request twice is the same as rewriting it once |
| Media.AlterMimeTypes | inc/media.php:9-16 | the types with `svg` set and `bmp` unset |
| Media.AlterMimeTypesSpec | inc/media.php:9-16 | `svg` maps to `image/svg+xml`, `bmp` is gone and every other type is unchanged. No key repeats, and the filter is idempotent |
| FormPatterns.NameEnd | inc/forms.php:42-43 | the name run of `[a-zA-Z0-9_]+` (or `[\w*]+`) stops at the first non-name character |
| FormPatterns.NameEndIsLongest | inc/forms.php:42-43 | every character up to that point is a name character, so the run is the longest |
| FormPatterns.LabelRunAt | inc/forms.php:41 | a label run starts with a caseless `<label>` and ends with a caseless `</label>` |
| FormPatterns.LabelRunAtIsLazy | inc/forms.php:41 | `.*?` stops at the first `</label>`, and there is no label run when no `</label>` follows |
| FormPatterns.SameNameMatches | inc/forms.php:42 | the back-reference `\3` under the `i` flag compares names caselessly |
| FormPatterns.FindClose | inc/forms.php:42 | a reported `[/k]` closes the head at or after the start of the search |
| FormPatterns.FindCloseIsFirst | inc/forms.php:42 | that `[/k]` is the first one, and "none" means there is none |
| FormPatterns.PairedClose | inc/forms.php:42 | the closing tag found uses a leading piece of the name, 1 to n characters long, and lies after the head |
| FormPatterns.PairedCloseIsFirst | inc/forms.php:42 | backtracking order: the longest name piece that has a closing tag wins, and with it the first closing tag |
| FormPatterns.PairedCloseNoneIff | inc/forms.php:42 | there is no paired close exactly when no leading piece of the name is closed after the head |
| FormPatterns.MatchAt | inc/forms.php:40-44 | a match is non-empty and stays inside the text |
| FormPatterns.MatcherOf | inc/forms.php:40-44 | the matcher of a pattern is sound: non-empty matches inside the text |
| FormPatterns.NextMatch | inc/forms.php:49-54 | the next match starts at or after the search position, and the matcher reports it there |
| FormPatterns.NextMatchIsLeftmost | inc/forms.php:49-54 | no match starts earlier, and "none" means no position matches |
| FormPatterns.SegmentsCover | inc/forms.php:56-67 | the parts concatenate back to the text, and none is empty |
| FormPatterns.NoLabelRunAtBracket | inc/forms.php:41 | the label alternative never matches at a `[` |
| FormPatterns.FormPartAtBracket | inc/forms.php:42-43 | at a `[name…]` head, the paired alternative is taken when a close exists, else the bare tag up to the first `]` |
| FormPatterns.PairedPartNeedsClosingTag | inc/forms.php:42-43 | a head is a part on its own exactly when no leading piece of its name is closed after it. Otherwise the part runs to the end of such a `[/k]` |
| FormPatterns.ShortenedNamePairs | inc/forms.php:42 | `[acceptance x]ok[/acc]` is matched whole: the back-reference backtracks to the prefix `acc` |
| FormPatterns.PairedCloseSkipsLong | inc/forms.php:42 | name pieces too long to fit their closing tag before the end of the text never pair |
| FormParts.RemoveComments | inc/forms.php:37 | removing comments never lengthens the text, and text without `<!--` is unchanged |
| FormParts.RemoveCommentsDropsComment | inc/forms.php:37 | a comment is removed with the text from its `<!--` to the first `-->` after it. The text before it is kept, and the rest is cleaned in the same way |
| FormParts.StripLineBreaks | inc/forms.php:38 | no `\r` or `\n` remains, and text without them is unchanged |
| FormParts.StripLineBreaksAppend | inc/forms.php:38 | removing line breaks works piece by piece: the result for two texts put together is the two results put together |
| FormParts.Normalize | inc/forms.php:37-38 | the text that is cut: comments removed, then line breaks |
| FormParts.FindNextMatch | inc/forms.php:49-57 | the search loop finds the leftmost match from the given position |
| FormParts.SplitAtMatches | inc/forms.php:56-67 | the loop's parts are the leftmost-match segmentation. They concatenate back to the text and none is empty, so array_filter drops nothing |
| FormParts.SplitFormParts | inc/forms.php:35-68 | split_form_parts: the comment- and line-break-free text, cut at the part pattern's matches, with no empty part and nothing lost |
| TagOptions.LastWithPrefix | inc/forms.php:161-168 | the option found is the last one with the prefix (later `min:`/`max:` overwrite earlier ones), and "none" means there is no such option |
| TagOptions.FirstQuoted | inc/forms.php:170-172 | the default is the text inside the leftmost `"…"` pair: no `"` comes before its opening quote and none inside it. There is none only when the markup has fewer than two `"` |
| TagOptions.DefaultDigits | inc/forms.php:182 | a match of `^default:(\d+)$` captures a non-empty run of digits |
| TagOptions.DefaultDigitsShape | inc/forms.php:182 | a matching option is exactly `default:` plus the digits, optionally followed by a final newline (PCRE's `$`) |
| TagOptions.DefaultDigitsAccepts | inc/forms.php:182 | `default:` plus digits matches, with or without a final newline |
| TagOptions.Choices | inc/forms.php:176-179 | the option list is the tag's values in order. A select with `include_blank` gets a null entry in front |
| TagOptions.LastValidDefault | inc/forms.php:181-188 | the default comes from the last `default:N` option that picks an existing, non-null entry; "none" means no option does |
| TagOptions.TagOptionsOf | inc/forms.php:144-196 | the extra keys of a field, by the kind of its tag |
| TagOptions.KeysFollowKind | inc/forms.php:144-196 | text kinds get no option list and no `multiple`. Choice kinds get no `min`/`max`, an option list, `multiple` exactly when that option is given, and a default that is one of the values. Any other kind gets no keys |
| TagOptions.DefaultIsListed | inc/forms.php:181-188 | a `default:N` pick is always one of the tag's values, never the blank entry |
| TagOptions.IncludeBlankShiftsDefault | inc/forms.php:177-188 | with `include_blank`, `default:N` is honoured exactly when 2 ≤ N ≤ count+1, and it picks value N-1 |
| TagOptions.ScanBounds | inc/forms.php:161-168 | the loop over the options yields the last `min:` and `max:` values |
| TagOptions.ScanDefault | inc/forms.php:181-188 | the loop over the options yields the specified default pick |
| TagOptions.ChoiceDefaultStep | inc/forms.php:181-188 | one more option either takes over the pick (a valid `default:N`) or leaves it |
| TagOptions.ParseTagOptions | inc/forms.php:144-196 | parse_tag_options computes exactly the specified keys for the tag's kind |
| FormElements.SplitOnTags | inc/forms.php:79-84 | preg_split with DELIM_CAPTURE and NO_EMPTY: the pieces concatenate back to the markup, and none is empty |
| FormElements.StripClosingTagCuts | inc/forms.php:95 | `preg_replace('/<\/(label\|p\|div)>\s*$/', "")` changes the text exactly when a closing tag followed only by whitespace ends it. It cuts at the leftmost such tag |
| FormElements.StripClosingTag | inc/forms.php:95 | the cleaned buffer is a prefix of the buffer |
| FormElements.LabelOpen | inc/forms.php:98 | a `<label…>` match lies inside the text |
| FormElements.LabelOpenIsLeftmost | inc/forms.php:98 | the match is at the first caseless `<label`, and its `>` is the first one after it. "None" means no `<label` is followed by a `>` |
| FormElements.LabelMatchRemoval | inc/forms.php:99 | removing the matched text (which runs to the end of the buffer) leaves exactly the text before `<label` |
| FormElements.TextBeforeLabel | inc/forms.php:99 | the pre-text is the trimmed text before the label tag |
| FormElements.FlushBuffer | inc/forms.php:94-108 | flushing the buffer emits the specified text blocks and sets the specified label |
| FormElements.Flush | inc/forms.php:94-108 | the blocks and the label a flush of the cleaned buffer produces |
| FormElements.FlushSetsLabel | inc/forms.php:96-106 | the flush unfolded: a label exactly when LabelOpen finds a `<label`, which is then Trim(StripTags(...)) of the text after its `>`, with the block the trimmed text before it; without one the block is the whole buffer. At most one record, a text block. The match is the leftmost by FormElements.LabelOpenIsLeftmost, trim is described by PhpStrings.TrimIsMiddle, and the label text by PhpStrings.StripTagsPlain |
| FormElements.FlushAt | inc/forms.php:94-108 | a flush consumes no tag |
| FormElements.FlushAtEffect | inc/forms.php:94-108 | FlushAt unfolded: a truthy buffer is flushed, its blocks appended, the buffer emptied and the label set to the flush's label. A falsy buffer changes nothing. What the blocks and label are is stated by FormElements.FlushSetsLabel and the lemmas it names |
| FormElements.TakeTag | inc/forms.php:110-128 | a tag advances the tag index by one while tags last, and leaves buffer and label alone |
| FormElements.TakeTagEffect | inc/forms.php:110-128 | at most one record is appended (`|r.elements| <= |st.elements| + 1`) and the earlier ones are kept. One is appended exactly when a next tag exists and is not hidden, response or submit, and it is that tag's field with the current label |
| FormElements.Step | inc/forms.php:90-131 | one piece advances the tag index by at most one |
| FormElements.StepOnlyAppends | inc/forms.php:90-131 | one piece never removes or changes a record: the records before it stay a prefix of those after it |
| FormElements.StepAddsField | inc/forms.php:93-127 | a bracketed piece whose tag makes a field ends the records with that field. Its label is the label of the flush when the buffer was truthy, and the label from before otherwise. The tag index moves on by one, and a truthy buffer is emptied |
| FormElements.Finish | inc/forms.php:134-139 | the final flush appends at most one record and keeps the earlier ones |
| FormElements.FinishEffect | inc/forms.php:134-139 | Finish unfolded: one record is appended exactly when the buffer is truthy and still truthy without its closing tag, and it is the text block of the buffer without that tag. Otherwise the records are unchanged. The cut is stated by FormElements.StripClosingTagCuts |
| FormElements.FinishKeepsOrigins | inc/forms.php:134-139 | the final flush adds no field |
| FormElements.ScanParts | inc/forms.php:86-132 | the foreach, with the records, the buffer, the tag position and the label as its state, ends in the state the step function gives after all pieces |
| FormElements.ParseFormElements | inc/forms.php:71-142 | the loop and the final flush compute the specified element list |
| FormElements.FormElements | inc/forms.php:71-142 | the records of the markup: the step over every piece, then the final flush |
| FormElements.TagOrigins | inc/forms.php:110-114 | the skip filter never adds tags |
| FormElements.FieldOriginsAppend | inc/forms.php:127 | the fields of two record lists put together are the fields of each, in order |
| FormElements.FlushHasNoFields | inc/forms.php:94-108 | a flush emits no field |
| FormElements.FlushAtKeepsOrigins | inc/forms.php:94-108 | a flush leaves the fields emitted so far unchanged |
| FormElements.TakeTagUsesNext | inc/forms.php:110-128 | a bracketed piece consumes the next tag if there is one, and the fields stay those of the consumed, non-skipped tags |
| FormElements.StepUsesTagsInOrder | inc/forms.php:90-131 | each piece keeps the fields equal to the consumed, non-skipped tags, in order |
| FormElements.RunUsesTagsInOrder | inc/forms.php:90-132 | after n pieces, min(tag count, bracketed pieces) tags are consumed, and the fields are those tags minus hidden/response/submit, in order |
| FormElements.FieldsFollowTags | inc/forms.php:71-142 | the fields of the result are the first min(tag count, bracketed pieces) tags without the skipped kinds, in order, so there are never more fields than tags or bracketed pieces |
| FormElements.LabelIsClean | inc/forms.php:103 | `trim(strip_tags(...))` gives a trimmed label with no NUL in which every `<` is followed by whitespace or ends the label |
| FormElements.FlushWellFormed | inc/forms.php:94-108 | a flush emits only truthy text blocks. Its label is trimmed, holds no NUL, and every `<` in it is followed by whitespace or ends the label, as strip_tags then trim leave it |
| FormElements.FlushAtWellFormed | inc/forms.php:94-108 | a flush keeps every record well formed |
| FormElements.TakeTagWellFormed | inc/forms.php:116-127 | a field's markup source is its trimmed bracketed piece, and its label is clean |
| FormElements.StepWellFormed | inc/forms.php:90-131 | each step keeps every record well formed |
| FormElements.RunWellFormed | inc/forms.php:90-132 | the loop keeps every record well formed |
| FormElements.FormElementsWellFormed | inc/forms.php:71-142 | every text block is truthy. Every field's markup source is a trimmed `[...]` piece. Its label is trimmed, holds no NUL, and every `<` in it is followed by whitespace or ends the label |
| FormElements.NoBracketsAllBuffered | inc/forms.php:129-131 | with no bracketed piece, everything goes into the buffer as the trimmed pieces joined, and nothing is emitted |
| FormElements.NoTagsOneBlock | inc/forms.php:134-139 | markup without a `[...]` piece gives at most one text block: the joined text without its trailing closing tag |

## Left out

- Everything that talks to WordPress or Contact Form 7 is left out:
  - the REST routes and `get_all_forms`/`get_form_details`;
  - `WPCF7_ContactForm::get_instance`, `scan_form_tags` and `prop("form")`;
  - `get_post_meta`;
  - the `add_action`/`add_filter` registrations.

  Their results are parameters of the model: the markup, the scanned tags, the
  e-mail meta value and the response data.
- The `FormElementParser` constructor and `parse` are left out. The
  constructor writes `$this->tagMap[$tag . name]`, but the declared property
  is `$tag_Map`, and the bare `name` is an undefined constant, which is an
  Error in PHP 8. So the constructor throws at the first scanned tag, and the
  map is never read anyway. `parse` returns `split_form_parts` of the markup
  (calling it twice). Only `split_form_parts` is modelled, as
  `FormParts.SplitFormParts`.
- The field record is a datatype with named fields, so it does not keep PHP's
  key order. In the source, `array_merge` at `inc/forms.php:126` puts the
  option keys after the six fixed keys, and `max` comes before `min` when the
  `max:` option comes first.
- When the first field comes before any truthy buffer, `$label` is read
  before it is assigned. PHP 8 raises an "Undefined variable $label" warning
  and uses null. The model gives that field no label (None) and does not
  model the warning.
- `output_custom_column_values` is left out, because it only echoes a
  formatted date or "Ja"/"Nein" to the page.
- `__()` (translation) is a parameter. The two column labels are passed in
  already translated.
- `putenv` is left out, because it writes the process environment, which is
  outside the model. `file_exists` and `file()` are inputs:
  - a flag;
  - the lines as read with `FILE_IGNORE_NEW_LINES | FILE_SKIP_EMPTY_LINES`.
- Env: a line without `=` gives the value null (None), as `[$name, $value]`
  does on a one-element array. PHP's warning for that case is not modelled.
- PHP arrays are modelled with string keys only. Integer keys, which
  `array_merge` and `array_slice` renumber, are not modelled, and neither are
  numeric-string keys (PHP turns `"5"` into the integer 5).
- The values of the REST response data are modelled as strings, since only
  the `email` field is touched.
- The PHP 8 loose `==` in `Events.LooselyEqualsDate` covers null, booleans,
  integers and strings. Objects (`__toString`) and arrays are one `Other`
  case that never equals `"event_datum"`.
- Base64.Decode: decoding is strict. Bytes outside the alphabet, or padding
  anywhere but the end, give None, where `base64_decode` skips invalid
  characters and then decodes leniently. `Crypt.DecryptEncrypt` is about
  ciphertexts `encrypt` produced, for which both agree.
- Crypt.RotateByteIsCaesar: stated for shifts of at most 26 either way. The
  source wraps only once, and `RotateByte` models exactly that for every
  shift. The only shifts used are ±10.
- `chr` is modelled as the code modulo 256, since PHP 8 `chr` takes the code
  modulo 256.
- PhpStrings.StripTags: models `strip_tags` without allowed tags for plain
  tags. That covers the kept `<` before whitespace, nested `<` counted to
  their `>`, quotes inside a tag, and dropped NUL bytes. A tag that opens
  with `<!` or `<?` is scanned like any other tag. PHP treats those
  differently: `<!--` runs to `-->`, and `<?` runs to a `?>` outside
  parentheses and quotes.
- PCRE `pcre.backtrack_limit` and `pcre.recursion_limit` failures, where
  `preg_*` return null or false, are not modelled. Neither is UTF-8 mode,
  which these patterns do not use, so a character is a byte.
- TagOptions.DefaultNumber: `(int)` on a digit string is unbounded here.
  PHP saturates it at `PHP_INT_MAX`, which only matters for defaults with
  more than 18 digits.
- `inc/plugins.php`, `inc/posts.php` and `functions.php` are not part of this
  model.
