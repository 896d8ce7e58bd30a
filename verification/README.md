# rspdft core in Dafny

This project models the core of rspdft, a Rust toolkit that fills PDF
templates with Thai text. It has three parts.

- **Thai text.** This covers the word list (`Dictionary`) and the
  longest-match segmenter (`Wordcut.Segment`). It also covers wrapping a
  text into lines of whole segments (`Wordcut.WordWrap`). Other modules
  spell numbers, baht amounts and Buddhist-era dates in Thai
  (`ThaiFormat`), and decide where a line may break between characters
  (`LineBreak`).
- **PDF core.** This covers the text operator block and the space-based
  wrapper (`TextOps`), and font families with their variant fallback. It
  covers used-character sets, glyph-id hex encoding, text widths and the
  ToUnicode CMap (`Fonts`). It also covers image format detection, PNG
  and JPEG header parsing, scaling modes and image streams (`Images`).
  Finally it covers the document's own bookkeeping (`Document`): font
  registration, the text cursor and fallback chains, font runs,
  per-page resource names, MediaBox heights, content buffers, text and
  image insertion, and page duplication.
- **Template engine.** This covers binding paths such as `$.items[0].name`
  over a JSON value (`Binding`), and the renderer's helpers
  (`Renderer`). The helpers are block enabling, page lists, ISO date
  parsing, and where the text, field-form and table blocks place each
  `insert_text` call.

Every operation is a pure function from its inputs to a result. The
mutable `PdfDocument` becomes an immutable `Document.Doc` record, and each
`&mut self` method returns the new record. A method that can fail after
it has changed something returns a `Step`, which holds the document as
left together with the error. A renderer block is described by the list
of `insert_text` calls it makes. `Renderer.Perform` runs such a list
against the document model, with the program's own `insert_text`, and stops
at the first error, as `?` does. `Renderer.PerformCorrected` runs the same
list with the corrected font-name lookup described under Findings.

Some things are parameters of the model:

- The TrueType parser is a function parameter. It returns a `Face` that
  holds the cmap and the horizontal advances.
- The PNG decoder is a function parameter (`fromPng`). Its error string
  is the `Display` text of the decoder's error, prefix included.
- Rust's `Display` of a float is a parameter `num: real -> string`.
- serde_json's printing of numbers, arrays and objects is a parameter
  (`serialize`).
- The line wrapper a renderer uses is a parameter (`Env.wrap`), with
  `Renderer.Wrapper` as the instance the source uses.

Shared pieces:

- `Greedy` is the greedy line-filling fold behind both word wrappers.
- `Strs` holds the string helpers: join and split, whitespace splitting,
  decimal and hex text, and UTF-8 length.
- `Bytes` holds big-endian reads and UTF-8 encoding.
- `Results` and `PdfErrors` hold the option, result and error types.

Where the code and its written description disagree, the model follows
the code:

- Month 0 in a date selects the first month's name. `saturating_sub(1)`
  maps it to index 0, so a month name is empty only above 12.
- The text shown by `Tj` is one four-digit glyph id per character. It is
  not a UTF-16 encoding of the text.
- A text block also sets the fill colour with `rg` between `BT` and `Tf`.
- `set_font_weight` and `set_font_style` only need a family to be
  selected. They do not check that the family has the matching variant.
- `set_font` keeps the current weight and style. A comment in the
  repository's demo program (examples/full_demo.rs) says it resets them, but the code does not.
- A failure is not always free of side effects. `insert_image_scaled`
  leaves the image embedded when the page height cannot be read.
  `set_font_with_fallback` leaves the font selected, and the fallbacks
  accepted so far in place, when a later fallback is rejected. A family
  that is not also a legacy font gets no chain from it at all: the first
  fallback is refused with `FontNotFound` naming the family itself.

## Model

| member | source | states |
|---|---|---|
| Dictionary.New | crates/thai-text/src/dictionary.rs:25-30 | A new dictionary has no words and a longest-word length of 0, and satisfies the invariant that this length is the longest word's length |
| Dictionary.AddWord | crates/thai-text/src/dictionary.rs:77-83 | After adding a word it is contained, every earlier word is still contained, and no other word appears. The maximum length never decreases and covers the new word |
| Dictionary.AddWordValid | crates/thai-text/src/dictionary.rs:77-83 | Adding a word keeps `max_word_len` equal to the maximum character count over all words |
| Dictionary.AddPresentWord | crates/thai-text/src/dictionary.rs:77-98 | Adding a word already present changes nothing, so `len()` is unchanged, because the words form a set |
| Dictionary.Contains | crates/thai-text/src/dictionary.rs:86-88 | `contains` holds exactly for the words in the set |
| Dictionary.Len | crates/thai-text/src/dictionary.rs:96-98 | The number of distinct words, zero exactly for an empty set |
| Dictionary.AddNewWordCounts | crates/thai-text/src/dictionary.rs:96-98 | Adding a word that is not present raises the count by one |
| Dictionary.IsEmpty | crates/thai-text/src/dictionary.rs:101-103 | `is_empty` holds exactly when `len()` is 0 |
| Dictionary.Entries | crates/thai-text/src/dictionary.rs:60-65 | Every word is the trimmed text of some entry line, non-empty and not starting with `#` |
| Dictionary.EntriesAreEntrySet | crates/thai-text/src/dictionary.rs:60-65 | The words gathered line by line are exactly the trimmed lines that are non-empty and not comments |
| Dictionary.AddAll | crates/thai-text/src/dictionary.rs:60-65 | Adding words one by one yields the old words together with the added ones |
| Dictionary.AddAllValid | crates/thai-text/src/dictionary.rs:60-65 | Adding words one by one keeps the longest-word length exact |
| Dictionary.FromStrContent | crates/thai-text/src/dictionary.rs:57-74 | Loading fails with `DictionaryLoadError("Dictionary is empty")` exactly when no line is a word. Otherwise the words are exactly the trimmed non-empty non-comment lines |
| Dictionary.LoadedWordsAreLines | crates/thai-text/src/dictionary.rs:60-65 | Every loaded word is some line of the content, trimmed, and is neither empty nor a comment |
| Wordcut.MatchLen | crates/thai-text/src/wordcut.rs:63-74 | The descending length loop finds the longest dictionary word at the position within the bound, or 0 when none exists |
| Wordcut.HeadLen | crates/thai-text/src/wordcut.rs:63-80 | Each step of the segmenter consumes between 1 and the remaining number of characters |
| Wordcut.Segment | crates/thai-text/src/wordcut.rs:56-84 | The segments concatenate back to the input, unknown characters included. Each segment is non-empty and is a dictionary word or a single character. Empty input gives no segments |
| Wordcut.SegmentHead | crates/thai-text/src/wordcut.rs:63-80 | Longest match: the first segment is a word with no longer dictionary word at that position within `max_word_len`. If no prefix is a word, the first segment is one character |
| Wordcut.SegmentBound | crates/thai-text/src/wordcut.rs:63-79 | No segment is longer than max(`max_word_len`, 1) characters |
| Wordcut.WrapGroups | crates/thai-text/src/wordcut.rs:104-121 | Lines are filled greedily with whole segments in order, and the segments of all lines are the segments of the text |
| Wordcut.ChainedFits | crates/thai-text/src/wordcut.rs:107-121 | A line that grew past its first segment has at most `max_chars` characters |
| Wordcut.WordWrap | crates/thai-text/src/wordcut.rs:94-133 | A budget of 0 returns `[text]`, and empty text gives `[""]`. The lines concatenate back to the text, and each line has at most `max_chars` characters unless it is a single segment |
| Wordcut.WordWrapGreedy | crates/thai-text/src/wordcut.rs:104-132 | Each line is the concatenation of one group of whole segments. A line ends only where the next segment would overflow it |
| Greedy.Fill | crates/thai-text/src/wordcut.rs:104-130 | The greedy fold loses and reorders nothing, and each line closes only when the next item does not fit |
| Greedy.PackGreedy | crates/thai-text/src/wordcut.rs:104-121 | A fold that starts from greedy closed lines and a chained open line ends with every line greedy |
| Greedy.PackConcat | crates/thai-text/src/wordcut.rs:104-126 | The lines of the fold, concatenated, are the closed lines, the open line and the remaining items, in order |
| Greedy.LineHead | crates/thai-text/src/wordcut.rs:104-121 | In the line-filling fold shared by both wrappers, the first item of every line is the input item whose index is the total item count of the lines before it |
| LineBreak.IsThaiChar | crates/thai-text/src/linebreak.rs:5-8 | Thai characters are exactly the 128-code-point block U+0E00..U+0E7F |
| LineBreak.IsLeadingVowel | crates/thai-text/src/linebreak.rs:12-14 | The five leading vowels are exactly the code points U+0E40..U+0E44 |
| LineBreak.IsAboveBelowMark | crates/thai-text/src/linebreak.rs:18-24 | Every mark is Thai and no mark is a leading vowel. The spacing vowels U+0E32 and U+0E33, which sit between the mark ranges, are not marks |
| LineBreak.CanBreakBetween | crates/thai-text/src/linebreak.rs:30-49 | A break is allowed exactly when the right character is neither a mark nor a leading vowel and the left one is not a leading vowel |
| LineBreak.ClassesAreThai | crates/thai-text/src/linebreak.rs:5-24 | Leading vowels and above/below marks lie in U+0E00..U+0E7F, and no character is both |
| LineBreak.NonThaiAlwaysBreaks | crates/thai-text/src/linebreak.rs:30-49 | Between two characters outside the Thai block a break is always allowed |
| LineBreak.FindBreakPoints | crates/thai-text/src/linebreak.rs:55-72 | The result starts with 0 and ends with the length. An interior index is present iff a break is allowed there. The result is strictly increasing for non-empty text and `[0, 0]` for empty text |
| ThaiFormat.FormatThaiNumber | crates/thai-text/src/formatter.rs:91-130 | Zero reads "ศูนย์", and a single digit of either sign reads as its own name |
| ThaiFormat.ThaiNumberIgnoresSign | crates/thai-text/src/formatter.rs:91-96 | A number and its negation read the same, since the absolute value is spelled |
| ThaiFormat.WordsCycle | crates/thai-text/src/formatter.rs:100-102 | Position names repeat every six digits (`position % 6`) |
| ThaiFormat.WordsSplit | crates/thai-text/src/formatter.rs:100-129 | The words of a number are the words of its high digits followed by those of its low `k` digits, where the low ones carry their ล้าน markers and a units 1 reads เอ็ด |
| ThaiFormat.MillionSplit | crates/thai-text/src/formatter.rs:123-125 | A number of a million or more reads as its millions, ล้าน, then the remainder's words, in which a units 1 is เอ็ด |
| ThaiFormat.LastTwoDigits | crates/thai-text/src/formatter.rs:105-114 | A number reads as its hundreds and above, then its tens digit, then its units digit. The units digit is read as เอ็ด (for 1) only when the number is 10 or more |
| ThaiFormat.PlainWordsAreWords | crates/thai-text/src/formatter.rs:100-129 | Within one six-digit cycle, the words built without context for the higher digits equal the number's own words. The exception is a lone 1 at position 0 |
| ThaiFormat.TenWords | crates/thai-text/src/formatter.rs:106-111 | 10 is the bare สิบ |
| ThaiFormat.ElevenWords | crates/thai-text/src/formatter.rs:106-114 | 11 is สิบ then เอ็ด |
| ThaiFormat.TwentyOneWords | crates/thai-text/src/formatter.rs:106-114 | 21 is ยี่, สิบ, เอ็ด |
| ThaiFormat.HundredOneWords | crates/thai-text/src/formatter.rs:112-114 | 101 is หนึ่ง ร้อย เอ็ด |
| ThaiFormat.MillionWords | crates/thai-text/src/formatter.rs:123-125 | 1000000 is หนึ่ง then ล้าน |
| ThaiFormat.TwentyOneText | crates/thai-text/src/formatter.rs:91-130 | `format_thai_number(21)` is "ยี่สิบเอ็ด" |
| ThaiFormat.OneMillionText | crates/thai-text/src/formatter.rs:91-130 | `format_thai_number(1000000)` is "หนึ่งล้าน" |
| ThaiFormat.FormatThaiBaht | crates/thai-text/src/formatter.rs:147-152 | The text is "-" exactly when both baht and satang are zero. Whole baht read as the spelled number then "บาทถ้วน", satang alone as the spelled number then "สตางค์", and every other pair as spelled baht, "บาท", spelled satang, "สตางค์" |
| ThaiFormat.BahtReading | crates/thai-text/src/formatter.rs:143-152 | An amount of baht plus satang/100 reads back as those four cases of its own baht and satang |
| ThaiFormat.FormatThaiBahtAmount | crates/thai-text/src/formatter.rs:143-152 | An amount under half a satang reads "-", and a whole amount of at least one baht reads as the spelled number then "บาทถ้วน" |
| ThaiFormat.TruncRem | crates/thai-text/src/formatter.rs:144 | Rust's `%` keeps the dividend's sign and agrees with the mathematical remainder in magnitude |
| ThaiFormat.BahtPartsExact | crates/thai-text/src/formatter.rs:143-146 | An amount with at most two decimals splits into its whole baht and its satang |
| ThaiFormat.BahtExamples | crates/thai-text/src/formatter.rs:143-152 | 0.0 is "-", 100.0 ends in บาทถ้วน, 0.25 ends in สตางค์, and 100.5 reads baht and then satang |
| ThaiFormat.NegativeWholeBaht | crates/thai-text/src/formatter.rs:147-152 | A negative whole amount falls through to the last case and spells a zero satang |
| ThaiFormat.MonthName | crates/thai-text/src/formatter.rs:161-166 | Months 1..=12 select their name, months above 12 select "", and month 0 selects the first name |
| ThaiFormat.FormatThaiDateShort | crates/thai-text/src/formatter.rs:161-166 | For months 1..=12, the day, the month's short name and the last two digits of the Buddhist year, with single spaces. A month past 12 leaves an empty name between two spaces |
| ThaiFormat.FormatThaiDateLong | crates/thai-text/src/formatter.rs:174-179 | For months 1..=12, the day, the month's full name and the Buddhist year, with single spaces. A month past 12 leaves an empty name between two spaces |
| ThaiFormat.FormatThaiYear | crates/thai-text/src/formatter.rs:185-187 | The text is "ปี " followed by the decimal Buddhist-era year, the Gregorian year plus 543 |
| ThaiFormat.YearReadsBack | crates/thai-text/src/formatter.rs:185-187 | Parsing the digits after "ปี " gives back the year plus 543 |
| ThaiFormat.DateShortFields | crates/thai-text/src/formatter.rs:161-166 | A short date splits at its spaces into the day, the short month name and the Buddhist year mod 100 |
| ThaiFormat.DateLongFields | crates/thai-text/src/formatter.rs:174-179 | A long date splits at its spaces into the day, the long month name and the year plus 543 |
| ThaiFormat.DateShortExample | crates/thai-text/src/formatter.rs:161-166 | 2025-01-22 is "22 ม.ค. 68" |
| ThaiFormat.DateLongExample | crates/thai-text/src/formatter.rs:174-179 | 2025-01-22 is "22 มกราคม 2568" |
| ThaiFormat.YearExample | crates/thai-text/src/formatter.rs:185-187 | 2025 is "ปี 2568" |
| ThaiFormat.LastIndexWhere | crates/thai-text/src/formatter.rs:240 | `rfind` returns the last index whose character matches, and none when no character does |
| ThaiFormat.ParseFormat | crates/thai-text/src/formatter.rs:234-262 | The empty pattern means two decimals with grouping. Precision is the number of placeholders after the last `.` or `,`, mod 256. The decimal separator is "." exactly when the precision is non-zero. With no separator the precision is 0 |
| ThaiFormat.NoSeparatorNoDecimals | crates/thai-text/src/formatter.rs:240-248 | A non-empty pattern with no '.' or ',' has precision 0 and no decimal separator |
| ThaiFormat.PrecisionAfterLastSeparator | crates/thai-text/src/formatter.rs:240-248 | When the last separator is at index d, the precision is the number of placeholders after d, mod 256 |
| ThaiFormat.PlainDecimalExample | crates/thai-text/src/formatter.rs:234-262 | "#.##" is two decimals with "." and no grouping |
| ThaiFormat.ParseFormatGrouped | crates/thai-text/src/formatter.rs:240-258 | With a `.` after the last comma, the comma groups thousands and the precision counts the placeholders after the `.` |
| ThaiFormat.ParseFormatTrailingComma | crates/thai-text/src/formatter.rs:240-258 | When the last separator is a comma it is read as the decimal point, and there is no grouping |
| ThaiFormat.GroupedPatternExample | crates/thai-text/src/formatter.rs:234-262 | "#,###.##" gives precision 2, separator "," and decimal "." |
| ThaiFormat.TrailingCommaExample | crates/thai-text/src/formatter.rs:234-262 | "#,###" gives precision 3 and no grouping |
| ThaiFormat.FormatWithThousands | crates/thai-text/src/formatter.rs:265-281 | With an empty separator the result is the plain decimal text. Otherwise it is that text grouped in threes from the right with the separator's first character |
| ThaiFormat.GroupRemove | crates/thai-text/src/formatter.rs:265-281 | Deleting the separators from a grouped decimal string gives the decimal string back |
| ThaiFormat.GroupShape | crates/thai-text/src/formatter.rs:273-278 | The separator stands exactly at every fourth position from the end, and there is one per full group after the first |
| ThaiFormat.NegativeGrouping | crates/thai-text/src/formatter.rs:265-281 | For a negative number the sign takes part in the grouping: -100 becomes "-,100" |
| TextOps.CalculateXOffset | crates/pdf-core/src/text.rs:25-31 | Left gives 0, Center gives equal margins on both sides, and Right makes the text end at the container's edge |
| TextOps.StartX | crates/pdf-core/src/text.rs:57-63 | The `Td` x puts the anchor at the text's left edge, midpoint or right edge |
| TextOps.StartXIsOffset | crates/pdf-core/src/text.rs:25-63 | The `Td` x is the anchor plus the container offset for a container of width 0 |
| TextOps.GenerateTextOperators | crates/pdf-core/src/text.rs:47-87 | The block begins with "BT\n" and ends with "ET\n" |
| TextOps.TextOperatorsLines | crates/pdf-core/src/text.rs:57-86 | Read back line by line, the block is exactly BT, rg, Tf, Td with the anchored x and unchanged y, the hex string verbatim before " Tj", then ET |
| TextOps.WordGroups | crates/pdf-core/src/text.rs:105-115 | The words of `split_whitespace` are packed greedily in order and none is lost |
| TextOps.SimpleWordWrap | crates/pdf-core/src/text.rs:97-126 | A budget of 0 returns `[text]`. Text without words gives `[""]`. Otherwise each line is one greedy group of words joined by single spaces |
| TextOps.ChainedWithinBudget | crates/pdf-core/src/text.rs:108 | A line of two or more words has a UTF-8 byte length within the budget |
| TextOps.SimpleWordWrapWords | crates/pdf-core/src/text.rs:105-124 | The lines' words, in order, are the words of the text. Each line's byte length is within the budget unless it holds a single word. A line ends only where the next word would overflow it |
| Fonts.Preference | crates/pdf-core/src/font.rs:66-80 | Every preference order ends with the regular slot |
| Fonts.GetVariant | crates/pdf-core/src/font.rs:66-80 | A family with a regular variant answers every weight and style. The result is none exactly when no slot of the preference order is present |
| Fonts.GetVariantSlot | crates/pdf-core/src/font.rs:84-117 | The slot `get_variant_mut` selects holds a variant |
| Fonts.VariantFallback | crates/pdf-core/src/font.rs:66-117 | Both lookups pick the first present slot of the order: bold-italic, bold, italic, regular for (Bold, Italic); bold, regular for (Bold, Normal); italic, regular for (Regular, Italic); regular alone for (Regular, Normal). The mutable lookup selects the slot holding the variant `get_variant` returns |
| Fonts.UpdateVariant | crates/pdf-core/src/font.rs:84-117 | Changing the variant `get_variant_mut` selects changes that slot only |
| Fonts.GetVariantName | crates/pdf-core/src/font.rs:120-132 | The name starts with the family name, and equals it exactly for (Regular, Normal) |
| Fonts.VariantNameIsDataName | crates/pdf-core/src/font.rs:120-212 | A variant name is the data name `build` gives the matching slot, except for (Regular, Normal). The bare family name differs from the regular data name "{family}-regular" |
| Fonts.FromTtf | crates/pdf-core/src/font.rs:227-244 | The data is created exactly when the face parses, with no used characters. Otherwise the parser's error is reported as `FontParseError` |
| Fonts.BuildSlot | crates/pdf-core/src/font.rs:191-194 | An optional variant fails exactly when its bytes are present and the parser rejects them, with the parser's error as `FontParseError`; `map(...).transpose()` leaves an absent variant absent |
| Fonts.Build | crates/pdf-core/src/font.rs:179-212 | Without regular bytes the build fails. A built family has a regular variant, and each slot holds the parsed bytes of that slot under its "{family}-..." name. The build fails with the error of the first variant, in the order regular, bold, italic, bold-italic, that the parser rejects, every variant before it being absent or accepted |
| Fonts.BuiltFamilyResolves | crates/pdf-core/src/font.rs:66-212 | A built family answers every weight and style |
| Fonts.GlyphId | crates/pdf-core/src/font.rs:254-258 | A glyph id exists exactly when there is a face whose cmap maps the character |
| Fonts.HasGlyph | crates/pdf-core/src/font.rs:261-263 | A character counts as covered exactly when the face maps it to a glyph id other than 0. A font without a face covers nothing |
| Fonts.GlyphAdvance | crates/pdf-core/src/font.rs:266-271 | An advance exists only for a character with a glyph id. A glyph id with a recorded horizontal advance gives exactly that advance, and one without gives none |
| Fonts.TextWidth | crates/pdf-core/src/font.rs:298-303 | The empty text has width 0, one character has its advance or 0, and each character adds at most 0xFFFF |
| Fonts.EmSize | crates/pdf-core/src/font.rs:274-279 | The em size is positive |
| Fonts.WidthPoints | crates/pdf-core/src/font.rs:306-310 | The width in points times the em size is the width in font units times the font size |
| Fonts.TextWidthAppend | crates/pdf-core/src/font.rs:298-303 | Widths add up over concatenation |
| Fonts.AddChars | crates/pdf-core/src/font.rs:247-251 | The used set becomes its union with the text's characters, and nothing else changes |
| Fonts.AddCharsMonotoneIdempotent | crates/pdf-core/src/font.rs:247-251 | Adding characters only grows the set, and adding the same text twice changes nothing more |
| Fonts.GlyphHex | crates/pdf-core/src/font.rs:406-407 | Four hex digits whose value is the glyph id, or 0 when the character has none |
| Fonts.HasGlyphIffEncodedNonZero | crates/pdf-core/src/font.rs:261-263 | A character counts as covered exactly when its hex encoding writes a glyph other than 0 |
| Fonts.EncodeTextHex | crates/pdf-core/src/font.rs:402-410 | The text is "<", 4 hex digits per character, then ">", so its length is 2 + 4·n. The empty text gives "<>" |
| Fonts.EncodeTextHexDecodes | crates/pdf-core/src/font.rs:402-410 | The i-th group of four digits reads back as the glyph id of the i-th character |
| Fonts.SortedChars | crates/pdf-core/src/font.rs:464-465 | The used characters are listed once each, by increasing code point |
| Fonts.Chunks | crates/pdf-core/src/font.rs:469 | `chunks(n)` covers the list in order, in pieces of exactly n except a shorter non-empty last piece |
| Fonts.CMapEntry | crates/pdf-core/src/font.rs:474-476 | One "<gid> <code>" line whose first field reads back as the glyph id and the second as the code point |
| Fonts.CMapChunks | crates/pdf-core/src/font.rs:464-470 | The sections hold the sorted used characters, at most 100 each, all full except the last |
| Fonts.GenerateToUnicodeCMap | crates/pdf-core/src/font.rs:447-489 | The header and footer are always present, and with no used characters they are all there is. The full contents are stated by `Fonts.CMapListsUsedChars` |
| Fonts.CMapListsUsedChars | crates/pdf-core/src/font.rs:447-489 | The CMap is the header, then one section per chunk of at most 100 characters, then the footer. Each section is "{n} beginbfchar", its n entry lines, "endbfchar". All sections' entries together are the entries of the used characters in code-point order |
| Fonts.SectionEntriesConcat | crates/pdf-core/src/font.rs:464-480 | Splitting the sorted characters into chunks and listing each chunk's entries gives the entries of the whole list |
| Fonts.EntriesCoverUsed | crates/pdf-core/src/font.rs:464-480 | There is exactly one entry line per used character, and every used character's entry is among them |
| Fonts.EntriesDecode | crates/pdf-core/src/font.rs:472-476 | Entry line j carries the j-th sorted character's code as its Unicode field and its glyph id, or 0, as its CID field |
| Fonts.EntriesByCode | crates/pdf-core/src/font.rs:464-476 | The Unicode fields of the entry lines strictly increase |
| Images.CalculateScaledDimensions | crates/pdf-core/src/image.rs:47-74 | Stretch returns the target. FitWidth keeps the target width with height = width·oh/ow. FitHeight keeps the target height with width = height·ow/oh. FitBox keeps the aspect ratio and fits inside the target, touching one side |
| Images.FitWidthSize | crates/pdf-core/src/image.rs:56-59 | The width is the target width and the height follows the aspect ratio |
| Images.FitBoxSize | crates/pdf-core/src/image.rs:64-72 | Scaling by the smaller ratio keeps the aspect ratio, fits the box, and reaches its width or its height |
| Images.DetectFormat | crates/pdf-core/src/image.rs:77-93 | Fewer than 8 bytes is an error. FF D8 FF is JPEG and is checked first. The PNG signature is PNG. Anything else is "Unknown image format" |
| Images.GetPngDimensions | crates/pdf-core/src/image.rs:199-217 | Fewer than 24 bytes, or no "IHDR" at 12..16, is an error with the source's message. Otherwise width and height are the big-endian u32 values at 16 and 20 |
| Images.PngHeaderRoundTrip | crates/pdf-core/src/image.rs:133-217 | A PNG header written with a width and height reads back as them, both directly and through `get_dimensions` |
| Images.SofScan | crates/pdf-core/src/image.rs:159-190 | The scan stops at a frame marker (C0-CF except C4, C8, CC) at or after its start, and finds nothing once fewer than 11 bytes remain |
| Images.BadLengthHidesFrame | crates/pdf-core/src/image.rs:159-189 | A non-frame marker segment right after SOI whose length field is below 2 makes the reader fail, whatever frame follows it |
| Images.ScanSkipsChain | crates/pdf-core/src/image.rs:159-189 | From the start of any chain of non-frame marker segments with valid lengths, the scan lands exactly on the frame that follows the chain |
| Images.ChainBytesAt | crates/pdf-core/src/image.rs:176-186 | The encoding of a chain of marker segments (0xFF, marker, big-endian length counting itself and the payload, payload) is read back by the scan as that chain, after any prefix |
| Images.FrameAfterSegments | crates/pdf-core/src/image.rs:149-195 | After SOI and any chain of well-formed non-frame marker segments, the reader reports the dimensions and components of the frame that follows the chain |
| Images.HeaderAfterSegments | crates/pdf-core/src/image.rs:133-195 | A frame header written with a width, height and component count reads back as them after any chain of well-formed marker segments |
| Images.GetJpegInfo | crates/pdf-core/src/image.rs:149-195 | The result is an error exactly when the scan from offset 2 finds no frame. Otherwise height, width and components are read at i+5, i+7 and i+9 of a frame segment |
| Images.JpegHeaderRoundTrip | crates/pdf-core/src/image.rs:133-195 | A frame header written with a width, height and component count reads back as them, both directly and through `get_dimensions` |
| Images.GetDimensions | crates/pdf-core/src/image.rs:133-146 | Dispatches on the detected format and agrees with the matching parser. A detection error is passed through |
| Images.FromJpeg | crates/pdf-core/src/image.rs:223-240 | A JPEG is embedded as-is with DCTDecode and 8 bits. One component is DeviceGray, anything else DeviceRGB. It fails exactly when the JPEG info cannot be read |
| Images.ToPdfStream | crates/pdf-core/src/image.rs:315-334 | The dictionary has exactly the eight entries, and the content equals the data |
| Images.PdfStreamRoundTrip | crates/pdf-core/src/image.rs:315-334 | The stream carries every field of the XObject: reading it back gives the XObject |
| Images.GenerateImageOperators | crates/pdf-core/src/image.rs:348-362 | The operators start with "q\n" and end with "Q\n" |
| Images.ImageOperatorsLines | crates/pdf-core/src/image.rs:348-362 | Read back line by line they are exactly q, the `cm` matrix [w 0 0 h x y], "/name Do", then Q |
| Binding.Get | crates/template/src/parser.rs:33-41 | A key finds a value exactly on an object that has it |
| Binding.At | crates/template/src/parser.rs:36-38 | An index finds a value exactly on an array long enough |
| Binding.Find | crates/template/src/parser.rs:30 | `find('[')` returns the first '[' and none when there is none |
| Binding.IndexText | crates/template/src/parser.rs:32-33 | The index text is what lies strictly between the '[' and the segment's last character, two characters fewer than the rest of the segment from the '[' on |
| Binding.Step | crates/template/src/parser.rs:29-41 | A segment without '[' is an object key lookup |
| Binding.ResolveBinding | crates/template/src/parser.rs:17-45 | A path not starting with "$." resolves to nothing. Otherwise its '.'-separated segments are applied from the root in order |
| Binding.StepAsWritten | crates/template/src/parser.rs:30-38 | A segment panics exactly when its index slice cannot be taken |
| Binding.ResolveAsWritten | crates/template/src/parser.rs:17-45 | As written, a path without "$." is missing |
| Binding.ResolveAgrees | crates/template/src/parser.rs:17-45 | Whenever the code as written does not panic, it resolves exactly what `ResolveBinding` resolves |
| Binding.OpenBracketPanics | crates/template/src/parser.rs:30-34 | "$.a[" panics as written and is unresolved in the corrected model |
| Binding.ResolveCompose | crates/template/src/parser.rs:28-44 | "$.a.rest" on data is "$.rest" on data["a"], and nothing when the key is missing |
| Binding.ResolveTwoKeys | crates/template/src/parser.rs:28-41 | "$.a.b" is data["a"]["b"], and nothing as soon as a key is missing |
| Binding.ResolveSingle | crates/template/src/parser.rs:28-44 | A one-segment path applies that segment to the root |
| Binding.StepIndexed | crates/template/src/parser.rs:30-38 | "f[t]" parses t as the index of field f |
| Binding.ResolveIndexed | crates/template/src/parser.rs:30-38 | "$.f[i]" looks up field f (skipped when empty) and then element i |
| Binding.NonNumericIndex | crates/template/src/parser.rs:34-35 | A non-numeric index resolves to nothing |
| Binding.ValueToString | crates/template/src/parser.rs:48-56 | A string gives its contents, null gives "", and a boolean gives "true" or "false". Other values are printed by serde_json |
| Renderer.IsTruthy | crates/template/src/renderer.rs:697-706 | The falsy values are exactly null, false, 0, "", [] and {} |
| Renderer.TruthyText | crates/template/src/renderer.rs:697-706 | A null or boolean is truthy exactly when it prints as "true", and a string exactly when it is non-empty |
| Renderer.IsBlockEnabled | crates/template/src/renderer.rs:351-361 | No binding means enabled. A missing binding disables the block. Otherwise the block is enabled iff the value is truthy |
| Renderer.EnabledByKey | crates/template/src/renderer.rs:351-361 | The binding "$.k" on an object enables the block exactly when key k is present and truthy |
| Renderer.PageRange | crates/template/src/renderer.rs:665 | The pages are 1..=n in order |
| Renderer.ResolvePages | crates/template/src/renderer.rs:661-666 | A non-empty explicit list is returned unchanged. Otherwise the result is 1..=total |
| Renderer.DefaultPagesExist | crates/template/src/renderer.rs:661-666 | Without an explicit list every page drawn on exists |
| Renderer.ParseAndFormatDate | crates/template/src/renderer.rs:739-762 | Fails unless there are exactly three '-' parts that parse as i32, u32, u32, and reports the first failing part. Otherwise it returns `format(y, m, d)` |
| Renderer.DateRoundTrip | crates/template/src/renderer.rs:739-762 | "Y-M-D" printed from in-range numbers parses back to them |
| Renderer.NegativeYearRejected | crates/template/src/renderer.rs:744-748 | A negative year adds a fourth part, so the text is rejected |
| Renderer.Wrapped | crates/template/src/renderer.rs:403-411 | A budget of 0 keeps the text, the result is never empty, and dictionary wrapping concatenates back to the text |
| Renderer.OnPagesAt | crates/template/src/renderer.rs:424-430 | Per-page drawing is repeated page after page, so call k of the j-th page sits at j·n + k |
| Renderer.LineCalls | crates/template/src/renderer.rs:424-430 | Line k of a page is drawn at y plus k line heights, in order |
| Renderer.TextBlockLayout | crates/template/src/renderer.rs:417-430 | On each page, line k of a text block is drawn at y + k·line_height. The default line height is 13.5 |
| Renderer.FieldLoop | crates/template/src/renderer.rs:478-496 | Character i is drawn centred at x plus the first i spacings, and drawing stops after the character with no spacing left |
| Renderer.FieldCalls | crates/template/src/renderer.rs:478-496 | A page draws min(len, len(spacing)+1) characters, each at x plus the preceding spacings |
| Renderer.FieldFormLayout | crates/template/src/renderer.rs:478-496 | On every page, character i is drawn at x + sum(spacing[0..i]), for at most len(spacing)+1 characters |
| Renderer.MaxFrom | crates/template/src/renderer.rs:535-550 | The first pass's maximum bounds every wrapping cell's line count and equals one of them or the start value |
| Renderer.RowLines | crates/template/src/renderer.rs:535-550 | A row takes max(1, the largest wrapped line count among wrapping columns) lines |
| Renderer.RowCalls | crates/template/src/renderer.rs:553-566 | A row draws each column's cell at the column's offset and the row's y, left to right |
| Renderer.RowYStep | crates/template/src/renderer.rs:568 | The next row starts the row height times this row's line count lower |
| Renderer.TableLoop | crates/template/src/renderer.rs:534-569 | Accumulating `y += row_height * max_lines` puts every row at its position below the lines of the rows above |
| Renderer.RowAdvance | crates/template/src/renderer.rs:535-568 | Each row adds its own line count, which is at least 1, to the lines counted above the next row |
| Renderer.TableCellAt | crates/template/src/renderer.rs:531-569 | Cell c of row j is drawn at the column's offset and at y plus row_height times the lines of the rows above |
| Renderer.TableLayout | crates/template/src/renderer.rs:531-569 | The table is drawn page after page, each page the same rows and cells |
| Renderer.InsertTextKeeps | crates/pdf-core/src/document.rs:433-529 | Inserting text keeps the document valid and leaves its pages and selected family unchanged |
| Renderer.Perform | crates/template/src/renderer.rs:424-430 | The program's `insert_text` over a list of calls: no calls leave the document as is, and a run that succeeds keeps the pages and the selected family |
| Renderer.PerformCorrected | crates/template/src/renderer.rs:424-430 | The same run with the corrected font-name lookup, with the same guarantees |
| Renderer.PerformConcat | crates/template/src/renderer.rs:424-430 | Running two lists one after the other is running their concatenation, and an error in the first stops the run |
| Renderer.PerformSucceeds | crates/template/src/renderer.rs:424-430 | With the program's lookup: on a valid document whose written current font name has data, calls on existing pages with readable heights all succeed |
| Renderer.PerformCorrectedSucceeds | crates/template/src/renderer.rs:424-430 | With the corrected lookup the same calls succeed whenever a family is selected |
| Renderer.PerformAgrees | crates/template/src/renderer.rs:424-430 | When the written font name has data, the program's and the corrected runs give the same result |
| Renderer.InsertTextAsWrittenKeeps | crates/pdf-core/src/document.rs:433-529 | The program's insert keeps the document valid, its pages, its current font name, and the data that name finds |
| Renderer.BoldBlockFails | crates/template/src/renderer.rs:669-684 | A bold text block on a font registered without a bold file fails with `FontNotFound("s-bold")` as written, and draws when corrected |
| Renderer.TextBlockDraws | crates/template/src/renderer.rs:364-433 | With the program's lookup, a text block on all pages of a document whose written font name has data draws without error |
| Renderer.TextBlockDrawsCorrected | crates/template/src/renderer.rs:364-433 | With the corrected lookup, a text block on all pages draws whenever a family is selected |
| Document.Open | crates/pdf-core/src/document.rs:176-199 | A new document has no fonts and no family, 12 pt, black, regular weight, normal style, counters at 1, and is valid |
| Document.CheckPage | crates/pdf-core/src/document.rs:441-444 | Page numbers 1..=count pass. Others fail with `InvalidPage(page, count)` |
| Document.AddFont | crates/pdf-core/src/document.rs:214-232 | A name already used by a font or family fails with `FontAlreadyExists`. A parse failure is reported. Otherwise the name becomes a legacy font and a one-variant family. Validity is kept |
| Document.RegisterFontFamily | crates/pdf-core/src/document.rs:294-303 | A taken family name fails, and a failing build reports its error. Otherwise the built family is added and validity is kept |
| Document.SetFont | crates/pdf-core/src/document.rs:318-327 | Fails with `FontNotFound` for an unknown family. Otherwise only family and size change, and weight and style are kept |
| Document.SetFontSize | crates/pdf-core/src/document.rs:333-340 | Fails when no family is set. Otherwise only the size changes |
| Document.SetFontWeight | crates/pdf-core/src/document.rs:346-353 | Fails when no family is set. Otherwise only the weight changes |
| Document.SetFontStyle | crates/pdf-core/src/document.rs:359-366 | Fails when no family is set. Otherwise only the style changes |
| Document.SettersIndependent | crates/pdf-core/src/document.rs:318-366 | After selecting a family, the size, weight and style setters all succeed and each changes only its own field |
| Document.SetTextColor | crates/pdf-core/src/document.rs:379-381 | Only the colour changes |
| Document.SetFontFallback | crates/pdf-core/src/document.rs:388-405 | Succeeds exactly when the family and every fallback are known. An unknown family is reported first; otherwise the reported fallback is unknown and every fallback before it is known. On success the chain is replaced |
| Document.AddFontFallback | crates/pdf-core/src/document.rs:239-253 | Succeeds exactly when both are legacy fonts, checking primary first. The fallback is appended to the chain |
| Document.SetFontWithFallback | crates/pdf-core/src/document.rs:261-276 | An unknown font changes nothing. Otherwise the font is selected, and only its chain, the family and the size change. A font that is not a legacy font, given fallbacks, fails with `FontNotFound` naming itself and is left with no chain. For a legacy font the first fallback that is not a legacy font is reported, and the chain holds exactly the fallbacks before it (no chain when it is the first) |
| Document.AddFallbacksStops | crates/pdf-core/src/document.rs:239-276 | When appending fallbacks to a legacy font fails, it fails at the first fallback that is not a legacy font, and the chain gained exactly the fallbacks before it |
| Document.FallbackChainStops | crates/pdf-core/src/document.rs:266-272 | Starting from a dropped chain, a failed rebuild leaves the chain equal to the fallbacks before the first rejected one, or absent when the first is rejected |
| Document.FontDataNamed | crates/pdf-core/src/document.rs:532-554 | Data is found by name through the families' variants first, then among legacy fonts. The lookup fails with `FontNotFound` exactly when neither has it |
| Document.VariantFound | crates/pdf-core/src/document.rs:532-554 | Every variant of a registered family is found under its own data name |
| Document.AddCharsTo | crates/pdf-core/src/document.rs:557-579 | Records used characters in the data the lookup finds, fails exactly when the lookup fails, and changes nothing else |
| Document.AddCharsLookup | crates/pdf-core/src/document.rs:557-579 | Afterwards the name finds its old data with the characters added, and every other name finds what it found before |
| Document.Runs | crates/pdf-core/src/document.rs:592-672 | The runs concatenate back to the text. They are non-empty, uniform in font, and adjacent runs differ in font |
| Document.RunsUnique | crates/pdf-core/src/document.rs:592-672 | Any split with those properties is the one `Runs` builds |
| Document.CoveringIndex | crates/pdf-core/src/document.rs:615-640 | The first fallback with a glyph for the character, and none exactly when no fallback has one |
| Document.FontForChar | crates/pdf-core/src/document.rs:604-650 | The primary variant when it has the glyph or cannot be found, else the first fallback that has it, else the primary |
| Document.SegmentTextByFont | crates/pdf-core/src/document.rs:592-672 | The runs split the text by the font chosen for each character, and empty text gives no runs |
| Document.PrimaryCoversAll | crates/pdf-core/src/document.rs:592-672 | When the primary has every glyph the text is one run |
| Document.RunFontsResolve | crates/pdf-core/src/document.rs:592-672 | In a valid document every run's font can be looked up |
| Document.GetOrCreateFontRef | crates/pdf-core/src/document.rs:965-984 | A (page, font) pair seen before gets the same name. A new pair gets "F{n}" from the document-wide counter, unused everywhere, and the counter advances |
| Document.FontRefStable | crates/pdf-core/src/document.rs:965-984 | Asking again for the same font on the same page changes nothing |
| Document.ResourceNameInjective | crates/pdf-core/src/document.rs:977-980 | Different counter values give different names |
| Document.ExtractHeight | crates/pdf-core/src/document.rs:1149-1167 | Fewer than 4 entries, or a non-numeric y1 or y2, is the matching `ParseError`. Otherwise the height is y2 − y1 |
| Document.PageHeight | crates/pdf-core/src/document.rs:1085-1146 | A page without its own MediaBox is A4, 841.89 high. Otherwise its box is read as `extract_height_from_media_box` reads it |
| Document.DefaultHeights | crates/pdf-core/src/document.rs:1098-1146 | A page without a box, and a blank page, are 841.89 points high |
| Document.BufferContent | crates/pdf-core/src/document.rs:1173-1178 | Appends to that page's buffer and leaves every other buffer unchanged |
| Document.Flush | crates/pdf-core/src/document.rs:1184-1288 | Every page's content becomes its content followed by its buffered bytes, and the buffers are emptied |
| Document.FlushInOrder | crates/pdf-core/src/document.rs:1272-1274 | Bytes buffered one after the other reach the page in that order |
| Document.GetCurrentFontName | crates/pdf-core/src/document.rs:408-423 | As written: no family fails, a family gives its variant name, and a legacy-only name is used as is |
| Document.CurrentFontName | crates/pdf-core/src/document.rs:408-423 | Corrected: with a family set, the written name when data carries it, otherwise the data name of the variant `get_variant` picks. Either way a valid document can look it up |
| Document.FamilyFontName | crates/pdf-core/src/document.rs:408-423 | The data name of the variant `get_variant` picks, which a valid document can look up |
| Document.InsertRuns | crates/pdf-core/src/document.rs:464-473 | The runs concatenate back to the text. Without fallbacks there is one run in the current font |
| Document.RunWidths | crates/pdf-core/src/document.rs:488-526 | Each run's width in points. On failure the error names the font of a run whose data is missing, and every earlier run's font is found |
| Document.PlaceRun | crates/pdf-core/src/document.rs:504-526 | Records the run's characters, gets the font's resource name on the page and appends one text operation, keeping validity |
| Document.PlaceRuns | crates/pdf-core/src/document.rs:488-526 | Runs are drawn in order on the page at the same y. The first starts at the start x and each next one a run's width further. All characters are recorded |
| Document.InsertTextNamed | crates/pdf-core/src/document.rs:433-529 | Checks run in order: page, empty text (no change), family, font name, run fonts, page height. Only then is anything recorded |
| Document.InsertTextAsWritten | crates/pdf-core/src/document.rs:433-529 | The program's insert: a bad page fails first, empty text changes nothing, no family fails, and success keeps the pages and the family |
| Document.InsertText | crates/pdf-core/src/document.rs:433-529 | The corrected insert, with the same checks in the same order and the same guarantees |
| Document.DrawRuns | crates/pdf-core/src/document.rs:484-526 | Succeeds exactly when every run's font is found and the page height can be read. The runs are placed from the aligned start x for their total width, at height − y, all characters are recorded, and only font bookkeeping and text operations change |
| Document.FromTop | crates/pdf-core/src/document.rs:484-485 | The PDF y plus the distance from the top is the page height |
| Document.InsertTextAsWrittenSucceeds | crates/pdf-core/src/document.rs:433-529 | With the program's lookup, insertion succeeds when the written current font name has data and the page and MediaBox are fine |
| Document.InsertTextAsWrittenMisses | crates/pdf-core/src/document.rs:408-423 | When the written name has no data, non-empty text fails with `FontNotFound` of that name |
| Document.InsertTextSucceeds | crates/pdf-core/src/document.rs:433-529 | With the corrected name, insertion into a valid document fails only for the page, family or MediaBox |
| Document.RegularVariantNotFound | crates/pdf-core/src/document.rs:408-423 | A family with only a regular variant fails as written with `FontNotFound("s")`, and draws when corrected |
| Document.ImageIndex | crates/pdf-core/src/document.rs:1320-1330 | An embedded image, from the search start on, made from the same bytes. None means no image from there on was made from them |
| Document.EmbedImage | crates/pdf-core/src/document.rs:1316-1350 | Known bytes reuse their image. New bytes are embedded, or the conversion error is reported |
| Document.ImageRefOnPage | crates/pdf-core/src/document.rs:1350-1382 | The existing name on the page, or "Im{n}" from the counter. Other pages are unchanged, and the pixel size is the image's |
| Document.GetOrCreateImageRef | crates/pdf-core/src/document.rs:1316-1382 | Fails exactly when the bytes are new and cannot be converted, and keeps the image bookkeeping valid |
| Document.ImageRefStable | crates/pdf-core/src/document.rs:1316-1382 | Placing the same bytes on the same page again reuses the name and changes nothing |
| Document.InsertImageScaled | crates/pdf-core/src/document.rs:706-741 | Page check, then embedding, then sizing by mode, page height and buffering. The image's top edge is y below the page top. Other pages are untouched, and a height failure leaves the image embedded |
| Document.DrawImage | crates/pdf-core/src/document.rs:725-738 | The bottom is height − y − actual height. The `q … Q` operators are appended to that page only |
| Document.AddBlankPage | crates/pdf-core/src/document.rs:1456-1538 | Appends an empty A4 page, 841.89 high, and returns its number |
| Document.DuplicatePage | crates/pdf-core/src/document.rs:1559-1686 | Fails with `InvalidPage` for a bad number. Otherwise it appends a copy with the committed content and the original's resource names, but not its buffered content |
| Document.DuplicateCopies | crates/pdf-core/src/document.rs:1559-1686 | The copy has the original's height, fonts and images, and every other page keeps its own |
| Document.DuplicateKeepsValid | crates/pdf-core/src/document.rs:1559-1686 | Duplicating keeps both font and image bookkeeping valid |

## Left out

- Loading and saving PDF files, the lopdf object graph, the page tree
  (`Kids`/`Count`), stream decompression and resource dictionaries are
  left out, because they belong to a foreign library. A page is a
  MediaBox (own or inherited, reduced to its value) plus content bytes.
- Font subsetting, `encode_text_hex_remapped` and embedding the font
  objects (`to_pdf_objects`, `embed_fonts`) are left out.
  `create_subset` is not part of this model.
- `generate_widths_array`, `ascender` and `descender` are left out
  because they only feed the font objects.
- TrueType parsing is left out: the face is a cmap and an advance map
  returned by a parser parameter.
- PNG decoding, alpha blending and zlib compression in `from_png` are
  left out. The decoder is the `fromPng` parameter.
- Image deduplication by `DefaultHasher` is modelled as equality of the
  image bytes. Hash collisions are not modelled.
- Float formatting in operator text is the `num` parameter. f32 and f64
  rounding are not modelled, and sizes and positions are exact reals.
- `render_float` and the f64 to (baht, satang) rounding are modelled
  only through `BahtParts` on exact reals.
- Text formatting in renderer blocks (`format_text`, a table column's
  `format`) is left out, as are the renderer's `set_font`, QR blocks and
  font loading from disk.
- Template and schema parsing, WASM bindings, examples and tests are
  left out.
- `Dictionary::embedded` and `from_file` are left out, because they read
  files. `max_word_len` and `len` are the record's field and the set's
  size.
- `Document.Flush`: the source skips pages whose buffer is empty and
  writes new stream objects. Here an empty buffer appends nothing,
  which gives the same page content.
- Fonts.TextWidth: the sum is an unbounded `nat`. The source sums into a
  `u32`, which cannot overflow for texts under 65537 characters.
- ThaiFormat.ThaiNumberIgnoresSign: integers are unbounded, so
  `i64::MIN`, whose `abs()` overflows in the source, is not singled
  out.
- Document.DrawImage: for a zero width or height in a fitting mode the
  source divides by zero and writes non-finite numbers. The model
  buffers nothing in that case.
- Renderer.Wrapped: the wrapper is a parameter of block rendering
  (`Env.wrap`), so the block layout lemmas hold for any wrapper.
  `Renderer.Wrapper` gives the source's choice.
- Document.FontDataNamed: the source searches the families of a
  `HashMap`, whose iteration order is unspecified. The model searches
  them in one fixed order. When two families hold data of the same name,
  for instance family "a" at bold-italic and family "a-bold" at italic
  (both "a-bold-italic"), which data the source finds is unspecified,
  and the model does not promise which one it finds either.
- Renderer.ParseAndFormatDate: the year is an unbounded integer. The
  source adds 543 to an `i32` in `format_thai_date_short`,
  `format_thai_date_long` and `format_thai_year`, which overflows for
  years above 2147483104, such as "2147483647-01-01". That panics in a
  debug build and wraps in a release build. `Renderer.DateRoundTrip`
  and `ThaiFormat.FormatThaiYear` share this gap.
- Counters for font and image resource names are unbounded. The
  source's `u32` counters cannot realistically wrap.

## Findings

| source | as written | input that shows it | evidently intended | confidence | as-written member | corrected member |
|---|---|---|---|---|---|---|
| crates/pdf-core/src/document.rs:408-423 | `get_current_font_name` returns `get_variant_name(...)`, which is the bare family name for regular/normal and "{family}-bold" and so on otherwise. `build` names the data "{family}-regular", so the lookup in `insert_text` misses. It also ignores the variant fallback of `get_variant` | a family "s" registered with a regular variant only, selected at regular/normal, then `insert_text("A", 1, …)` | use the written name when data carries it, as for the renderer's legacy "{id}-bold" fonts, and otherwise the data `get_variant` selects. `Renderer.BoldBlockFails` shows the same miss in the renderer: a bold block on a font loaded without a bold file fails with `FontNotFound("s-bold")` | medium, not executed | Document.RegularVariantNotFound | Document.CurrentFontName |
| crates/template/src/parser.rs:30-38 | a segment ending in '[' slices `seg[b + 1 .. len - 1]` with start after end, which panics | the binding "$.a[" | the binding resolves to nothing | high, not executed | Binding.OpenBracketPanics | Binding.ResolveBinding |
