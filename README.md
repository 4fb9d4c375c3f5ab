# Certificate hash chain and RTF mail merge, in Dafny

This project models the core of a certificate-issuing tool. The tool has two parts.

**The hash-chain builder.** `chain_certificates` in `scripts/chain_certificates.py` reads a CSV of certificates. It rejects a header that lacks a required column and an input without data rows. For each row in turn it:

- strips CertID, RecipientName and CourseTitle;
- normalises DateIssued to `YYYY-MM-DD`;
- picks the previous hash, lower-cases it and checks its format. The first row uses its own PreviousHash, or the all-zero genesis hash when that is blank. Every later row uses the CurrentHash just computed for the row before it;
- hashes the five fields joined by `|` with SHA-256;
- stops with an error when that hash was already seen in the same pass.

From the finished rows the builder derives three more things:

- the output column list;
- a hash-to-position index;
- optionally a verification URL, a QR-service URL and a QR image path for each row.

**The RTF mail merge.** Two scripts fill an RTF template from the chained records.

- `scripts/export_merge_rtf.py`:
  - `rtf_escape` escapes `\`, `{` and `}`;
  - `apply_template` fills six `\fldrslt` placeholders and the HYPERLINK and INCLUDEPICTURE instructions;
  - `main` joins the filled pages with `\page` breaks.
- `export_merge_rtf.py` at the repository root:
  - `rtf_escape` also writes every non-ASCII character as the `\uN?` control word, where N is the decimal code point. This is the Unicode form of the RTF specification;
  - its `MERGEFIELD` pass replaces each `{ MERGEFIELD name }` group whose stripped name is a data key.

## What is modelled, and how

The model is split into six modules.

- `Wrappers` holds `Option` and `Result`.
- `Text` holds `str.strip` over Python's whitespace set, ASCII lower-casing, decimal rendering and zero padding, and `str.replace`.
- `Dates` holds `_normalize_date`. It models `strptime("%Y-%m-%d")` by the grammar of its three directives and the calendar check, and `strftime` by zero padding.
- `Chain` holds the builder:
  - `Build` is a function: the specification of the whole run after the CSV is parsed.
  - `ChainCertificates` is a method with the source's loop over `output_rows` and `seen_hashes`, proved equal to `Build`.
  - `LinkedChain` is the chain validity predicate. The source has no verifier of its own, so this predicate is derived from the linking lines.
- `RtfMerge` holds `scripts/export_merge_rtf.py`. Its page join is a method with the loop of `main`.
- `RtfUnicode` holds the root `export_merge_rtf.py`. The regular expression of the `MERGEFIELD` pass is modelled by a scanner, `MatchField`. The scanner is proved sound and complete against a written-out description of the pattern's language, `FieldSyntax`.

Things the code does that the model takes as parameters:

- SHA-256 is the function `Env.hash`. The only thing assumed about it is that it returns 64 lowercase hex digits; it is not assumed injective.
- The QR-service URL builder, the success of the QR download, and `os.path.abspath` are also fields of `Env`.
- Absent options (`None`) and empty strings are the same value in `Config`, since Python's `if base_url:` treats them alike.

Where the code and its description differ, the model follows the code:

- `_is_hex64` is modelled as `int(s, 16)` accepts, not as "64 hex digits". A sign, a `0x` prefix and single underscores also pass, so a previous hash such as `0x` followed by 62 zeros is accepted (`Chain.PrefixedHashPasses`). Because every computed digest passes the check, only the first row can fail it (`Chain.InvalidPreviousOnlyFirst`).
- The `%d` directive also accepts a space followed by a digit.

## Model

| member | source | states |
|---|---|---|
| Chain.ChainCertificates | scripts/chain_certificates.py:69-144 | The loop over the rows, keeping the set of seen hashes and appending each enriched record, returns what `Build` specifies: the first error, or the records, the column list and the index |
| Chain.LinkNext | scripts/chain_certificates.py:82-116 | One iteration, given that `seen` is the set of CurrentHash values so far, yields the record or the error that `LinkRow` specifies for that row |
| Chain.Build | scripts/chain_certificates.py:63-160 | A successful build has rows, one record per row and the output columns of its options. A failed build names at least one missing column, or reports no data rows for an empty input, or carries a row error |
| Chain.LinkRow | scripts/chain_certificates.py:86-107 | Every error of a step is a row error, and the step fails with the bad-date error exactly when the date does not parse |
| Chain.LinkRowErrors | scripts/chain_certificates.py:86-107 | A bad date carries the stripped value. A bad previous hash carries the linked, lower-cased value, which fails the format check. A duplicate carries the digest of the row's fields, which an earlier record already has |
| Chain.LinkRowOk | scripts/chain_certificates.py:89-116 | A successful step yields the record of the row: its cells, a previous hash that passes the check and is the linked one, and a CurrentHash not seen before |
| Chain.LinkRowAccepts | scripts/chain_certificates.py:89-116 | Conversely, such a record is exactly what the step yields |
| Chain.LinkRows | scripts/chain_certificates.py:82-107 | The loop yields one record per row, and every error it raises is a row error: a bad date, a bad previous hash or a duplicate hash |
| Chain.LinksExactlyChains | scripts/chain_certificates.py:88-107 | The loop succeeds with records `out` exactly when `out` is a valid chain over the rows. In a valid chain the first record links to the row's own PreviousHash or to the genesis hash, each later one to the CurrentHash before it, every CurrentHash is the digest of the five fields, and all CurrentHash values are distinct |
| Chain.LinksSound | scripts/chain_certificates.py:88-107 | Whatever the loop produces is a valid chain |
| Chain.LinksExactlySteps | scripts/chain_certificates.py:82-107 | The loop succeeds with `out` exactly when each record is the accepted step from the records before it |
| Chain.StepsExactlyChains | scripts/chain_certificates.py:88-107 | A sequence of accepted steps is exactly a valid chain |
| Chain.ChainExtend | scripts/chain_certificates.py:103-107 | Appending an accepted step to a valid chain keeps it valid, distinctness of hashes included |
| Chain.ChainOverRows | scripts/chain_certificates.py:83-101 | In a valid chain over CSV rows, the first PreviousHash is the lower-cased stripped input or the genesis hash. Every record holds the stripped cells and the normalised date, and its CurrentHash is the digest of `CertID\|RecipientName\|CourseTitle\|DateIssued\|PreviousHash` |
| Chain.GenesisLower | scripts/chain_certificates.py:10 | The genesis hash is 64 `'0'` characters and lower-casing leaves it unchanged |
| Chain.FailsAtFirstBadRow | scripts/chain_certificates.py:82-107 | A failing loop fails at some row: all rows before it link, and the error is the one that row raises |
| Chain.RowErrorNumber | scripts/chain_certificates.py:95-107 | A bad previous hash or a duplicate is reported with row number i+2 of the row that raised it |
| Chain.DuplicateReported | scripts/chain_certificates.py:103-107 | A duplicate-hash error names a hash already computed for an earlier row, and that hash is the digest of the failing row's fields |
| Chain.InvalidPreviousOnlyFirst | scripts/chain_certificates.py:88-98 | Only the first row can fail the hash-format check: the error says row 2 and carries that row's lower-cased previous hash, which fails the check |
| Chain.LaterPreviousPasses | scripts/chain_certificates.py:91-95 | After the first row, the previous hash always passes the format check |
| Chain.LaterPreviousIgnored | scripts/chain_certificates.py:91-92 | Changing the PreviousHash cell of any row after the first does not change the loop's result |
| Chain.BuildIgnoresLaterPrevious | scripts/chain_certificates.py:88-92 | Changing the PreviousHash cell of any row after the first does not change the build |
| Chain.BuildChecksFirst | scripts/chain_certificates.py:69-77 | The build fails with the missing-columns error exactly when a required column is absent, and that error carries exactly the absent required columns. It fails with the no-data error exactly when every column is present and there are no rows |
| Chain.BuildSound | scripts/chain_certificates.py:63-160 | A successful build has rows. Its records without their enrichment keys form a valid chain, and are those records enriched. Its columns are the output columns and its index is the index of its records |
| Chain.BuildComplete | scripts/chain_certificates.py:69-136 | When the header is complete and the rows admit a valid chain, the build succeeds with that chain |
| Chain.BuildIgnoresOptions | scripts/chain_certificates.py:118-134 | The URL and QR options change neither whether the build succeeds, nor the error, nor the hashed part of the records |
| Chain.HashIndex | scripts/chain_certificates.py:160 | The index's keys are exactly the CurrentHash values, and each key maps to a position holding that hash |
| Chain.IndexPositions | scripts/chain_certificates.py:160 | With distinct hashes, the index has one entry per record, and each CurrentHash maps to its own 0-based position |
| Chain.BuildIndex | scripts/chain_certificates.py:160 | After a successful build of N rows, the index has N entries, and record i's CurrentHash maps to i |
| Chain.MissingColumnsOf | scripts/chain_certificates.py:70 | A column is reported missing exactly when it is required and absent from the header |
| Chain.OutputColumns | scripts/chain_certificates.py:138-144 | The column list starts with the six required columns and has one more column for each of the base URL, QR-URL and QR-directory options that is set |
| Chain.OutputColumnsOrder | scripts/chain_certificates.py:138-144 | VerificationURL is present exactly when there is a base URL, QRCodeURL exactly with the QR-URL option, and QRCodePath exactly with a QR directory. The list is strictly in the order required, VerificationURL, QRCodeURL, QRCodePath |
| Chain.Enrich | scripts/chain_certificates.py:118-134 | Enrichment changes only the three optional keys. VerificationURL is there exactly with a base URL, and QRCodeURL exactly with a base URL and the QR-URL option. QRCodePath only appears with both a base URL and a QR directory |
| Chain.EnrichValues | scripts/chain_certificates.py:118-132 | With a base URL, VerificationURL ends with `/?hash=` and the record's hash, after the base without trailing slashes. QRCodeURL, when asked for, is the QR URL of that URL. QRCodePath is present exactly when a QR directory is set and the QR image of that URL downloads to the record's file in it; it is that path, made absolute when asked |
| Chain.RStripSlash | scripts/chain_certificates.py:120 | `rstrip('/')` keeps a prefix, drops only slashes, and leaves no trailing slash |
| Chain.VerificationUrl | scripts/chain_certificates.py:120 | The URL ends with the hash, right after `/?hash=`, and what comes before is the base without its trailing slashes |
| Chain.UrlCarriesHash | scripts/chain_certificates.py:120 | One trailing slash more on the base gives the same URL |
| Chain.QrFileName | scripts/chain_certificates.py:128 | The QR file name ends with `.png`. With a non-blank CertID, what comes before is the CertID |
| Chain.QrFileNameNumbered | scripts/chain_certificates.py:128 | With a blank CertID the QR file name is digits and then `.png`. The digits read back as the 1-based row position, and the name is 7 characters long below row 1000 |
| Chain.JoinPath | scripts/chain_certificates.py:129 | The path ends with the file name. An absolute name replaces the directory. Otherwise the path starts with the directory, is the name alone when the directory is empty, and has a `/` just before the name when it is not |
| Chain.IsHex64 | scripts/chain_certificates.py:34-42 | Every value that strips to 64 hex digits, in either case, passes. A value that passes strips to 64 characters, each a hex digit, a sign, `x`, `X` or `_` |
| Chain.DigestPassesCheck | scripts/chain_certificates.py:34-42 | Every SHA-256 digest passes `_is_hex64` |
| Chain.DigestStable | scripts/chain_certificates.py:92-94 | Stripping and lower-casing leave a digest unchanged, and a digest is never blank |
| Chain.PrefixedHashPasses | scripts/chain_certificates.py:34-42 | `_is_hex64` accepts a 64-character string with a `0x` prefix, which is not 64 hex digits |
| Text.Trim | scripts/chain_certificates.py:21-22 | The result of strip is no longer than the value and neither starts nor ends with whitespace |
| Text.TrimSlice | scripts/chain_certificates.py:21-22 | Strip keeps one contiguous piece of the value, and everything it drops on either side is whitespace |
| Text.TrimIdempotent | scripts/chain_certificates.py:21-22 | Stripping twice is stripping once |
| Text.TrimEmpty | scripts/chain_certificates.py:21-22 | Strip gives the empty string exactly when the value is all whitespace |
| Text.TrimPadded | scripts/chain_certificates.py:21-22 | Whitespace added on either side does not change the result of strip |
| Text.Lower | scripts/chain_certificates.py:94 | Lower-casing keeps the length, and each character of the result is the lower-cased character at the same position |
| Text.DecimalRoundTrip | scripts/chain_certificates.py:128 | Reading the decimal rendering of a number back gives the number |
| Text.Replace | scripts/export_merge_rtf.py:29-41 | `str.replace` returns a text that does not contain the pattern unchanged |
| Text.ReplaceFirst | scripts/export_merge_rtf.py:29-41 | At the first occurrence of the pattern, the text before it is copied, the occurrence becomes the replacement, and the scan goes on after it |
| Text.ReplaceSplit | scripts/export_merge_rtf.py:29-41 | When no occurrence can run from the first part into the second, replacing in the concatenation is replacing in each part |
| Text.ReplaceKeeps | scripts/export_merge_rtf.py:29-41 | A piece that no occurrence can overlap is kept, and each side of it is replaced on its own |
| Text.ReplaceAt | scripts/export_merge_rtf.py:29-41 | An occurrence of a pattern that cannot overlap itself is replaced wherever it stands, and each side of it is replaced on its own |
| Text.ReplaceSingle | scripts/export_merge_rtf.py:14 | `str.replace` of a one-character pattern substitutes that character everywhere, left to right |
| Dates.ParseIso | scripts/chain_certificates.py:28 | A parse gives a year 0 to 9999, a month 1 to 12 and a day 1 to 31. The text starts with four digits and a `-`, and the year is the value of those digits |
| Dates.MonthAt | scripts/chain_certificates.py:28 | `%m` reads a month 1 to 12: one digit has its value, two digits have their two-digit value |
| Dates.DayAt | scripts/chain_certificates.py:28 | `%d` reads a day 1 to 31: one digit has its value, a space and a digit has the digit's value, two digits have their two-digit value |
| Dates.ParseIsoSpelled | scripts/chain_certificates.py:28 | Every text the pattern accepts is the four year digits, `-`, a spelling of the month (`str(m)` or zero-padded), `-` and a spelling of the day (`str(d)`, zero-padded, or a space and the digit) |
| Dates.ParseSpelled | scripts/chain_certificates.py:28 | Conversely, every such spelling is accepted and gives the year, month and day it spells |
| Dates.NormalizeSpelled | scripts/chain_certificates.py:25-31 | Every spelling of a valid date, with one- or two-digit month and day, is normalised to the zero-padded form |
| Dates.FormatIso | scripts/chain_certificates.py:31 | The rendering of a valid date is canonical, and its year, month and day digits read back as the date |
| Dates.NormalizeDate | scripts/chain_certificates.py:25-31 | A value that fails to parse is reported with its stripped form |
| Dates.NormalizeDateCanonical | scripts/chain_certificates.py:25-31 | A successful result is `YYYY-MM-DD` in decimal digits and names a valid calendar date |
| Dates.NormalizeIdempotent | scripts/chain_certificates.py:25-31 | Normalising a normalised date returns it unchanged |
| Dates.NormalizeCanonical | scripts/chain_certificates.py:25-31 | Every valid date of years 1 to 9999, written canonically, is accepted unchanged |
| Dates.FormatParse | scripts/chain_certificates.py:28-31 | Parsing the rendering of a valid date gives the date back |
| Dates.NormalizeIgnoresPadding | scripts/chain_certificates.py:26 | Whitespace around the value does not change the result |
| Dates.ShortFieldsRepadded | scripts/chain_certificates.py:28-31 | `2024-1-5` is accepted and re-padded to `2024-01-05` |
| Dates.ImpossibleDateRefused | scripts/chain_certificates.py:27-30 | `2023-02-29` fits the pattern but is refused, and the error names it |
| RtfMerge.RtfEscape | scripts/export_merge_rtf.py:11-14 | Reading the escape back, where a backslash takes the next character literally, gives the text, `None` reading as empty: the escape loses nothing. It is as long as the text plus its number of `\`, `{` and `}` characters |
| RtfMerge.RtfEscapeBlank | scripts/export_merge_rtf.py:12-13 | `rtf_escape(None)` and `rtf_escape("")` are both empty |
| RtfMerge.EscapeBracesEach | scripts/export_merge_rtf.py:14 | Because backslashes are replaced first, the three chained replaces equal prefixing each `\`, `{` and `}` with a backslash and copying every other character, in order |
| RtfMerge.ReplacesEach | scripts/export_merge_rtf.py:14 | The three one-character substitutions, in the source's order, equal the per-character escape |
| RtfMerge.ApplyTemplate | scripts/export_merge_rtf.py:17-43 | A template holding none of the placeholders comes back unchanged |
| RtfMerge.MissingFieldIsBlank | scripts/export_merge_rtf.py:19-25 | A cell the record lacks, or holds as `None` or empty, is filled in as the empty string |
| RtfMerge.MissingLikeEmpty | scripts/export_merge_rtf.py:19-25 | A missing cell and an empty one fill any template alike |
| RtfMerge.FillsResult | scripts/export_merge_rtf.py:29-34 | In any template, a `\fldrslt` placeholder closed by its group's `}` shows the record's escaped value for that field, and the template on either side of it is filled on its own |
| RtfMerge.FillsRecipientName | scripts/export_merge_rtf.py:29 | For a name without `\`, `{` or `}` that does not start with a later field name, in any template, `\fldrslt RecipientName}` becomes `\fldrslt` followed by the name and `}`, and either side is filled on its own |
| RtfMerge.FillsHyperlink | scripts/export_merge_rtf.py:37-38 | With a VerificationURL, a HYPERLINK instruction closed by its field's `}` anywhere in any template becomes the HYPERLINK of the escaped URL, and either side is filled on its own |
| RtfMerge.FillsPicture | scripts/export_merge_rtf.py:40-41 | With a QRCodePath, an INCLUDEPICTURE instruction anywhere in any template becomes the INCLUDEPICTURE of the escaped path, and either side is filled on its own |
| RtfMerge.HyperlinkKeptWithoutUrl | scripts/export_merge_rtf.py:37-38 | Without a VerificationURL, a HYPERLINK instruction anywhere in any template comes back unchanged, and either side is filled on its own |
| RtfMerge.PictureKeptWithoutPath | scripts/export_merge_rtf.py:40-41 | Without a QRCodePath, an INCLUDEPICTURE instruction anywhere in any template comes back unchanged, and either side is filled on its own |
| RtfMerge.ApplyKeeps | scripts/export_merge_rtf.py:27-43 | A piece that none of the passes can overlap is kept by `apply_template`, and either side of it is filled on its own |
| RtfMerge.FillKeeps | scripts/export_merge_rtf.py:29-34 | The six chained `\fldrslt` replaces keep a piece that none of their placeholders can overlap, and fill either side of it on its own |
| RtfMerge.FillHits | scripts/export_merge_rtf.py:29-34 | The chained replaces turn one placeholder into its value when earlier passes cannot overlap it and later passes cannot overlap the value, and fill either side of it on its own |
| RtfMerge.InterleaveAt | scripts/export_merge_rtf.py:61-66 | Page j sits at position 2j of the parts, with a page break just before it unless it is the first |
| RtfMerge.MergedParts | scripts/export_merge_rtf.py:61-66 | The loop builds the pages with a page break after each page but the last |
| RtfMerge.ConcatInterleave | scripts/export_merge_rtf.py:70 | Concatenating the parts equals joining the pages with the page break |
| RtfMerge.MergeDocument | scripts/export_merge_rtf.py:61-70 | The document is the pages in CSV order joined by `\page` and a newline |
| RtfMerge.JoinLength | scripts/export_merge_rtf.py:61-70 | The document is as long as the pages plus exactly n-1 separators |
| RtfMerge.JoinEnds | scripts/export_merge_rtf.py:61-70 | The document starts with the first page and ends with the last one, with no separator after it |
| RtfUnicode.RtfEscape | export_merge_rtf.py:5-17 | Every character of the escape is ASCII |
| RtfUnicode.EscapePerCharacter | export_merge_rtf.py:10-17 | The replaces and the substitution escape each character on its own, in order. `\`, `{` and `}` gain a backslash, a non-ASCII character becomes `\uN?`, and any other character is copied |
| RtfUnicode.EncodeAppend | export_merge_rtf.py:17 | The non-ASCII substitution of a concatenation is the concatenation of the substitutions |
| RtfUnicode.UnicodeForm | export_merge_rtf.py:14-16 | A non-ASCII character becomes `\u`, the decimal code point and `?` |
| RtfUnicode.AsciiAgrees | export_merge_rtf.py:10-12 | On ASCII text the escape equals the one of `scripts/export_merge_rtf.py` |
| RtfUnicode.DecodeEscape | export_merge_rtf.py:10-17 | Reading the escape back, with `\uN?` as code point N, gives the text: the escape loses nothing |
| RtfUnicode.CloseFrom | export_merge_rtf.py:29 | The group `[^}]+` runs to the first `}` at or after its start |
| RtfUnicode.MatchField | export_merge_rtf.py:29 | A match starts with `{`, ends just after a `}`, lies within the text and captures a non-empty name |
| RtfUnicode.MatchSound | export_merge_rtf.py:29 | Every match of the scanner is text of the pattern's language. The captured name is the text between the whitespace after `MERGEFIELD` and the closing brace |
| RtfUnicode.MatchComplete | export_merge_rtf.py:29 | Every text of the pattern's language is matched up to the same closing brace, and its name agrees with the language's run once stripped |
| RtfUnicode.FieldTextMatched | export_merge_rtf.py:29 | A field written `{ MERGEFIELD name }` is matched as a whole, and its stripped name is `name` |
| RtfUnicode.Substitute | export_merge_rtf.py:7-28 | A field whose stripped name is a data key becomes ASCII text that reads back as the cell's text, `None` for a cell the row is too short for. Any other field is left exactly as written |
| RtfUnicode.FieldReplaced | export_merge_rtf.py:24-29 | In the usual form, a field whose name is a data key becomes the escaped value, and any other field is left exactly as written. The text before it is copied and the text after it is scanned on |
| RtfUnicode.MissingCellWritten | export_merge_rtf.py:7-29 | A field naming a column the row is too short for is filled with the text `None` |
| RtfUnicode.MergeFields | export_merge_rtf.py:29 | With no data the pass changes nothing |
| RtfUnicode.UnknownFieldsKept | export_merge_rtf.py:24-29 | When no field, at any position, names a data key, the pass returns the text unchanged |

## Left out

- Reading and writing files is left out: the CSV reader and writer, the JSON export, `os.makedirs`, the argument parser and both `main` entry points apart from the page join. The model starts from the parsed header and rows and ends with the values written.
- SHA-256 itself is a parameter. Injectivity is not assumed, so duplicate digests are reached through the `seen_hashes` check, as in the code.
- The QR download is a parameter. Its side effect, a PNG written during the loop, is not modelled. The warning printed when a download fails is output only and is not modelled either.
- `urllib.parse.urlencode` inside `_build_qr_url` is a parameter, `Env.qrUrl`.
- `os.path.abspath` is a parameter. `os.path.join` is modelled for POSIX paths only.
- The enrichment of lines 118-134 is applied after the loop in `Build`. Nothing the loop reads later depends on it (`Chain.LinkRowEnriched`), so the order does not change the result.
- The text of each `ValueError` message is not modelled. Each error carries the values its message names: the missing columns, the stripped date, the row number and the hash.
- Dates.NormalizeCanonical, Dates.NormalizeIdempotent, Dates.NormalizeDateCanonical: for years 1 to 999 the output of `strftime("%Y")` differs between platforms. The model renders four digits, zero-padded.
- Dates.ParseIso: `strptime` also accepts non-ASCII Unicode digits. The model accepts ASCII digits only.
- Chain.IsHex64: `int(s, 16)` also accepts non-ASCII Unicode digits and surrounding whitespace inside the check. The model accepts ASCII hex digits only. The whitespace case cannot arise, because the value is stripped first.
- Text.Lower: `str.lower` is modelled on ASCII letters only. Other letters are left unchanged.
- RtfMerge.FillsResult: stated for values without `\`, `{` or `}`, where no field name of a later pass starts the value. A value that starts with a later field name is rewritten again by that pass, as in the code.
- RtfMerge.FillsRecipientName: stated under the same two conditions as RtfMerge.FillsResult. A name with `\`, `{` or `}` is escaped, and a name that starts with a later field name is rewritten again by that pass.
- RtfMerge.FillsHyperlink: stated for the instruction followed by the `}` that closes its field group, as templates write it.
- RtfUnicode.RtfEscape: takes a string. The cell values `csv.DictReader` gives are strings or `None`, and `None` is turned into the text `None` first (`RtfUnicode.CellText`). The list a too-long row stores under the key `None` is never looked up, because every field name is a string.
- RtfUnicode.FieldReplaced: stated for fields written in the usual spacing (`{ MERGEFIELD name }`) after text with no `{`. Fields in other spacing are covered by `RtfUnicode.MatchComplete`, and overlapping candidates by `RtfUnicode.UnknownFieldsKept`.
- RtfUnicode.UnknownFieldsKept: requires that no field at any position names a key. That is stronger than "no field the scan stops at".
- The HYPERLINK and INCLUDEPICTURE regular-expression passes of the root `export_merge_rtf.py` (lines 31-53) are not modelled.
- RtfUnicode.UnicodeForm: RTF readers take N in `\uN` as a signed 16-bit number and need surrogate pairs above U+FFFF. The code writes the plain code point, and so does the model.
