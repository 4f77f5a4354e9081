# Word document text extraction, modelled in Dafny

`WordProcessor` pulls plain text and a little metadata out of Word documents.
For a `.docx` file (`process_docx`) it reads the paragraphs and the table cells
of the parsed document and glues them into one string; for a legacy `.doc` file
(`process_doc`) it tries five extraction strategies in a fixed order and keeps
the first one that returns more than ten characters. The last of those
strategies, `_extract_with_olefile`, opens the file as an OLE container and,
only when the container holds a stream named `Wordflucument`, reads the
`WordDocument` stream and cleans it with two regular-expression substitutions;
otherwise it raises "Not a valid OLE file".

This project models those three pieces of logic and proves what they do:

- `pytext.dfy` (module `PyText`): Python's whitespace test, `str.strip()` and
  `str.join`, the string operations the extractor relies on.
- `content.dfy` (module `Content`): the extracted text and its metadata dict.
- `docx_text.dfy` (module `DocxText`): `process_docx`. The parsed document is
  plain data: the text of each paragraph, the text of each cell of each row of
  each table, and the number of sections. `ProcessDocx` keeps the source's loops
  and is proved equal to the specification functions `KeptParagraphs`,
  `RowCells`, `TableLines`, `TableTexts` and `FullText`. The lemmas about those
  functions state the meaning: each of them works element by element in
  document order (the `...Append` lemmas), what a single paragraph, cell, row
  or table contributes (`KeptParagraphsMember`, `RowCellsOne`, `TableLinesOne`,
  `TableTextsOne`), when the text is empty, and when the table block is
  appended.
- `legacy_doc.dfy` (module `LegacyDoc`): `process_doc`. What each strategy would
  do for the file is given as a function `run` from strategy to outcome (it
  returns `None` or a string, or it raises). `ProcessDoc` keeps the source's loop,
  with `last_error`. It also returns the list of strategies it called, and it is
  proved equal to the specification `FallbackResult`/`Consulted`. The lemmas give
  first-wins, the length gate, the exhaustion policy, and the fact that later
  strategies are never consulted.
- `ole_cleanup.dfy` (module `OleCleanup`): the clean-up at lines 180-182, as
  pure functions. The class `[^\x20\x7E\r\n]` lists four characters (space,
  `~`, CR, LF), not a range. Since all of them except `~` are whitespace, the
  second substitution leaves nothing but `~`. The model proves that the output
  is exactly as many `~` as the input holds.
- `wrappers.dfy` (module `Wrappers`): `Option` and `Result`.

Behaviour of the code as written, which the model keeps:

- The exhaustion error's f-string contains no placeholder. The message is the
  fixed text ending in the literal words `(last error)`, and it does not carry
  the last underlying error.
- `process_doc` raises when no strategy was accepted and at least one of them
  raised; it returns the sentinel text only when none raised.
- `_extract_with_olefile` checks for a stream named `Wordflucument` but reads
  the stream `WordDocument`. The clean-up at lines 180-182 runs only for files
  that hold a stream of the first name.
- The `.docx` metadata key is `"page count"`, with a space. The `.doc` metadata
  key is `"page_count"`.
- The sentinel text is copied as written, without a closing bracket.

## Model

| member | source | states |
|---|---|---|
| PyText.Trim | word_processor.py:23 | `strip()` never grows the text; a non-empty result starts and ends with a non-whitespace character |
| PyText.TrimEmptyIffBlank | word_processor.py:23 | the test `if para.text.strip():` fails exactly when the text is all whitespace (or empty) |
| PyText.TrimIdempotent | word_processor.py:33-34 | a stripped cell text is already stripped: stripping it again changes nothing |
| DocxText.KeptParagraphs | word_processor.py:21-24 | every entry of `paragraphs` has non-empty stripped text, and there are at most as many as the document has paragraphs |
| DocxText.KeptParagraphsAppend | word_processor.py:21-24 | paragraph filtering works paragraph by paragraph and keeps document order: the filter of a concatenation is the concatenation of the filters |
| DocxText.KeptParagraphsMember | word_processor.py:21-24 | a paragraph text is in `paragraphs` iff it is one of the document's paragraphs and is not blank (kept unstripped) |
| DocxText.KeptParagraphsEmptyIff | word_processor.py:21-24 | no paragraph survives iff every paragraph is blank |
| DocxText.RowCells | word_processor.py:31-34 | every entry of `row_text` is a non-empty, already stripped cell text, at most one per cell |
| DocxText.RowCellsAppend | word_processor.py:32-34 | cells are judged one by one and keep their row order: the cells of a concatenation are the concatenation of the cells |
| DocxText.RowCellsOne | word_processor.py:33-34 | a single cell contributes its stripped text, or nothing when it is blank |
| DocxText.RowCellsEmptyIff | word_processor.py:31-35 | a row contributes nothing iff all its cells are blank |
| DocxText.TableLines | word_processor.py:29-36 | every line of a table is non-empty, at most one per row |
| DocxText.TableLinesAppend | word_processor.py:30-36 | rows are rendered one by one and keep their table order |
| DocxText.TableLinesOne | word_processor.py:31-36 | a single row renders as its kept cells joined by " \| ", or as nothing when all its cells are blank |
| DocxText.TableLinesEmptyIff | word_processor.py:29-37 | a table renders no line (and is dropped) iff all its cells are blank |
| DocxText.TableTexts | word_processor.py:27-38 | every table block is non-empty, at most one per table |
| DocxText.TableTextsOne | word_processor.py:29-38 | a single table renders as its lines joined by "\n", or as nothing when all its cells are blank |
| DocxText.TableTextsEmptyIff | word_processor.py:27-42 | no table block exists iff every cell of every table is blank |
| DocxText.TableTextsAppend | word_processor.py:27-38 | table blocks are produced table by table in document order |
| DocxText.CollectRowText | word_processor.py:31-34 | the cell loop collects exactly `RowCells(row)` |
| DocxText.ProcessDocx | word_processor.py:18-59 | an unreadable document gives the error "Error processing Word document: " + cause; otherwise the text is `FullText(doc)` and the metadata is `DocxMetadata(doc, fileSize)` |
| DocxText.FullTextEmptyIff | word_processor.py:41-43 | the text is empty iff every paragraph and every table cell is blank |
| DocxText.FullTextShape | word_processor.py:41-43 | with no non-blank table cell the text is exactly the paragraph join; otherwise it is the paragraph join, "\n\n", and the non-empty table blocks joined by "\n\n" |
| DocxText.LeadingSeparator | word_processor.py:41-43 | with only blank paragraphs and some non-blank table cell, the text starts with "\n\n" |
| DocxText.BlankParagraphIgnored | word_processor.py:22-41 | inserting a blank paragraph anywhere leaves the text unchanged |
| DocxText.BlankTableIgnored | word_processor.py:28-43 | inserting an all-blank table anywhere leaves the text unchanged |
| DocxText.TwoRowTable | word_processor.py:28-38 | rows `[x, y]` and `["", z]` render as two lines, first x and y joined by the cell separator, then z alone: the empty cell is dropped |
| DocxText.DocxMetadataKeys | word_processor.py:49-55 | the keys are "page count" (the section count), "has_tables" (any table at all, blank or not), "paragraph_count" (all paragraphs, blank or not) and "file_size"; there is no "page_count" key |
| LegacyDoc.FirstAccepted | word_processor.py:86-91 | the index found is that of an accepted strategy with no accepted strategy before it; none found means none is accepted |
| LegacyDoc.ProcessDoc | word_processor.py:61-102 | the result is `FallbackResult(run, fileSize)` and the strategies called are exactly the first `Consulted(run)` of the fixed order |
| LegacyDoc.LastRaisedIsLastError | word_processor.py:85-93 | `last_error` is empty iff no strategy so far raised, and otherwise is the error of the last one that raised |
| LegacyDoc.FirstWins | word_processor.py:77-91 | when strategy k is the first accepted one, its text is returned with the default metadata and exactly k+1 strategies are called |
| LegacyDoc.LaterStrategiesIgnored | word_processor.py:86-91 | strategies after the winner do not affect the result: two runs that agree on every consulted strategy end identically |
| LegacyDoc.LengthGate | word_processor.py:89 | a strategy returning None or at most ten characters is not the winner and leaves `last_error` unchanged |
| LegacyDoc.RaisingStrategy | word_processor.py:92-94 | a strategy that raises is not the winner and its error becomes `last_error` |
| LegacyDoc.ExhaustionPolicy | word_processor.py:96-102 | with no accepted strategy, the result is the fixed error if any strategy raised and the sentinel text otherwise, after all five are called |
| LegacyDoc.ExhaustionHidesCause | word_processor.py:97-98 | two exhausted runs in each of which some strategy (any one) raised give the same error, whatever errors were raised |
| LegacyDoc.SuccessIsNeverShort | word_processor.py:72-102 | a successful result always has more than ten characters and the metadata {page_count: 1, file_size} |
| LegacyDoc.LegacyMetadataKeys | word_processor.py:72-75 | the metadata has exactly the keys "page_count" (value 1) and "file_size" |
| LegacyDoc.OlefileWinsByTildeCount | word_processor.py:174-184 | if the four earlier strategies fail and olefile returns its cleaned stream (which it does only when the `Wordflucument` check at line 171 passes), that text wins iff the stream holds more than ten '~' |
| OleCleanup.KeepListed | word_processor.py:180 | after the first substitution only space, '~', CR and LF remain, and the text is no longer |
| OleCleanup.KeepListedKeepsTildes | word_processor.py:180 | the first substitution keeps every '~' |
| OleCleanup.DeleteSpaceRuns | word_processor.py:182 | after the second substitution no whitespace remains, and the text is no longer |
| OleCleanup.DeleteSpaceRunsIsNonSpace | word_processor.py:182 | deleting whitespace runs equals deleting each whitespace character |
| OleCleanup.Cleanup | word_processor.py:180-182 | the cleaned text consists only of '~' and is no longer than the input |
| OleCleanup.CleanupIsTildeCount | word_processor.py:180-182 | the cleaned text is exactly as many '~' as the input contains |
| OleCleanup.CleanupIdempotent | word_processor.py:180-182 | cleaning twice is the same as cleaning once |

## Left out

- Opening the document (`docx.Document`) and reading the file size (`os.path.getsize`) are library and filesystem calls. Their results are inputs: a `Document` value (or the message of the exception the library raised) and `fileSize`. A failing `getsize` is not modelled.
- Exception kinds are not modelled. Every failure of the document library becomes one error message.
- `WordDocumentContent` is not part of this model. It is treated as a holder of one string (`Extraction.text`), and the throwaway empty instance created before the loop is not modelled.
- The five strategies are given as outcomes (`run`), not modelled. `_extract_with_pywin32` and `_extract_with_win32com` start and quit an external Word process; `_extract_with_textract` and `_extract_with_docx2txt` wrap unseen libraries. Their resource handling, and any exception that escapes them, are outside the model.
- In `_extract_with_olefile`, only the clean-up at lines 180-182 is modelled. Opening the OLE container, the UTF-8 decoding with `errors='ignore'` and the stream lookup are byte I/O and codec behaviour. The lookup tests for a stream named `Wordflucument` (line 171) and then reads a differently named stream, `WordDocument` (line 174); a file without a `Wordflucument` stream never reaches the clean-up and raises "Not a valid OLE file" (line 185). The model leaves this to the strategy's given outcome, so `OlefileWinsByTildeCount` holds only for runs where olefile returned its cleaned stream.
- The `if __name__ == "main"` block is an entry point that never runs.
- The innermost loop of `process_docx` (over the cells of a row) is a method of its own that `ProcessDocx` calls. It is the same loop and computes the same list.
- Python's truthiness of the returned value is modelled for `None` and strings only. A strategy returning some other type (bytes, say) is not modelled.
