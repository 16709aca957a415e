# Word document manager, modelled in Dafny

The system is a small web application that manages Word documents in one
storage folder, `documents`. It can list the folder's documents newest
first. It can create a document from a form, upload a file and preview a
document's text. It can also edit a document in the browser and download or
delete it. The model covers the application's own logic, all of it in
`app.py`:

- `text.dfy` (`Text`) holds the Python string operations that logic relies
  on, each written the way Python defines it: `strip`, ASCII `lower`,
  `endswith`, `rfind`/`rsplit('.', 1)`, `split('\n')`, `'\n'.join` and the
  decimal counter of an f-string.
- `filenames.dfy` (`FileNames`) holds the file-name rules.
  - `allowed_file`, the extension test.
  - The `.docx` ending that the create form adds to names.
  - `os.path.splitext`.
  - The loop that searches for a free name when an upload collides with a
    stored file (`UniqueUploadName`, a `while` loop proved against its
    specification).
- `codec.dfy` (`Codec`) sees a document as its sequence of
  `(style, text)` paragraphs. It holds:
  - the document `create_document` writes;
  - the document a web-edit save writes (`BuildEditedDocument`, a loop);
  - the web editor's read-back of a title and a body (`LoadForEditing`, a
    loop);
  - the preview's loop (`PreviewTexts`).

  Each loop is specified by a function (`VisibleLines`, `TitleOf`, `BodyOf`,
  `PreviewOf`). Lemmas relate those functions: saving and then loading,
  load–save stability, and how the preview and the editor agree.
- `registry.dfy` (`Registry`) holds `get_documents`: the scan loop keeps the
  allowed names, and the records are then sorted newest first. The proofs
  show the sort is ordered, loses and adds nothing, and is stable. Stable
  means that files of the same second keep scan order, as Python's `sorted`
  does with `reverse=True`.
- `handlers.dfy` (`Handlers`) holds the request handlers. The class
  `DocumentFolder` owns the folder as a map from name to stored file.
  - Each handler is a method that checks what the route checks, in the same
    order, and returns its result or the error it flashes.
  - A handler that writes states the folder's new state in terms of the old
    one.

The style names that python-docx gives a level-0 heading and a plain
paragraph are the library's choice. The model takes them as a parameter
(`Codec.Styles`). `Codec.SaveThenLoad` proves the title round trip when the
title style starts with `Heading`. `Codec.DefaultStylesTitleBecomesBody`
covers the library's default template. There a level-0 heading is styled
`Title`, which the editor's `startswith('Heading')` test does not accept. So
a saved title comes back as an empty title, with the old title as the first
line of the content.

A second quirk follows from the name rules, in `FileNames.DotNameCandidateNotAllowed`:
- An upload named `.docx` passes the extension test.
- `splitext` finds no extension in that name.
- If a file of that name already exists, the upload is stored as `.docx_1`.
- The listing does not show `.docx_1`.

For every name whose extension `splitext` does find, the renamed upload
stays listed (`FileNames.CandidateKeepsAllowed`).

## Model

| member | source | states |
|---|---|---|
| Text.StripLeftSpec | app.py:209 | `lstrip` removes exactly a white-space prefix and stops at a non-space character |
| Text.StripRightSpec | app.py:209 | `rstrip` removes exactly a white-space suffix and stops at a non-space character |
| Text.StripEmptyIffBlank | app.py:239 | `line.strip()` is empty exactly when every character of the line is white space |
| Text.NotBlankStrip | app.py:239 | a line with some non-space character passes `if line.strip():` |
| Text.LowerChar | app.py:24 | an upper-case ASCII letter maps to the lower-case letter at the same place in the alphabet; every other character is kept |
| Text.Lower | app.py:24 | lowering keeps the length |
| Text.LastIndexOf | app.py:24 | the result is the position of the last occurrence (no occurrence after it), or -1 when there is none |
| Text.LastIndexOfAt | app.py:24 | a position holding the character with none after it is the last occurrence |
| Text.Split | app.py:238 | `split` always yields at least one piece |
| Text.SplitNone | app.py:238 | a string without the separator splits into itself alone |
| Text.SplitLast | app.py:238 | appending a separator and a separator-free piece appends that piece to the split |
| Text.SplitPiecesLackSep | app.py:238 | no piece of `content.split('\n')` contains a line break |
| Text.JoinSplit | app.py:258 | joining the pieces of a split with the separator gives the string back |
| Text.SplitJoin | app.py:258 | splitting a join of separator-free pieces gives the pieces back |
| Text.Decimal | app.py:134 | the counter renders as a non-empty string of digits with no leading zero (only 0 renders as `0`), one digit exactly below 10 |
| Text.ParseDecimalOfDecimal | app.py:134 | the decimal rendering reads back as the same number |
| Text.DecimalInjective | app.py:134 | distinct counters render differently |
| FileNames.LastDotExists | app.py:24 | a name containing a dot has a last dot |
| FileNames.ExtensionHasNoDot | app.py:24 | an accepted extension contains no dot |
| FileNames.DotSuffix | app.py:24 | a dot followed by an accepted extension is the last dot of the name |
| FileNames.AllowedFileIffSuffix | app.py:23-24 | a name is allowed exactly when it ends in `.docx` or `.doc`, ignoring case (both directions) |
| FileNames.AllowedFileHasSuffix | app.py:24 | an allowed name ends in a dot followed by `docx` or `doc` in any case |
| FileNames.AllowedFileAccepts | app.py:23-24 | `A.DOCX` and `report.doc` pass the extension test |
| FileNames.AllowedFileRefuses | app.py:23-24 | `a.docx.exe`, `noext` and `file.` are refused |
| FileNames.CreateName | app.py:90-91 | the stored name ends with `.docx` and starts with the given name, and is either the name itself or exactly five characters longer, so `a.doc` becomes `a.doc.docx` |
| FileNames.CreateNameKeepsDocx | app.py:90-91 | the name is unchanged exactly when it already ends with `.docx` |
| FileNames.CreateNameIdempotent | app.py:90-91 | normalising twice gives the same name as once |
| FileNames.CreateNameAllowed | app.py:90-91 | every created name passes the listing's extension test |
| FileNames.DocxEndingAllowed | app.py:24 | every name ending in `.docx` passes the extension test |
| FileNames.CreateNameCaseSensitive | app.py:90 | `x.DOCX` becomes `x.DOCX.docx`, because the test is case-sensitive |
| FileNames.SplitExt | app.py:132 | base followed by extension is the name; a non-empty extension is one dot and no further dot or `/`, with some non-dot character before it |
| FileNames.SplitExtFinds | app.py:132 | an extension is found exactly when the last path component has a dot after some non-dot character (both directions), and it is then the text from the last dot on |
| FileNames.SplitExtPlain | app.py:132 | `report.docx` splits into `report` and `.docx` |
| FileNames.SplitExtDotOnly | app.py:132 | `.docx` has no extension: the leading dot does not start one |
| FileNames.CandidatesDistinct | app.py:134 | no candidate is the original name, and distinct counters give distinct candidates |
| FileNames.LastDotInTail | app.py:134 | a tail whose only dot is its first character holds the last dot of the joined name |
| FileNames.CandidateKeepsAllowed | app.py:130-136 | when the name has an extension, every candidate name still passes the extension test |
| FileNames.DotNameCandidateNotAllowed | app.py:126-136 | `.docx` is accepted, but its first candidate `.docx_1` is refused by the extension test |
| FileNames.DotNameCandidateRefused | app.py:23-24 | `.docx_1` is refused by the extension test |
| FileNames.UniqueUploadName | app.py:130-136 | the result is free; it is the name itself when that is free, else the first free `base_k.ext` with every earlier candidate taken |
| FileNames.UploadFirstCollision | app.py:132-134 | the first candidate for `report.docx` is `report_1.docx` |
| FileNames.UploadSecondCollision | app.py:132-134 | the second candidate for `report.docx` is `report_2.docx` |
| FileNames.CandidateDigit | app.py:134 | a one-digit counter puts `_` and that digit between base and extension |
| Codec.KeepVisible | app.py:209-210 | filtering never adds strings |
| Codec.KeepVisibleSnoc | app.py:209-210 | one more string is kept exactly when it is visible |
| Codec.KeepVisibleAppend | app.py:238-240 | filtering distributes over concatenation, so it keeps the order |
| Codec.KeepVisibleMember | app.py:209-210 | a string is kept exactly when it is present and visible |
| Codec.KeepVisibleIdempotent | app.py:239 | filtering kept lines again keeps them all |
| Codec.Texts | app.py:208 | one text per paragraph |
| Codec.TextsSnoc | app.py:208 | one more paragraph adds its text at the end |
| Codec.TextsAppend | app.py:208 | the texts of a concatenation are the concatenated texts |
| Codec.HeadingPart | app.py:234-235 | at most one heading paragraph is written |
| Codec.BodyParagraphs | app.py:238-240 | one paragraph per kept line |
| Codec.BodyParagraphsSnoc | app.py:238-240 | one more line adds one paragraph of the body style at the end |
| Codec.BodyParagraphsText | app.py:238-240 | paragraph i has the body style and holds line i, so the texts are the lines |
| Codec.VisibleLinesExact | app.py:238-240 | the kept lines are exactly the content's lines with a non-space character; none holds a line break |
| Codec.SplitLinesExample | app.py:238 | `"one\r\n\n  \ntwo"` splits into `one\r`, an empty line, a blank line and `two` |
| Codec.VisibleLinesExample | app.py:238-240 | of those lines only `one\r` and `two` are saved; the carriage return stays |
| Codec.KeepFirstAndLast | app.py:239 | of four lines where only the first and last are visible, exactly those two are kept, in order |
| Codec.CreateDocument | app.py:94-102 | the texts are the title when non-empty, then the whole content when non-empty; the first paragraph has the title style exactly when there is a title |
| Codec.BuildEditedDocument | app.py:232-240 | the saved document is the optional heading followed by one body paragraph per visible line, in order |
| Codec.TitleIndex | app.py:252-254 | the title position, when there is one, holds a heading with non-empty text |
| Codec.TitleIndexFirst | app.py:252-254 | no paragraph before the title position claims the title, and with no title none does |
| Codec.RemoveAt | app.py:252-256 | taking out one position shortens the document by one |
| Codec.TitleOfEmpty | app.py:253 | the title is empty exactly when no paragraph claimed it |
| Codec.LoadStepHeading | app.py:253-254 | a heading met while the title is empty becomes the title and adds no body text |
| Codec.LoadStepOther | app.py:255-256 | any other paragraph leaves the title unchanged and adds its text to the body when visible |
| Codec.TitleIndexSnocKeep | app.py:253 | a paragraph that cannot claim the title does not move the title position |
| Codec.RemoveAtSnoc | app.py:255-256 | removing the title position commutes with appending a paragraph |
| Codec.LoadStep | app.py:252-256 | one paragraph more: a heading met while the title is empty becomes the title, any other paragraph keeps the title and adds its text to the body when visible |
| Codec.LoadForEditing | app.py:248-258 | the loop's title is the first heading with text and its content is every other visible paragraph joined with line breaks |
| Codec.PreviewTexts | app.py:205-210 | the preview lists every visible paragraph text, headings included, in order |
| Codec.TitleStable | app.py:253 | once a title is claimed, later paragraphs never replace it |
| Codec.BodyIsPreviewWithoutTitle | app.py:252-256 | the body is the visible paragraphs before the title, then those after it, and it is the preview when there is no title |
| Codec.PreviewSplitsAtTitle | app.py:205-210 | the preview is the body with the title text put back at its place when visible |
| Codec.LoadExample | app.py:252-256 | with `intro`, heading `A`, heading `B`, the title is `A` and the body is `intro`, `B` |
| Codec.LoadThree | app.py:252-256 | after a non-heading paragraph, a heading with text is the title and the paragraphs around it are the body |
| Codec.SaveThenLoad | app.py:232-258 | with a heading title style and a non-heading body style, loading a save gives the title and the visible lines back |
| Codec.SaveThenLoadLines | app.py:232-256 | with heading title style and non-heading body style, reading back the heading and the kept lines gives that title and those lines |
| Codec.TitleAtFront | app.py:253-254 | a heading with text at the front is the title, and the body is read from the rest |
| Codec.NoHeadingNoTitle | app.py:253 | a document without headings has an empty title and its body is its preview |
| Codec.SaveThenLoadTitleAsBody | app.py:232-258 | with non-heading styles, the saved title is read back as the first body line (when visible) and the title is empty |
| Codec.SaveThenLoadLinesTitleAsBody | app.py:232-256 | with non-heading styles, reading back gives an empty title and the title (when visible) in front of the kept lines |
| Codec.PlainBody | app.py:238-256 | body paragraphs of a non-heading style hold no heading, claim no title and read back as their lines |
| Codec.PlainFront | app.py:252-256 | a non-heading paragraph in front of a heading-free document adds its visible text in front of the body |
| Codec.PreviewCons | app.py:208-210 | a paragraph in front adds its text in front of the preview when visible |
| Codec.DefaultStylesTitleBecomesBody | app.py:232-258 | with `Title` and `Normal` styles, a saved title is lost as the title and reappears as body text |
| Codec.HeadingPartPreview | app.py:234-235 | the heading contributes its title to the preview exactly when the title is visible |
| Codec.EditCycleStable | app.py:238-258 | saving the content the editor shows keeps the same visible lines |
| Codec.CreateKeepsContentWhole | app.py:101-102 | create stores `a\nb` as one paragraph, where a web-edit save stores two |
| Codec.TwoVisibleLines | app.py:238-240 | two visible lines joined by a line break are saved as two body paragraphs |
| Registry.Collected | app.py:28-38 | the scan loop collects at most one record per entry |
| Registry.CollectedMember | app.py:29-30 | a record is collected exactly when it comes from a scanned entry whose name is allowed |
| Registry.Insert | app.py:39 | one insertion adds exactly one record |
| Registry.SortNewestFirst | app.py:39 | the sort keeps the number of records |
| Registry.InsertPermutes | app.py:39 | an insertion is a permutation of the record and the list |
| Registry.NewestFirstCons | app.py:39 | a record no older than any record of an ordered list can go in front of it |
| Registry.InsertKeepsOrder | app.py:39 | inserting into a newest-first list keeps it newest first |
| Registry.InsertStable | app.py:39 | records of the same second keep their relative order across an insertion |
| Registry.SortSpec | app.py:39 | the result is newest first, a permutation of the input, and keeps input order among records of the same second |
| Registry.GetDocuments | app.py:26-39 | the listing is the allowed records sorted: newest first, neither losing nor adding records, ties in scan order, empty for an empty folder |
| Registry.ListingExample | app.py:39 | two files a second apart are listed newer first |
| Registry.SortPair | app.py:39 | of two records the newer is listed first |
| Registry.CollectedPair | app.py:28-38 | two allowed entries are both collected, in scan order |
| Handlers.Scan | app.py:29-32 | the scan has one entry per listed name, in scan order, and every entry names a file of the folder with that file's modification time |
| Handlers.CollectedOnce | app.py:29-38 | when the scanned names are distinct, no record is collected twice |
| Handlers.UploadListed | app.py:126-136 | an accepted upload whose name has an extension is stored under a name the listing shows |
| Handlers.EditedDocumentLoads | app.py:232-258 | with heading title style, reading an edited document back gives the title and the visible lines |
| Handlers.ScanCollects | app.py:29-38 | a record is collected from the folder scan exactly when it describes an allowed file of the folder, with its time and path |
| Handlers.ListingContents | app.py:26-39 | any rearrangement of the collected records holds each allowed file of the folder exactly once, and nothing else |
| Handlers.DocumentFolder.constructor | app.py:19-21 | the folder starts with the files already present |
| Handlers.DocumentFolder.Create | app.py:82-109 | the file under the `.docx`-ended name is replaced by the new document, nothing else changes, and the name is listed |
| Handlers.DocumentFolder.Upload | app.py:113-144 | a missing or nameless file gives NoFileSelected and a refused name gives InvalidFileType, both without change. An accepted file is added under a name that was not taken, its own when free, else the first free candidate, and no other file changes |
| Handlers.DocumentFolder.Edit | app.py:146-153 | an unknown name gives NotFound, otherwise the path handed to the opener; nothing changes |
| Handlers.DocumentFolder.Download | app.py:167-176 | an unknown name gives NotFound, otherwise the stored content |
| Handlers.DocumentFolder.Delete | app.py:178-193 | an unknown name gives NotFound without change; otherwise exactly that file is removed |
| Handlers.DocumentFolder.Preview | app.py:195-215 | NotFound for an unknown name, CorruptDocument for an unreadable file, otherwise every visible paragraph text |
| Handlers.DocumentFolder.WebEditLoad | app.py:246-262 | NotFound for an unknown name, CorruptDocument for an unreadable file, otherwise the first heading as the title and the other visible paragraphs as the content |
| Handlers.DocumentFolder.WebEditSave | app.py:217-244 | an unknown name gives NotFound without change. Otherwise the file is replaced by the rebuilt document, with a missing title read as empty, nothing else changes, and with heading styles the next load gives title and lines back |
| Handlers.DocumentFolder.ListDocuments | app.py:76-80 | the listing has exactly one record per allowed file, with its time and path, newest first |

## Left out

- Flask is not part of this model: routing, templates, redirects, flash
  messages and the secret key. A handler returns the value its page would
  show, or an `Error` for the message it flashes.
- `open_document_in_word` and the `DISPLAY` check of `edit_document` drive
  desktop programs and the environment. `Edit` stops at the file path that
  would be handed to the opener.
- Real file-system I/O is a map from name to stored file. The clock is a
  parameter `now`, and the order of `os.listdir` is a parameter `order`.
- python-docx is not part of this model beyond its paragraphs' style names
  and texts. Its style names are a parameter. A file it cannot parse is
  `Unreadable`, and every handler that reads a document then reports
  `CorruptDocument`, as the catch-all `except` does.
- The record's `size` (a float in KB) and the `strftime` rendering of the
  time are left out. Times are whole seconds, and the sort compares them.
  The source compares the rendered local-time strings. Those sort the same
  way for four-digit years, except across a daylight-saving change of the
  local clock.
- Handlers.DocumentFolder.Delete: a failing `os.remove` is not modelled;
  the removal always succeeds.
- Handlers.DocumentFolder.Create, Handlers.DocumentFolder.Upload and
  Handlers.DocumentFolder.WebEditSave: a failing `doc.save` or `file.save`
  is not modelled; the write always succeeds.
- A paragraph is its style name and its text; python-docx's XML is not
  modelled. When the library sets a run's text it turns `\r` and `\n` into
  line-break elements, which read back as `\n`. So a saved line ending in
  `\r` (kept by `Codec.VisibleLinesExample`) reads back with `\n` there,
  where `Codec.SaveThenLoad` gives the text back unchanged.
- A visible line holding a control character that XML does not allow (such
  as `\x0c`) makes `add_paragraph` raise at app.py:240, outside any `try`.
  The model saves such a line like any other.
- Names holding `/` or `..` are not modelled: there is no path traversal,
  and a name is a key of the folder.
- Concurrency between requests is not modelled.
- A missing `filename`, `title` or `content` form field raises a `KeyError`
  in the source. The model always receives these fields, except the
  optional `title` of a web-edit save.
- The unused imports and the unreachable `app.run` after the return of
  `api_documents` are not modelled.
- `create_document` overwrites an existing file of the same name. It does
  not number the new name the way an upload does. The model follows the
  code.
- Text.Lower: lowers ASCII letters only. No other character lowers to
  `d`, `o`, `c` or `x`, so the extension test is still exact.
