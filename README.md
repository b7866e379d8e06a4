# MandateOCR core in Dafny

MandateOCR is three small web services that read scanned banking documents. `chequeOCR.py` reads cheques and
`mandate.py` reads mandates; both use the same algorithm and the same region table. `backup_mandate.py` reads
the other mandate layout. Each service cuts fixed rectangles (regions of interest, ROIs) out of the page, sends
each crop to a text-detection service, and post-processes the answers. In `chequeOCR.py` and `mandate.py` a
signature box is not sent to OCR; it only gets a fixed ink-pixel test. `backup_mandate.py` sends every box to
OCR, the signature boxes included, and only then applies the ink test to the signature boxes, so an OCR failure
on a signature box fails the request there.

This project models that core and proves what it computes:

- **Wrappers, Builtins, Dict.** Python's `str.strip`, `str.replace`, `sub in s`, clamped slicing, `str.rjust`,
  `"".join` and `re.sub(r'\D', '', s)`, stated over sequences. A Python dict is an insertion-ordered list of pairs.
- **Dates.** The `XX/XX/XXXX` layout both date formatters produce, and its inverse.
- **Pixels.** An image is a rectangular array of BGR pixels. The module covers `image[y1:y2, x1:x2]` with numpy's
  clamping, and the signature detector: grey conversion, inverted threshold at 128, `countNonZero > 500`.
  It also covers `remove_background`: threshold at 128 and a masked `bitwise_and`.
- **Vision.** The OCR collaborator. It is a function parameter `ocr` from a crop to the ordered annotation
  texts, or `Unavailable` when the call raises. The module also lists the ways a whole document fails.
- **ChequeOcr.** `chequeOCR.py` and `mandate.py`. It covers `format_date`, `clean_text`, the ROI table with its
  nested eight-box `Date` entry, and the loop of `extract_text_with_google_vision`. The loop is written as a
  `while` loop (with the inner loop over the digit boxes) and is proved equal to a fold over the table. The
  fold's results are then proved: which labels become fields, in what order, what values they hold, and what
  each signature record says.
- **BackupMandate.** `backup_mandate.py`. It covers the digit-cleaning `format_date`, its flat ROI table and the
  loop of `process_image`, again as a `while` loop proved equal to a fold.

The grey conversion of one pixel (`cv2.cvtColor`'s weights) is the parameter `grey`. The decoded image is an
`Option`; `None` means `cv2.imread` or `cv2.imdecode` produced no image. The methods take the ROI table as a
parameter, and the services pass the constant `Rois`. The lemmas about the constant tables are stated
separately.

Four points of the code's behaviour that are easy to misread:

- The cheque/mandate `format_date` does not delete non-digits. Only the backup variant does.
- OCR text is never collapsed: cheque/mandate text fields replace each `'\n'` by one space and strip. Date
  digits and backup texts are only stripped.
- The backup service never checks the decoded image. It fails at the first crop, so an empty table would
  succeed.
- Crops clamp to the image, as Python slicing does. An empty crop makes `cv2.imencode`/`cv2.cvtColor` raise,
  and that fails the document.

## Model

`chequeOCR.py` and `mandate.py` carry the same table (lines 42-65 of each) and the same functions:
`format_date` at chequeOCR.py:86-90 and mandate.py:71-74, `clean_text` at 92-94 and 76-77, `remove_background` at
96-101 and 79-82, and the loop at 103-179 and 84-136. Each ChequeOcr row cites one of the two files.

| member | source | states |
|---|---|---|
| Builtins.Strip | chequeOCR.py:129 | str.strip() is the infix that remains once whitespace is removed at both ends: everything cut is whitespace and the result neither starts nor ends with whitespace |
| Builtins.StripIdempotent | chequeOCR.py:94 | stripping twice is stripping once |
| Builtins.ReplaceChar | chequeOCR.py:94 | replace("\n", " ") keeps the length and rewrites exactly the newline positions to spaces |
| Builtins.NotContainsMissingChar | chequeOCR.py:133 | `sub in s` is false when one character of `sub` is absent from `s` |
| Builtins.JoinSingles | chequeOCR.py:132 | "".join of one-character parts has one character per part, in order |
| Builtins.Map | chequeOCR.py:114 | [f(x) for x in xs]: one result per element, in order; with the label projection it gives the label list of a table |
| Builtins.SliceSpec | chequeOCR.py:118 | s[lo:hi] has the clamped length and holds s[lo+k] at k; it equals the exact slice when the bounds are in range |
| Builtins.RJust | backup_mandate.py:65 | rjust(width, fill) has length max(width, len), ends with the input and is fill before it |
| Builtins.KeepDigits | backup_mandate.py:64 | re.sub(r'\D', '', s) is no longer than s and consists of digits |
| Builtins.KeepDigitsCounts | backup_mandate.py:64 | every digit is kept as often as it occurs and no other character is kept |
| Builtins.KeepDigitsAppend | backup_mandate.py:64 | deleting non-digits distributes over concatenation, so the digit order is kept |
| Builtins.KeepDigitsOfDigits | backup_mandate.py:64 | a string of digits is left unchanged |
| Dict.KeyList | chequeOCR.py:111 | the key list of a dict lists its keys in insertion order |
| Dict.GetPresent | chequeOCR.py:171 | a lookup succeeds exactly for the stored keys |
| Dict.PutKeys | chequeOCR.py:171 | d[k] = v adds k to the keys and nothing else |
| Dict.PutGet | chequeOCR.py:171 | after d[k] = v, k reads v and every other key reads as before |
| Dict.PutFresh | chequeOCR.py:171 | assigning a new key appends the pair at the end, as a Python dict keeps insertion order |
| Dict.GetStored | chequeOCR.py:132 | with unique keys, each stored pair is what a lookup of its key returns |
| Dates.Slashed | chequeOCR.py:89 | f"{s[:2]}/{s[2:4]}/{s[4:]}" has length 10 with '/' at indices 2 and 5 |
| Dates.UnslashedSlashed | chequeOCR.py:89 | removing the two separators gives back the 8 characters |
| Dates.SlashedUnslashed | mandate.py:73 | every 10-character string with '/' at 2 and 5 is the layout of its 8 other characters |
| Dates.SlashedAt | backup_mandate.py:67 | each non-separator position of the layout holds the matching input character |
| Pixels.CropSpec | chequeOCR.py:118 | image[y1:y2, x1:x2] keeps rows y1..y2 and columns x1..x2, each clamped to the image, pixel for pixel |
| Pixels.CropWithinBounds | mandate.py:96 | a rectangle inside the image is cut out as (y2-y1) rows of (x2-x1) pixels offset by (y1, x1) |
| Pixels.RowNonZeroPositions | chequeOCR.py:140 | countNonZero on a row counts exactly its non-zero positions |
| Pixels.DetectorCountsInk | chequeOCR.py:138-140 | inverted thresholding at 128 followed by countNonZero counts the pixels whose grey value is at most 128 |
| Pixels.SignaturePresentIff | mandate.py:107-109 | a signature is present iff more than 500 crop pixels have grey value at most 128 |
| Pixels.BitAnd | chequeOCR.py:100 | a bitwise and is at most each operand |
| Pixels.BitAndSelf | chequeOCR.py:100 | x & x == x, so masking an image with itself keeps the kept pixels' colour |
| Pixels.RemoveBackground | mandate.py:79-82 | remove_background keeps the dimensions and keeps a pixel iff its grey value is above 128, zeroing it otherwise |
| Pixels.InkIsZeroed | chequeOCR.py:139 | the pixels the detector counts as ink are exactly those remove_background zeroes |
| ChequeOcr.RoisLabelsDistinct | chequeOCR.py:42-65 | the labels of the table are distinct, as dict-literal keys are |
| ChequeOcr.LabelsWithSignature | chequeOCR.py:133 | the two signature labels contain "Signature" and the first five field labels do not |
| ChequeOcr.LabelsWithoutSignature | chequeOCR.py:133 | the other six field labels do not contain "Signature" |
| ChequeOcr.RoisSignatureEntries | chequeOCR.py:60-61 | the dispatch rule sends exactly Signature_1 and Signature_2 to signature detection |
| ChequeOcr.FormatDate | chequeOCR.py:86-90 | an 8-character string becomes XX/XX/XXXX (length 10, '/' at 2 and 5, the 8 characters recoverable); any other string is returned unchanged |
| ChequeOcr.FormatDateExample | chequeOCR.py:87 | 01022025 becomes 01/02/2025 |
| ChequeOcr.CleanText | chequeOCR.py:92-94 | clean_text has no newline, no surrounding whitespace, and only spaces or characters of its input |
| ChequeOcr.CleanTextIdempotent | mandate.py:76-77 | clean_text is idempotent |
| ChequeOcr.DetectSignature | chequeOCR.py:133-157 | a signature box yields a record with its label and coordinates, "Present" with cropped_image "/static/{label}.jpg" iff more than 500 ink pixels, else "Not Present" with no cropped_image; an empty crop fails |
| ChequeOcr.DatePartsSucceeds | chequeOCR.py:116-129 | the pass over the digit boxes fails exactly when some box cannot be read, with the first such box's error |
| ChequeOcr.DatePartsValues | chequeOCR.py:116-129 | on success date_parts holds the stripped text of every digit box in sub-table order |
| ChequeOcr.DigitTexts | mandate.py:101 | one stripped first annotation, or "", per digit box |
| ChequeOcr.TextFieldValue | mandate.py:133-134 | a text field is clean_text of the first annotation, or of "" when there is none; it fails iff the box is not legible |
| ChequeOcr.DateFieldValue | chequeOCR.py:116-132 | the Date value is format_date of the in-order concatenation of the digit texts; it fails iff some digit box is not legible |
| ChequeOcr.DateOfSingleDigits | chequeOCR.py:128-132 | when every digit box reads one character, Date is XX/XX/XXXX holding those digits in sub-table order |
| ChequeOcr.Fields | chequeOCR.py:158-171 | the entries that become fields are the non-signature entries |
| ChequeOcr.SignatureRois | chequeOCR.py:133 | the entries that become signature records are the signature entries |
| ChequeOcr.RunSucceeds | chequeOCR.py:114-171 | the loop succeeds exactly when the reader of every entry succeeds |
| ChequeOcr.RunSignatures | chequeOCR.py:146-157 | the signature list is extended by one record per signature entry, in table order |
| ChequeOcr.RunKeys | chequeOCR.py:132 | the field map gains exactly the labels of the non-signature entries |
| ChequeOcr.RunFieldOrder | chequeOCR.py:171 | with distinct labels the field map is extended by each non-signature label and its value, in table order |
| ChequeOcr.SplitAppend | chequeOCR.py:114 | splitting the table splits the field entries and the signature entries |
| ChequeOcr.FieldsAppend | chequeOCR.py:114 | the field entries of a concatenation are the concatenation of the field entries |
| ChequeOcr.SignatureRoisAppend | chequeOCR.py:114 | the signature entries of a concatenation are the concatenation of the signature entries |
| ChequeOcr.AllFields | chequeOCR.py:158 | a stretch without signature entries is all fields |
| ChequeOcr.AllSignatures | chequeOCR.py:133 | a stretch of signature entries is all signatures |
| ChequeOcr.ReaderSucceedsOnPage | chequeOCR.py:114-171 | the reader the rule picks for an entry succeeds exactly when OCR can read its boxes, or for a signature, when its crop has pixels |
| ChequeOcr.ExtractSucceeds | chequeOCR.py:103-179 | a document is produced exactly when the image loads and every entry is readable |
| ChequeOcr.ExtractSignatures | mandate.py:111-126 | "Signatures" has one record per signature entry, in table order, each with its label, its coordinates and the ink-test status |
| ChequeOcr.FieldsMembers | chequeOCR.py:133 | an entry becomes a field iff it is in the table and is not a signature entry |
| ChequeOcr.SignatureRoisMembers | chequeOCR.py:133 | an entry gets a signature record iff it is in the table and is a signature entry |
| ChequeOcr.ExtractKeys | mandate.py:92-134 | the keys of "Extracted_Text" are exactly the labels of the non-signature entries |
| ChequeOcr.ExtractFields | chequeOCR.py:114-171 | with distinct labels "Extracted_Text" lists the non-signature labels in table order, each with its date or text value |
| ChequeOcr.RoisDispatch | chequeOCR.py:42-65 | for the service's table, the entries before and after the two signatures are the fields |
| ChequeOcr.RoisParts | chequeOCR.py:42-65 | the table is its first eight entries, the two signatures and the last three |
| ChequeOcr.RoisLabels | chequeOCR.py:42-65 | the eleven field labels in table order, and the two signature labels |
| ChequeOcr.ChequeDocument | chequeOCR.py:103-179 | a returned document lists the eleven field labels in table order, Date being format_date of the eight digit texts, and the records of Signature_1 and Signature_2 at their coordinates |
| ChequeOcr.ExtractTextWithGoogleVision | chequeOCR.py:103-179 | the loop, with its inner loop over the digit boxes, returns the fold's result, including failure from the first unreadable box |
| BackupMandate.DateDigitsShape | backup_mandate.py:64-65 | after padding the string always has 8 digits: '0's for the missing digits, then the first eight digits in order |
| BackupMandate.FormatDateShape | backup_mandate.py:63-68 | format_date always returns DD/DD/DDDD: length 10, '/' at 2 and 5, digits elsewhere, holding the kept digits in order |
| BackupMandate.KeepDigitsSlashed | backup_mandate.py:64 | deleting the non-digits of XX/XX/XXXX gives back the eight digits |
| BackupMandate.FormatDateIdempotent | backup_mandate.py:63-68 | format_date is idempotent |
| BackupMandate.FormatDateSixDigits | backup_mandate.py:64-65 | "010225" becomes "00/01/0225" |
| BackupMandate.FormatDateEmpty | backup_mandate.py:85-88 | a date box with no text becomes "00/00/0000" |
| BackupMandate.StoredRois | backup_mandate.py:87-99 | the entries stored in extracted_data are the non-signature entries |
| BackupMandate.RunSucceeds | backup_mandate.py:78-99 | the loop succeeds exactly when every box can be read, signature boxes included |
| BackupMandate.RunSignatureFiles | backup_mandate.py:90-97 | signature_info is extended by "{label}.jpg" of each signed signature entry, in order |
| BackupMandate.RunKeys | backup_mandate.py:87-99 | extracted_data gains exactly the labels of the non-signature entries |
| BackupMandate.DataStoredCons | backup_mandate.py:88 | a stored pair followed by stored pairs is the stored list of the longer table |
| BackupMandate.DataStoredAfter | backup_mandate.py:99 | appending a stored pair after the prefix keeps the prefix and extends the stored list |
| BackupMandate.RunData | backup_mandate.py:78-99 | with distinct labels extracted_data is extended, in table order, by each stored label and its value |
| BackupMandate.SignatureFilesMembers | backup_mandate.py:94-97 | a file name is listed iff it is "{label}.jpg" of a signature entry with ink |
| BackupMandate.StoredRoisMembers | backup_mandate.py:87-99 | an entry is stored iff it is in the table and is not a signature entry |
| BackupMandate.ProcessSucceeds | backup_mandate.py:71-101 | the request succeeds exactly when the image decodes (or the table is empty) and every box is legible; an undecodable image fails |
| BackupMandate.PageReaderValue | backup_mandate.py:79-85 | a box reads as the stripped first annotation, "" when there is none, and fails iff it is not legible |
| BackupMandate.ProcessSignatures | backup_mandate.py:90-97 | signature_info is the in-order list of "{label}.jpg" of the signature entries with more than 500 ink pixels, and lists exactly those |
| BackupMandate.ProcessKeys | backup_mandate.py:78-99 | the keys of extracted_data are exactly the labels of the non-signature entries |
| BackupMandate.ProcessData | backup_mandate.py:85-99 | with distinct labels extracted_data lists the stored labels in table order, a date label holding format_date of its text and any other label the text itself |
| BackupMandate.DateEntries | backup_mandate.py:38-53 | Date1, Date_From and Date_To contain "Date" and so are formatted as dates |
| BackupMandate.SignatureEntries | backup_mandate.py:54-58 | Signature_1, Signature_2 and Signature_3 contain "Signature" and not "Date", so they go to signature detection |
| BackupMandate.PlainLabelsMandate | backup_mandate.py:87-89 | UMRN_Number and Sponsor_bank_Code contain neither "Date" nor "Signature", so their text is stored as it is |
| BackupMandate.PlainLabelsAuthority | backup_mandate.py:87-89 | Utility_Code and I/We_Hereby_Authorize contain neither "Date" nor "Signature", so their text is stored as it is |
| BackupMandate.PlainLabelsBank | backup_mandate.py:87-89 | Bank_A/C_Number and With_Bank contain neither "Date" nor "Signature", so their text is stored as it is |
| BackupMandate.PlainLabelsCodes | backup_mandate.py:87-89 | IFSC_Code, MICR_Code and Amount_in_Words contain neither "Date" nor "Signature", so their text is stored as it is |
| BackupMandate.PlainLabelsAmount | backup_mandate.py:87-89 | Amount_in_Digits, Reference_1 and Phone_No contain neither "Date" nor "Signature", so their text is stored as it is |
| BackupMandate.PlainLabelsContact | backup_mandate.py:87-89 | Reference_2 and Email_ID contain neither "Date" nor "Signature", so their text is stored as it is |
| BackupMandate.PlainLabelsNames | backup_mandate.py:87-89 | Name_1, Name_2 and Name_3 contain neither "Date" nor "Signature", so their text is stored as it is |
| BackupMandate.RoisEntryKinds | backup_mandate.py:36-60 | the table's date entries are exactly entries 1, 15 and 16, its signature entries exactly 17, 19 and 21; the other seventeen are stored as text |
| BackupMandate.RoisLabelsDistinct | backup_mandate.py:36-60 | the labels of the table are distinct |
| BackupMandate.ProcessImage | backup_mandate.py:71-101 | the loop returns the fold's result: the data and signature lists, or the failure of the first box that raises |

## Definitions

The definitions the lemmas above characterise transcribe these source lines:

- Builtins.Strip and Builtins.Replace: `str.strip()` and `str.replace` at chequeOCR.py:94. Builtins.Slice is
  Python slicing (chequeOCR.py:89, 118). Builtins.Contains is `in` on strings (chequeOCR.py:133,
  backup_mandate.py:87, 89). Builtins.Join is `"".join` (chequeOCR.py:132). Builtins.KeepDigits and
  Builtins.RJust are `re.sub(r'\D', '', …)` and `rjust(8, '0')` (backup_mandate.py:64-65).
- Pixels.Crop: `image[y1:y2, x1:x2]` (chequeOCR.py:118, 135, 160; backup_mandate.py:79). Pixels.CvtGrey and
  Pixels.Threshold: `cv2.cvtColor` and `cv2.threshold` (chequeOCR.py:98-99, 138-139; backup_mandate.py:90-91).
  Pixels.CountNonZero: `cv2.countNonZero` (chequeOCR.py:140, backup_mandate.py:92). Pixels.BitwiseAnd:
  `cv2.bitwise_and` with a mask (chequeOCR.py:100).
- Vision.FirstText: `texts[0].description if texts else ""` (chequeOCR.py:128, 170; backup_mandate.py:85).
  Vision.Recognise: the encode and `text_detection` call before it (chequeOCR.py:121-125, 163-167;
  backup_mandate.py:80-83).
- ChequeOcr.FormatDate, CleanText and RemoveBackground: chequeOCR.py:86-90, 92-94 and 96-101.
  ChequeOcr.DateParts: the inner loop, chequeOCR.py:116-129. ChequeOcr.DetectSignature: chequeOCR.py:134-157.
  ChequeOcr.TextField: chequeOCR.py:159-171. ChequeOcr.Step: one pass of the loop body, chequeOCR.py:115-171.
  ChequeOcr.Run: the loop, chequeOCR.py:114-171. ChequeOcr.Extract: the whole function, chequeOCR.py:103-179.
- BackupMandate.FormatDate: backup_mandate.py:63-68. BackupMandate.PageReader: the read of one box,
  backup_mandate.py:79-85. BackupMandate.PageInk: the ink test, backup_mandate.py:90-92. BackupMandate.Step: one
  pass of the loop body, backup_mandate.py:79-99. BackupMandate.Run: the loop, backup_mandate.py:78-99.
  BackupMandate.Process: the whole function, backup_mandate.py:71-101.

## Left out

- HTTP plumbing is not modelled: the FastAPI apps, routes, CORS, the static mount, `download_signature` and the
  upload handling.
- Credential decoding and environment setup happen at startup and are not modelled.
- The OCR client, JPEG encoding and the network call are the parameter `ocr`. JPEG is lossy, so what the service
  sees is not modelled. Authentication errors and transport errors both become `Unavailable`.
- `cv2.cvtColor`'s weighted grey conversion is the parameter `grey`.
- `cv2.imread`/`cv2.imdecode` are the `Option` input. File bytes and image decoding are not modelled.
- The bytes written by `cv2.imwrite`, the temporary upload file and `os.remove` are not modelled. The model
  states the path a record or file name points to, not that file's contents.
- `mark_rois_on_image` draws on a copy of the image for display only and is not modelled.
- The race on shared signature files between concurrent requests is concurrency and is not modelled.
- Python's distinct exception types (FileNotFoundError, cv2.error, TypeError, the client's exceptions) collapse
  to three failure kinds: undecodable image, empty crop and OCR failure.
- The OCR service is a function of the crop's pixels: two boxes with identical crops (two blank digit boxes, say)
  always get the same reply, so a service that answers them differently is not represented. Every lemma holds for
  all such functions.
- Builtins.KeepDigits: `\d` on a Python `str` also matches non-ASCII decimal digits. The model keeps only
  '0'..'9', which is what the OCR of a digit region yields here.
- Builtins.IsSpace covers the characters `str.isspace` accepts, but there is no Unicode normalisation.
- Rectangle coordinates are natural numbers. The tables hold no negative coordinate, and Python's wrap-around for
  negative slice bounds is not modelled.
- ChequeOcr.ExtractTextWithGoogleVision and BackupMandate.ProcessImage take the ROI table as a parameter. The
  services always pass their constant table `Rois`.
