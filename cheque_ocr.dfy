/**
 * The cheque service (chequeOCR.py) and the first mandate service (mandate.py). Both files hold the same
 * ROI table and the same post-processing; this module models them once.
 *
 * For one decoded page the ROI table is walked in declaration order. A nested table is a date: each digit
 * box is read by OCR, the stripped texts are joined and formatted as XX/XX/XXXX. Otherwise a label containing
 * "Signature" is a signature box: the crop is thresholded and a signature record is appended. Every other
 * entry is a text field: the first OCR annotation with newlines turned into spaces, stripped.
 */
module ChequeOcr {
  import opened Wrappers
  import opened Builtins
  import opened Dict
  import opened Dates
  import opened Pixels
  import opened Vision

  /** One digit box of a date. */
  datatype Slot = Slot(name: string, rect: Rect)

  /** A table value: a rectangle, or a nested table of digit boxes whose order is the digit order. */
  datatype Region = Box(rect: Rect) | DigitBoxes(slots: seq<Slot>)

  datatype Roi = Roi(name: string, region: Region)

  /** The digit boxes of the date, M1 M2 D1 D2 Y1 Y2 Y3 Y4. */
  const DateBoxes: seq<Slot> := [
    Slot("M1", Rect(1585, 165, 1625, 220)),
    Slot("M2", Rect(1625, 165, 1665, 220)),
    Slot("D1", Rect(1665, 165, 1705, 220)),
    Slot("D2", Rect(1705, 165, 1745, 220)),
    Slot("Y1", Rect(1745, 165, 1785, 220)),
    Slot("Y2", Rect(1785, 165, 1825, 220)),
    Slot("Y3", Rect(1825, 165, 1865, 220)),
    Slot("Y4", Rect(1865, 165, 1905, 220))
  ]

  /** The ROI table, in declaration order, coordinates (x1, y1, x2, y2). */
  const Rois: seq<Roi> := [
    Roi("Account_Number", Box(Rect(35, 100, 380, 130))),
    Roi("Account_Name", Box(Rect(430, 60, 980, 130))),
    Roi("Check_Number", Box(Rect(1390, 70, 1650, 100))),
    Roi("BRSTN_Number", Box(Rect(1750, 60, 1880, 130))),
    Roi("Date", DigitBoxes(DateBoxes)),
    Roi("Payee_Name", Box(Rect(310, 280, 1350, 380))),
    Roi("Amount_In_Digits", Box(Rect(1440, 280, 1905, 380))),
    Roi("Amount_In_Words", Box(Rect(200, 390, 1905, 470))),
    Roi("Signature_1", Box(Rect(1500, 550, 1905, 690))),
    Roi("Signature_2", Box(Rect(1030, 550, 1440, 690))),
    Roi("MICR_Code", Box(Rect(470, 790, 725, 850))),
    Roi("Bank_Name", Box(Rect(130, 510, 400, 570))),
    Roi("Branch_Name", Box(Rect(40, 595, 400, 635)))
  ]

  /** The labels of the table are distinct, as the keys of a Python dict literal are. */
  lemma RoisLabelsDistinct()
    ensures forall i, j :: 0 <= i < j < |Rois| ==> Rois[i].name != Rois[j].name
  {
  }

  /** The two signature labels contain "Signature"; the first five field labels do not. */
  lemma LabelsWithSignature()
    ensures Contains("Signature_1", "Signature") && Contains("Signature_2", "Signature")
    ensures !Contains("Account_Number", "Signature") && !Contains("Account_Name", "Signature")
    ensures !Contains("Check_Number", "Signature") && !Contains("BRSTN_Number", "Signature")
    ensures !Contains("Date", "Signature")
  {
    var sub := "Signature";
    NotContainsMissingChar("Account_Number", sub, 0);
    NotContainsMissingChar("Account_Name", sub, 0);
    NotContainsMissingChar("Check_Number", sub, 0);
    NotContainsMissingChar("BRSTN_Number", sub, 1);
    NotContainsMissingChar("Date", sub, 0);
    assert OccursAt("Signature_1", sub, 0) && OccursAt("Signature_2", sub, 0);
  }

  /** The remaining labels of the table have no 'S' at all. */
  lemma LabelsWithoutSignature()
    ensures !Contains("Payee_Name", "Signature")
    ensures !Contains("Amount_In_Digits", "Signature") && !Contains("Amount_In_Words", "Signature")
    ensures !Contains("MICR_Code", "Signature") && !Contains("Bank_Name", "Signature") && !Contains("Branch_Name", "Signature")
  {
    var sub := "Signature";
    NotContainsMissingChar("Payee_Name", sub, 0);
    NotContainsMissingChar("Amount_In_Digits", sub, 0);
    NotContainsMissingChar("Amount_In_Words", sub, 0);
    NotContainsMissingChar("MICR_Code", sub, 0);
    NotContainsMissingChar("Bank_Name", sub, 0);
    NotContainsMissingChar("Branch_Name", sub, 0);
  }

  /** Which entries of the table the dispatch rule sends to signature detection: Signature_1 and Signature_2. */
  lemma RoisSignatureEntries()
    ensures forall k :: 0 <= k < |Rois| ==> (IsSignatureRoi(Rois[k]) <==> k == 8 || k == 9)
  {
    LabelsWithSignature();
    LabelsWithoutSignature();
  }

  /** format_date: an 8-character string becomes XX/XX/XXXX (splits at offsets 2 and 4); anything else is returned as it is. */
  function FormatDate(s: string): (r: string)
    ensures |s| == 8 ==> |r| == 10 && r[2] == '/' && r[5] == '/' && Unslashed(r) == s
    ensures |s| != 8 ==> r == s
  {
    if |s| == 8 then UnslashedSlashed(s); Slashed(s) else s
  }

  /** clean_text: newlines become spaces, then surrounding whitespace is stripped. */
  function CleanText(t: string): (r: string)
    ensures forall k :: 0 <= k < |r| ==> r[k] != '\n'
    ensures Trimmed(r)
    ensures forall k :: 0 <= k < |r| ==> r[k] == ' ' || r[k] in t
  {
    var spaced := Replace(t, "\n", " ");
    ReplaceChar(t, '\n', ' ');
    var r := Strip(spaced);
    assert forall k :: 0 <= k < |r| ==> r[k] == spaced[LeadingSpaces(spaced) + k];
    r
  }

  /** clean_text is idempotent. */
  lemma CleanTextIdempotent(t: string)
    ensures CleanText(CleanText(t)) == CleanText(t)
  {
    var r := CleanText(t);
    ReplaceChar(r, '\n', ' ');
    assert Replace(r, "\n", " ") == r;
    assert r == Strip(Replace(t, "\n", " "));
    StripIdempotent(Replace(t, "\n", " "));
  }

  datatype Status = Present | NotPresent

  /** The "status" string of a signature record. */
  function StatusText(s: Status): string {
    match s
    case Present => "Present"
    case NotPresent => "Not Present"
  }

  /** One entry of "Signatures"; croppedImage is the optional "cropped_image" key. */
  datatype SignatureRecord = SignatureRecord(signatureLabel: string, status: Status, coordinates: Rect, croppedImage: Option<string>)

  /** The returned record: "Extracted_Text" (an insertion-ordered dict) and "Signatures". */
  datatype Document = Document(extractedText: seq<(string, string)>, signatures: seq<SignatureRecord>)

  /** The URL path under which a present signature's cleaned crop is served. */
  function StaticPath(name: string): string {
    "/static/" + name + ".jpg"
  }

  /** What a signature record for `label` at `rect` must say about the page. */
  predicate RecordFor(rec: SignatureRecord, img: Image, name: string, rect: Rect, grey: Pixel -> byte) {
    && rec.signatureLabel == name
    && rec.coordinates == rect
    && (rec.status == Present <==> InkCount(Crop(img, rect), grey) > MinInkPixels)
    && rec.croppedImage == (if rec.status == Present then Some(StaticPath(name)) else None)
  }

  /** The signature branch: crop, detect, and build the record; cvtColor raises on an empty crop. */
  function DetectSignature(img: Image, name: string, rect: Rect, grey: Pixel -> byte): (r: Result<SignatureRecord, Failure>)
    ensures r.Success? <==> !IsEmpty(Crop(img, rect))
    ensures r.Failure? ==> r.error == EmptyRegion
    ensures r.Success? ==> RecordFor(r.value, img, name, rect, grey)
  {
    var crop := Crop(img, rect);
    if IsEmpty(crop) then Failure(EmptyRegion)
    else
      SignaturePresentIff(crop, grey);
      if SignaturePresent(crop, grey) then Success(SignatureRecord(name, Present, rect, Some(StaticPath(name))))
      else Success(SignatureRecord(name, NotPresent, rect, None))
  }

  /** The text OCR reads in one box of the page: crop, encode, call the service, take the first annotation. */
  function ReadBox(img: Image, rect: Rect, ocr: Image -> Reply): Result<string, Failure> {
    Recognise(Crop(img, rect), ocr)
  }

  /** The date_parts list after reading every digit box of `slots` with `read` and appending its stripped
      text to `parts`; the first box that cannot be read fails the whole document. */
  function DateParts(read: Rect -> Result<string, Failure>, slots: seq<Slot>, parts: seq<string>): Result<seq<string>, Failure>
    decreases |slots|
  {
    if slots == [] then Success(parts)
    else match read(slots[0].rect)
      case Failure(e) => Failure(e)
      case Success(t) => DateParts(read, slots[1..], parts + [Strip(t)])
  }

  /** The pass over the digit boxes fails exactly when some box cannot be read, and then with the error of
      the first such box. */
  lemma {:induction false} DatePartsSucceeds(read: Rect -> Result<string, Failure>, slots: seq<Slot>, parts: seq<string>)
    ensures DateParts(read, slots, parts).Success? <==> forall k :: 0 <= k < |slots| ==> read(slots[k].rect).Success?
    ensures DateParts(read, slots, parts).Failure? ==>
      exists j :: 0 <= j < |slots| && read(slots[j].rect).Failure? &&
        (forall k :: 0 <= k < j ==> read(slots[k].rect).Success?) && DateParts(read, slots, parts).error == read(slots[j].rect).error
    decreases |slots|
  {
    if slots != [] {
      assert forall k :: 1 <= k < |slots| ==> slots[1..][k - 1] == slots[k];
      var head := read(slots[0].rect);
      if head.Success? {
        DatePartsSucceeds(read, slots[1..], parts + [Strip(head.value)]);
        if DateParts(read, slots, parts).Failure? {
          var j :| 0 <= j < |slots| - 1 && read(slots[1..][j].rect).Failure? &&
            (forall k :: 0 <= k < j ==> read(slots[1..][k].rect).Success?) && DateParts(read, slots, parts).error == read(slots[1..][j].rect).error;
          assert read(slots[j + 1].rect).Failure?;
        }
      } else {
        assert read(slots[0].rect).Failure?;
      }
    }
  }

  /** On success date_parts holds, after what it held, the stripped text of each digit box in order. */
  lemma {:induction false} DatePartsValues(read: Rect -> Result<string, Failure>, slots: seq<Slot>, parts: seq<string>, ps: seq<string>)
    requires DateParts(read, slots, parts) == Success(ps)
    ensures |ps| == |parts| + |slots| && ps[..|parts|] == parts
    ensures forall k :: 0 <= k < |slots| ==> read(slots[k].rect).Success? && ps[|parts| + k] == Strip(read(slots[k].rect).value)
    decreases |slots|
  {
    if slots != [] {
      var head := read(slots[0].rect);
      var next := parts + [Strip(head.value)];
      DatePartsValues(read, slots[1..], next, ps);
      assert ps[..|parts|] == ps[..|next|][..|parts|];
      assert ps[|parts|] == ps[..|next|][|parts|];
      forall k | 1 <= k < |slots|
        ensures read(slots[k].rect).Success? && ps[|parts| + k] == Strip(read(slots[k].rect).value)
      {
        assert slots[1..][k - 1] == slots[k];
      }
    }
  }

  /** A date field: format_date of the joined digit texts, each digit box read by OCR. */
  function DateField(img: Image, slots: seq<Slot>, ocr: Image -> Reply): Result<string, Failure> {
    match DateParts(rect => ReadBox(img, rect, ocr), slots, [])
    case Failure(e) => Failure(e)
    case Success(parts) => Success(FormatDate(Join(parts)))
  }

  /** A text field: clean_text of the first annotation, or of "" when there is none. */
  function TextField(img: Image, rect: Rect, ocr: Image -> Reply): Result<string, Failure> {
    match ReadBox(img, rect, ocr)
    case Failure(e) => Failure(e)
    case Success(t) => Success(CleanText(t))
  }

  /** The dispatch rule's signature case: a plain rectangle whose label contains "Signature". */
  predicate IsSignatureRoi(roi: Roi) {
    roi.region.Box? && Contains(roi.name, "Signature")
  }

  /** The value stored under a non-signature label: a date for a nested table, cleaned text otherwise. */
  function FieldValue(img: Image, roi: Roi, ocr: Image -> Reply): Result<string, Failure> {
    match roi.region
    case DigitBoxes(slots) => DateField(img, slots, ocr)
    case Box(rect) => TextField(img, rect, ocr)
  }

  /** The reader of a signature entry on this page. */
  function SignatureReader(img: Image, grey: Pixel -> byte): (string, Rect) -> Result<SignatureRecord, Failure> {
    (name, rect) => DetectSignature(img, name, rect, grey)
  }

  /** The reader of a field entry on this page. */
  function FieldReader(img: Image, ocr: Image -> Reply): Roi -> Result<string, Failure> {
    roi => FieldValue(img, roi, ocr)
  }

  /** One iteration of the loop over the table, with `sig` and `field` reading the page. */
  function Step(doc: Document, roi: Roi, sig: (string, Rect) -> Result<SignatureRecord, Failure>, field: Roi -> Result<string, Failure>): Result<Document, Failure> {
    if IsSignatureRoi(roi) then
      match sig(roi.name, roi.region.rect)
      case Failure(e) => Failure(e)
      case Success(rec) => Success(doc.(signatures := doc.signatures + [rec]))
    else
      match field(roi)
      case Failure(e) => Failure(e)
      case Success(v) => Success(doc.(extractedText := Put(doc.extractedText, roi.name, v)))
  }

  /** The loop over `rois` from the accumulated `doc` on; an exception ends the pass with no result. */
  function Run(rois: seq<Roi>, doc: Document, sig: (string, Rect) -> Result<SignatureRecord, Failure>, field: Roi -> Result<string, Failure>): Result<Document, Failure>
    decreases |rois|
  {
    if rois == [] then Success(doc)
    else match Step(doc, rois[0], sig, field)
      case Failure(e) => Failure(e)
      case Success(next) => Run(rois[1..], next, sig, field)
  }

  /** extract_text_with_google_vision over a table: an image that cannot be loaded raises before any field is produced. */
  function Extract(table: seq<Roi>, image: Option<Image>, grey: Pixel -> byte, ocr: Image -> Reply): Result<Document, Failure> {
    match image
    case None => Failure(Undecodable)
    case Some(img) => Run(table, Document([], []), SignatureReader(img, grey), FieldReader(img, ocr))
  }

  // ----- What a pass produces -----

  /** The entries that end up in "Extracted_Text", in table order. */
  function Fields(rois: seq<Roi>): (fs: seq<Roi>)
    ensures forall k :: 0 <= k < |fs| ==> !IsSignatureRoi(fs[k])
  {
    if rois == [] then []
    else (if IsSignatureRoi(rois[0]) then [] else [rois[0]]) + Fields(rois[1..])
  }

  /** The entries that end up in "Signatures", in table order. */
  function SignatureRois(rois: seq<Roi>): (ss: seq<Roi>)
    ensures forall k :: 0 <= k < |ss| ==> IsSignatureRoi(ss[k])
  {
    if rois == [] then []
    else (if IsSignatureRoi(rois[0]) then [rois[0]] else []) + SignatureRois(rois[1..])
  }

  /** The label of an entry. */
  function RoiName(roi: Roi): string {
    roi.name
  }

  /** The reader the dispatch rule picks for `roi` does not raise. */
  predicate ReaderSucceeds(roi: Roi, sig: (string, Rect) -> Result<SignatureRecord, Failure>, field: Roi -> Result<string, Failure>) {
    if IsSignatureRoi(roi) then sig(roi.name, roi.region.rect).Success? else field(roi).Success?
  }

  /** The pass succeeds exactly when the reader of every entry succeeds. */
  lemma {:induction false} RunSucceeds(rois: seq<Roi>, doc: Document, sig: (string, Rect) -> Result<SignatureRecord, Failure>, field: Roi -> Result<string, Failure>)
    ensures Run(rois, doc, sig, field).Success? <==> forall k :: 0 <= k < |rois| ==> ReaderSucceeds(rois[k], sig, field)
    decreases |rois|
  {
    if rois != [] {
      assert forall k :: 1 <= k < |rois| ==> rois[1..][k - 1] == rois[k];
      var step := Step(doc, rois[0], sig, field);
      if step.Success? {
        RunSucceeds(rois[1..], step.value, sig, field);
      }
    }
  }

  /** `recs` holds, one per entry of `ss` and in that order, the record `sig` produces for the entry. */
  predicate SignaturesRead(recs: seq<SignatureRecord>, ss: seq<Roi>, sig: (string, Rect) -> Result<SignatureRecord, Failure>)
    requires forall k :: 0 <= k < |ss| ==> ss[k].region.Box?
  {
    |recs| == |ss| && forall k :: 0 <= k < |ss| ==> sig(ss[k].name, ss[k].region.rect) == Success(recs[k])
  }

  lemma SignaturesReadCons(recs: seq<SignatureRecord>, ss: seq<Roi>, roi: Roi, rec: SignatureRecord, sig: (string, Rect) -> Result<SignatureRecord, Failure>)
    requires roi.region.Box? && forall k :: 0 <= k < |ss| ==> ss[k].region.Box?
    requires SignaturesRead(recs, ss, sig) && sig(roi.name, roi.region.rect) == Success(rec)
    ensures SignaturesRead([rec] + recs, [roi] + ss, sig)
  {
    var r := [rec] + recs;
    var f := [roi] + ss;
    forall k | 1 <= k < |f| ensures sig(f[k].name, f[k].region.rect) == Success(r[k]) {
      assert r[k] == recs[k - 1] && f[k] == ss[k - 1];
    }
  }

  /** The signature list is extended by the record of each signature entry, in table order. */
  lemma {:induction false} RunSignatures(rois: seq<Roi>, doc: Document, sig: (string, Rect) -> Result<SignatureRecord, Failure>, field: Roi -> Result<string, Failure>, d: Document)
    requires Run(rois, doc, sig, field) == Success(d)
    ensures |doc.signatures| <= |d.signatures| && d.signatures[..|doc.signatures|] == doc.signatures
    ensures SignaturesRead(d.signatures[|doc.signatures|..], SignatureRois(rois), sig)
    decreases |rois|
  {
    if rois != [] {
      var roi := rois[0];
      var next := Step(doc, roi, sig, field).value;
      RunSignatures(rois[1..], next, sig, field, d);
      var rest := SignatureRois(rois[1..]);
      if IsSignatureRoi(roi) {
        var n := |doc.signatures|;
        var e := d.signatures;
        assert next.signatures == doc.signatures + [e[n]] by {
          assert e[..n + 1] == next.signatures;
        }
        assert e[..n] == e[..n + 1][..n];
        DropCons(e, n);
        SignaturesReadCons(e[n + 1..], rest, roi, e[n], sig);
        assert SignatureRois(rois) == [roi] + rest;
      } else {
        assert SignatureRois(rois) == rest;
      }
    }
  }

  /** The field map gains exactly the labels of the non-signature entries. */
  lemma {:induction false} RunKeys(rois: seq<Roi>, doc: Document, sig: (string, Rect) -> Result<SignatureRecord, Failure>, field: Roi -> Result<string, Failure>, d: Document)
    requires Run(rois, doc, sig, field) == Success(d)
    ensures Keys(d.extractedText) == Keys(doc.extractedText) + set roi | roi in Fields(rois) :: roi.name
    decreases |rois|
  {
    if rois != [] {
      var roi := rois[0];
      var next := Step(doc, roi, sig, field).value;
      RunKeys(rois[1..], next, sig, field, d);
      var rest := Fields(rois[1..]);
      if IsSignatureRoi(roi) {
        assert Fields(rois) == rest;
      } else {
        PutKeys(doc.extractedText, roi.name, field(roi).value);
        assert Fields(rois) == [roi] + rest;
        assert (set r | r in Fields(rois) :: r.name) == {roi.name} + set r | r in rest :: r.name;
      }
    }
  }

  /** `pairs` holds, one per entry of `fs` and in that order, the entry's label and the value `field` reads for it. */
  predicate FieldsStored(pairs: seq<(string, string)>, fs: seq<Roi>, field: Roi -> Result<string, Failure>) {
    |pairs| == |fs| && forall k :: 0 <= k < |fs| ==> pairs[k].0 == fs[k].name && field(fs[k]) == Success(pairs[k].1)
  }

  lemma FieldsStoredCons(pairs: seq<(string, string)>, fs: seq<Roi>, roi: Roi, v: string, field: Roi -> Result<string, Failure>)
    requires FieldsStored(pairs, fs, field) && field(roi) == Success(v)
    ensures FieldsStored([(roi.name, v)] + pairs, [roi] + fs, field)
  {
    var p := [(roi.name, v)] + pairs;
    var f := [roi] + fs;
    forall k | 1 <= k < |f| ensures p[k].0 == f[k].name && field(f[k]) == Success(p[k].1) {
      assert p[k] == pairs[k - 1] && f[k] == fs[k - 1];
    }
  }

  /** With distinct labels the field map is extended, in table order, by each non-signature label and its value. */
  lemma {:induction false} RunFieldOrder(rois: seq<Roi>, doc: Document, sig: (string, Rect) -> Result<SignatureRecord, Failure>, field: Roi -> Result<string, Failure>, d: Document)
    requires Run(rois, doc, sig, field) == Success(d)
    requires forall i, j :: 0 <= i < j < |rois| ==> rois[i].name != rois[j].name
    requires forall k :: 0 <= k < |rois| ==> rois[k].name !in Keys(doc.extractedText)
    ensures |doc.extractedText| <= |d.extractedText| && d.extractedText[..|doc.extractedText|] == doc.extractedText
    ensures FieldsStored(d.extractedText[|doc.extractedText|..], Fields(rois), field)
    decreases |rois|
  {
    if rois != [] {
      var roi := rois[0];
      var next := Step(doc, roi, sig, field).value;
      var rest := Fields(rois[1..]);
      assert forall k :: 1 <= k < |rois| ==> rois[1..][k - 1] == rois[k];
      if IsSignatureRoi(roi) {
        assert next.extractedText == doc.extractedText;
        RunFieldOrder(rois[1..], next, sig, field, d);
        assert Fields(rois) == rest;
      } else {
        var v := field(roi).value;
        PutFresh(doc.extractedText, roi.name, v);
        PutKeys(doc.extractedText, roi.name, v);
        assert next.extractedText == doc.extractedText + [(roi.name, v)];
        forall k | 0 <= k < |rois| - 1 ensures rois[1..][k].name !in Keys(next.extractedText) {
          assert rois[1..][k] == rois[k + 1];
          assert rois[k + 1].name != roi.name;
        }
        RunFieldOrder(rois[1..], next, sig, field, d);
        var n := |doc.extractedText|;
        var e := d.extractedText;
        assert e[..n] == e[..n + 1][..n];
        assert e[n] == e[..n + 1][n];
        DropCons(e, n);
        FieldsStoredCons(e[n + 1..], rest, roi, v, field);
        assert Fields(rois) == [roi] + rest;
      }
    }
  }

  /** Splitting the table splits both lists of entries. */
  lemma SplitAppend(a: seq<Roi>, b: seq<Roi>)
    ensures Fields(a + b) == Fields(a) + Fields(b)
    ensures SignatureRois(a + b) == SignatureRois(a) + SignatureRois(b)
  {
    FieldsAppend(a, b);
    SignatureRoisAppend(a, b);
  }

  lemma {:induction false} FieldsAppend(a: seq<Roi>, b: seq<Roi>)
    ensures Fields(a + b) == Fields(a) + Fields(b)
  {
    if a == [] {
      assert a + b == b;
    } else {
      assert (a + b)[0] == a[0];
      assert (a + b)[1..] == a[1..] + b;
      FieldsAppend(a[1..], b);
    }
  }

  lemma {:induction false} SignatureRoisAppend(a: seq<Roi>, b: seq<Roi>)
    ensures SignatureRois(a + b) == SignatureRois(a) + SignatureRois(b)
  {
    if a == [] {
      assert a + b == b;
    } else {
      assert (a + b)[0] == a[0];
      assert (a + b)[1..] == a[1..] + b;
      SignatureRoisAppend(a[1..], b);
    }
  }

  /** A stretch of the table with no signature entry is all fields. */
  lemma {:induction false} AllFields(rois: seq<Roi>)
    requires forall k :: 0 <= k < |rois| ==> !IsSignatureRoi(rois[k])
    ensures Fields(rois) == rois && SignatureRois(rois) == []
  {
    if rois != [] {
      assert !IsSignatureRoi(rois[0]);
      assert forall k :: 1 <= k < |rois| ==> rois[1..][k - 1] == rois[k];
      AllFields(rois[1..]);
    }
  }

  /** A stretch of the table made of signature entries is all signatures. */
  lemma {:induction false} AllSignatures(rois: seq<Roi>)
    requires forall k :: 0 <= k < |rois| ==> IsSignatureRoi(rois[k])
    ensures Fields(rois) == [] && SignatureRois(rois) == rois
  {
    if rois != [] {
      assert IsSignatureRoi(rois[0]);
      assert forall k :: 1 <= k < |rois| ==> rois[1..][k - 1] == rois[k];
      AllSignatures(rois[1..]);
    }
  }

  // ----- The pass on a page -----

  /** Nothing the service does for this entry raises. */
  predicate Readable(img: Image, roi: Roi, ocr: Image -> Reply) {
    match roi.region
    case DigitBoxes(slots) => forall k :: 0 <= k < |slots| ==> Legible(img, slots[k].rect, ocr)
    case Box(rect) => if Contains(roi.name, "Signature") then !IsEmpty(Crop(img, rect)) else Legible(img, rect, ocr)
  }

  /** The stripped first annotation of each digit box, in sub-table order. */
  function DigitTexts(img: Image, slots: seq<Slot>, ocr: Image -> Reply): (ts: seq<string>)
    ensures |ts| == |slots|
  {
    seq(|slots|, k requires 0 <= k < |slots| => Strip(TextOf(ocr(Crop(img, slots[k].rect)))))
  }

  /** A text field is clean_text of the box's first annotation, or of "" when the service finds none. */
  lemma TextFieldValue(img: Image, rect: Rect, ocr: Image -> Reply)
    ensures TextField(img, rect, ocr).Success? <==> Legible(img, rect, ocr)
    ensures TextField(img, rect, ocr).Success? ==> TextField(img, rect, ocr).value == CleanText(TextOf(ocr(Crop(img, rect))))
  {
  }

  /** A date field is format_date of the concatenated stripped digit texts, in sub-table order; it fails
      exactly when some digit box cannot be read. */
  lemma DateFieldValue(img: Image, slots: seq<Slot>, ocr: Image -> Reply)
    ensures DateField(img, slots, ocr).Success? <==> forall k :: 0 <= k < |slots| ==> Legible(img, slots[k].rect, ocr)
    ensures DateField(img, slots, ocr).Success? ==> DateField(img, slots, ocr).value == FormatDate(Join(DigitTexts(img, slots, ocr)))
  {
    var read := rect => ReadBox(img, rect, ocr);
    DatePartsSucceeds(read, slots, []);
    var r := DateParts(read, slots, []);
    if r.Success? {
      DatePartsValues(read, slots, [], r.value);
      assert r.value == DigitTexts(img, slots, ocr);
    }
  }

  /** When each of the eight digit boxes yields exactly one character, the date is XX/XX/XXXX with the digits
      in sub-table order; a box with no text leaves fewer than eight characters, which format_date passes on. */
  lemma DateOfSingleDigits(img: Image, slots: seq<Slot>, ocr: Image -> Reply)
    requires |slots| == 8
    requires forall k :: 0 <= k < 8 ==> |DigitTexts(img, slots, ocr)[k]| == 1
    ensures var r := FormatDate(Join(DigitTexts(img, slots, ocr)));
      |r| == 10 && r[2] == '/' && r[5] == '/' &&
      forall k :: 0 <= k < 8 ==> Unslashed(r)[k] == DigitTexts(img, slots, ocr)[k][0]
  {
    JoinSingles(DigitTexts(img, slots, ocr));
  }

  /** One instance of the documented pattern MMDDYYYY to MM/DD/YYYY. */
  lemma FormatDateExample()
    ensures FormatDate("01022025") == "01/02/2025"
  {
  }

  /** The reader the dispatch rule picks for an entry succeeds exactly when the entry is readable. */
  lemma ReaderSucceedsOnPage(img: Image, roi: Roi, grey: Pixel -> byte, ocr: Image -> Reply)
    ensures ReaderSucceeds(roi, SignatureReader(img, grey), FieldReader(img, ocr)) <==> Readable(img, roi, ocr)
  {
    match roi.region
    case DigitBoxes(slots) => DateFieldValue(img, slots, ocr);
    case Box(rect) => TextFieldValue(img, rect, ocr);
  }

  /** A document is produced exactly when the image loads and every entry of the table is readable. */
  lemma ExtractSucceeds(table: seq<Roi>, image: Option<Image>, grey: Pixel -> byte, ocr: Image -> Reply)
    ensures Extract(table, image, grey, ocr).Success? <==> image.Some? && forall k :: 0 <= k < |table| ==> Readable(image.value, table[k], ocr)
  {
    if image.Some? {
      var img := image.value;
      RunSucceeds(table, Document([], []), SignatureReader(img, grey), FieldReader(img, ocr));
      forall k | 0 <= k < |table|
        ensures ReaderSucceeds(table[k], SignatureReader(img, grey), FieldReader(img, ocr)) <==> Readable(img, table[k], ocr)
      {
        ReaderSucceedsOnPage(img, table[k], grey, ocr);
      }
    }
  }

  /** "Signatures" holds one record per signature entry, in table order, carrying its label and coordinates
      and "Present" with the served path exactly when more than 500 crop pixels are ink. */
  lemma ExtractSignatures(table: seq<Roi>, img: Image, grey: Pixel -> byte, ocr: Image -> Reply, d: Document)
    requires Extract(table, Some(img), grey, ocr) == Success(d)
    ensures |d.signatures| == |SignatureRois(table)|
    ensures forall k :: 0 <= k < |d.signatures| ==>
      RecordFor(d.signatures[k], img, SignatureRois(table)[k].name, SignatureRois(table)[k].region.rect, grey)
  {
    RunSignatures(table, Document([], []), SignatureReader(img, grey), FieldReader(img, ocr), d);
  }

  /** An entry is stored in the field map iff it is not a signature entry. */
  lemma {:induction false} FieldsMembers(rois: seq<Roi>, roi: Roi)
    ensures roi in Fields(rois) <==> roi in rois && !IsSignatureRoi(roi)
  {
    if rois != [] {
      FieldsMembers(rois[1..], roi);
      assert rois == [rois[0]] + rois[1..];
    }
  }

  /** An entry gets a signature record iff it is a signature entry of the table. */
  lemma {:induction false} SignatureRoisMembers(rois: seq<Roi>, roi: Roi)
    ensures roi in SignatureRois(rois) <==> roi in rois && IsSignatureRoi(roi)
  {
    if rois != [] {
      SignatureRoisMembers(rois[1..], roi);
      assert rois == [rois[0]] + rois[1..];
    }
  }

  /** The keys of "Extracted_Text" are exactly the labels of the entries that are not signatures. */
  lemma ExtractKeys(table: seq<Roi>, img: Image, grey: Pixel -> byte, ocr: Image -> Reply, d: Document)
    requires Extract(table, Some(img), grey, ocr) == Success(d)
    ensures Keys(d.extractedText) == set roi | roi in table && !IsSignatureRoi(roi) :: roi.name
  {
    RunKeys(table, Document([], []), SignatureReader(img, grey), FieldReader(img, ocr), d);
    forall roi ensures roi in Fields(table) <==> roi in table && !IsSignatureRoi(roi) {
      FieldsMembers(table, roi);
    }
  }

  /** With distinct labels, "Extracted_Text" lists the non-signature labels in table order, each with its value. */
  lemma ExtractFields(table: seq<Roi>, img: Image, grey: Pixel -> byte, ocr: Image -> Reply, d: Document)
    requires Extract(table, Some(img), grey, ocr) == Success(d)
    requires forall i, j :: 0 <= i < j < |table| ==> table[i].name != table[j].name
    ensures KeyList(d.extractedText) == Map(Fields(table), RoiName)
    ensures forall k :: 0 <= k < |d.extractedText| ==> FieldValue(img, Fields(table)[k], ocr) == Success(d.extractedText[k].1)
  {
    RunFieldOrder(table, Document([], []), SignatureReader(img, grey), FieldReader(img, ocr), d);
    assert d.extractedText[0..] == d.extractedText;
  }

  /** The service's table: the entries before and after the two signatures are the fields. */
  lemma RoisDispatch()
    ensures Fields(Rois) == Rois[..8] + Rois[10..]
    ensures SignatureRois(Rois) == Rois[8..10]
  {
    RoisSignatureEntries();
    var a, b, c := Rois[..8], Rois[8..10], Rois[10..];
    RoisParts(a, b, c);
    SplitAppend(a + b, c);
    SplitAppend(a, b);
    AllFields(a);
    AllSignatures(b);
    AllFields(c);
  }

  /** The table cut before and after the two signature entries. */
  lemma RoisParts(a: seq<Roi>, b: seq<Roi>, c: seq<Roi>)
    requires a == Rois[..8] && b == Rois[8..10] && c == Rois[10..]
    ensures Rois == a + b + c
    ensures forall k :: 0 <= k < |a| ==> a[k] == Rois[k]
    ensures forall k :: 0 <= k < |b| ==> b[k] == Rois[8 + k]
    ensures forall k :: 0 <= k < |c| ==> c[k] == Rois[10 + k]
  {
  }

  /** The eleven field labels in table order, and the two signature labels. */
  lemma RoisLabels()
    ensures Map(Fields(Rois), RoiName) == ["Account_Number", "Account_Name", "Check_Number", "BRSTN_Number", "Date",
      "Payee_Name", "Amount_In_Digits", "Amount_In_Words", "MICR_Code", "Bank_Name", "Branch_Name"]
    ensures Map(SignatureRois(Rois), RoiName) == ["Signature_1", "Signature_2"]
  {
    RoisDispatch();
    var fs := Rois[..8] + Rois[10..];
    var names := ["Account_Number", "Account_Name", "Check_Number", "BRSTN_Number", "Date",
      "Payee_Name", "Amount_In_Digits", "Amount_In_Words", "MICR_Code", "Bank_Name", "Branch_Name"];
    forall k | 0 <= k < 11 ensures Map(fs, RoiName)[k] == names[k] {
      assert fs[k] == if k < 8 then Rois[k] else Rois[k + 2];
    }
  }

  /** A document the service returns for a page: "Extracted_Text" lists the eleven field labels in table order,
      Date being format_date of the eight digit texts, and "Signatures" describes Signature_1 then Signature_2. */
  lemma ChequeDocument(img: Image, grey: Pixel -> byte, ocr: Image -> Reply, d: Document)
    requires Extract(Rois, Some(img), grey, ocr) == Success(d)
    ensures KeyList(d.extractedText) == ["Account_Number", "Account_Name", "Check_Number", "BRSTN_Number", "Date",
      "Payee_Name", "Amount_In_Digits", "Amount_In_Words", "MICR_Code", "Bank_Name", "Branch_Name"]
    ensures d.extractedText[4].1 == FormatDate(Join(DigitTexts(img, DateBoxes, ocr)))
    ensures |d.signatures| == 2
    ensures RecordFor(d.signatures[0], img, "Signature_1", Rect(1500, 550, 1905, 690), grey)
    ensures RecordFor(d.signatures[1], img, "Signature_2", Rect(1030, 550, 1440, 690), grey)
  {
    RoisLabelsDistinct();
    RoisDispatch();
    RoisLabels();
    ExtractFields(Rois, img, grey, ocr, d);
    ExtractSignatures(Rois, img, grey, ocr, d);
    assert Fields(Rois)[4] == Rois[4];
    DateFieldValue(img, DateBoxes, ocr);
  }

  /** extract_text_with_google_vision over `table` (the service passes Rois): `image` is the result of
      cv2.imread, None when it cannot be loaded. */
  method ExtractTextWithGoogleVision(table: seq<Roi>, image: Option<Image>, grey: Pixel -> byte, ocr: Image -> Reply)
    returns (r: Result<Document, Failure>)
    ensures r == Extract(table, image, grey, ocr)
  {
    if image.None? {
      return Failure(Undecodable);
    }
    var img := image.value;
    var sig := SignatureReader(img, grey);
    var field := FieldReader(img, ocr);
    var extractedData: seq<(string, string)> := [];
    var signatureInfo: seq<SignatureRecord> := [];
    var i := 0;
    while i < |table|
      invariant 0 <= i <= |table|
      invariant Extract(table, image, grey, ocr) == Run(table[i..], Document(extractedData, signatureInfo), sig, field)
    {
      var roi := table[i];
      assert table[i..][1..] == table[i + 1..];
      match roi.region {
        case DigitBoxes(slots) =>
          var read := rect => ReadBox(img, rect, ocr);
          var dateParts: seq<string> := [];
          var k := 0;
          while k < |slots|
            invariant 0 <= k <= |slots|
            invariant DateParts(read, slots, []) == DateParts(read, slots[k..], dateParts)
          {
            assert slots[k..][1..] == slots[k + 1..];
            var text := ReadBox(img, slots[k].rect, ocr);
            if text.Failure? {
              return Failure(text.error);
            }
            dateParts := dateParts + [Strip(text.value)];
            k := k + 1;
          }
          extractedData := Put(extractedData, roi.name, FormatDate(Join(dateParts)));
        case Box(rect) =>
          if Contains(roi.name, "Signature") {
            var record := DetectSignature(img, roi.name, rect, grey);
            if record.Failure? {
              return Failure(record.error);
            }
            signatureInfo := signatureInfo + [record.value];
          } else {
            var text := ReadBox(img, rect, ocr);
            if text.Failure? {
              return Failure(text.error);
            }
            extractedData := Put(extractedData, roi.name, CleanText(text.value));
          }
      }
      i := i + 1;
    }
    r := Success(Document(extractedData, signatureInfo));
  }
}
