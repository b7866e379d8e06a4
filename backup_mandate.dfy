/**
 * The backup mandate service (backup_mandate.py). Every entry of its flat ROI table is cropped and read
 * by OCR first; the stripped first annotation is then dispatched on the label: a label containing "Date"
 * is formatted as a date, else a label containing "Signature" is tested for ink and, when signed, its file
 * name "{label}.jpg" is listed; every other label stores the stripped text as it is.
 */
module BackupMandate {
  import opened Wrappers
  import opened Builtins
  import opened Dict
  import opened Dates
  import opened Pixels
  import opened Vision

  datatype Roi = Roi(name: string, rect: Rect)

  /** The ROI table, in declaration order, coordinates (x1, y1, x2, y2). */
  const Rois: seq<Roi> := [
    Roi("UMRN_Number", Rect(480, 70, 1455, 132)),
    Roi("Date1", Rect(1515, 70, 1955, 132)),
    Roi("Sponsor_bank_Code", Rect(480, 132, 1045, 190)),
    Roi("Utility_Code", Rect(1195, 132, 1955, 190)),
    Roi("I/We_Hereby_Authorize", Rect(593, 192, 880, 230)),
    Roi("Bank_A/C_Number", Rect(460, 230, 1955, 285)),
    Roi("With_Bank", Rect(205, 293, 870, 339)),
    Roi("IFSC_Code", Rect(940, 285, 1460, 340)),
    Roi("MICR_Code", Rect(1570, 285, 1955, 340)),
    Roi("Amount_in_Words", Rect(335, 348, 1503, 403)),
    Roi("Amount_in_Digits", Rect(1560, 348, 1945, 403)),
    Roi("Reference_1", Rect(240, 460, 1070, 510)),
    Roi("Phone_No", Rect(1230, 450, 1800, 507)),
    Roi("Reference_2", Rect(240, 510, 1070, 550)),
    Roi("Email_ID", Rect(1220, 510, 1945, 550)),
    Roi("Date_From", Rect(150, 610, 520, 670)),
    Roi("Date_To", Rect(150, 680, 520, 740)),
    Roi("Signature_1", Rect(550, 600, 1000, 745)),
    Roi("Name_1", Rect(580, 755, 1005, 815)),
    Roi("Signature_2", Rect(1020, 600, 1470, 745)),
    Roi("Name_2", Rect(1055, 755, 1475, 815)),
    Roi("Signature_3", Rect(1490, 600, 1940, 745)),
    Roi("Name_3", Rect(1533, 755, 1945, 815))
  ]

  // ----- format_date -----

  /** The digits kept from `s`: at most the first eight, padded on the left with '0' to eight characters. */
  function DateDigits(s: string): string {
    RJust(Slice(KeepDigits(s), 0, 8), 8, '0')
  }

  /** format_date: delete the non-digits, keep the first eight, left-pad with '0', then lay out as XX/XX/XXXX;
      a string of another length would be returned as it is. */
  function FormatDate(s: string): string {
    var t := DateDigits(s);
    if |t| == 8 then Slashed(t) else t
  }

  /** After the padding step the string always has eight digits: the fallback return is never taken. */
  lemma DateDigitsShape(s: string)
    ensures |DateDigits(s)| == 8
    ensures forall k :: 0 <= k < 8 ==> IsDigit(DateDigits(s)[k])
    ensures var n := Min(|KeepDigits(s)|, 8); DateDigits(s) == Repeat('0', 8 - n) + KeepDigits(s)[..n]
  {
    var digits := KeepDigits(s);
    var n := Min(|digits|, 8);
    SliceSpec(digits, 0, 8);
    var kept := Slice(digits, 0, 8);
    assert kept == digits[..n];
    var r := DateDigits(s);
    assert |kept| == n;
    if n < 8 {
      assert r == Repeat('0', 8 - n) + kept;
    } else {
      assert Repeat('0', 0) + kept == kept;
    }
    forall k | 0 <= k < 8 ensures IsDigit(r[k]) {
      if k >= 8 - n {
        assert r[k] == kept[k - (8 - n)];
      }
    }
  }

  /** format_date always gives DD/DD/DDDD: ten characters, '/' at 2 and 5 and digits elsewhere, holding the
      first eight digits of the input in order behind as many '0's as are missing. */
  lemma FormatDateShape(s: string)
    ensures |FormatDate(s)| == 10 && FormatDate(s)[2] == '/' && FormatDate(s)[5] == '/'
    ensures forall k :: 0 <= k < 10 && k != 2 && k != 5 ==> IsDigit(FormatDate(s)[k])
    ensures var n := Min(|KeepDigits(s)|, 8); Unslashed(FormatDate(s)) == Repeat('0', 8 - n) + KeepDigits(s)[..n]
  {
    var t := DateDigits(s);
    DateDigitsShape(s);
    UnslashedSlashed(t);
    forall k | 0 <= k < 10 && k != 2 && k != 5 ensures IsDigit(FormatDate(s)[k]) {
      SlashedAt(t, k);
    }
  }

  /** Deleting the non-digits of XX/XX/XXXX gives back the eight digits. */
  lemma KeepDigitsSlashed(t: string)
    requires |t| == 8 && forall k :: 0 <= k < 8 ==> IsDigit(t[k])
    ensures KeepDigits(Slashed(t)) == t
  {
    var a, b, c := t[..2], t[2..4], t[4..];
    assert Slashed(t) == a + "/" + b + "/" + c;
    KeepDigitsAppend(a + "/" + b + "/", c);
    KeepDigitsAppend(a + "/" + b, "/");
    KeepDigitsAppend(a + "/", b);
    KeepDigitsAppend(a, "/");
    KeepDigitsOfDigits(a);
    KeepDigitsOfDigits(b);
    KeepDigitsOfDigits(c);
    assert KeepDigits("/") == [];
    assert a + b + c == t;
  }

  /** Formatting a formatted date changes nothing. */
  lemma FormatDateIdempotent(s: string)
    ensures FormatDate(FormatDate(s)) == FormatDate(s)
  {
    var t := DateDigits(s);
    DateDigitsShape(s);
    KeepDigitsSlashed(t);
    SliceSpec(t, 0, 8);
    assert DateDigits(FormatDate(s)) == t;
  }

  /** Six digits are padded with two zeros in front. */
  lemma FormatDateSixDigits()
    ensures FormatDate("010225") == "00/01/0225"
  {
    KeepDigitsOfDigits("010225");
    DateDigitsShape("010225");
    assert DateDigits("010225") == "00010225";
  }

  /** A date box with no text becomes 00/00/0000. */
  lemma FormatDateEmpty()
    ensures FormatDate("") == "00/00/0000"
  {
    DateDigitsShape("");
    assert DateDigits("") == "00000000";
  }

  // ----- The loop of process_image -----

  /** The returned pair: extracted_data (an insertion-ordered dict) and signature_info (file names). */
  datatype Output = Output(extractedData: seq<(string, string)>, signatureInfo: seq<string>)

  predicate IsDateLabel(name: string) {
    Contains(name, "Date")
  }

  /** The entries the dispatch rule sends to signature detection: "Signature" in the label and not "Date". */
  predicate IsSignatureEntry(roi: Roi) {
    !IsDateLabel(roi.name) && Contains(roi.name, "Signature")
  }

  /** The value stored under a non-signature label once its stripped text `t` is read. */
  function StoredValue(roi: Roi, t: string): string {
    if IsDateLabel(roi.name) then FormatDate(t) else t
  }

  /** One iteration of the loop: `read` gives the stripped first annotation of a box (or the exception the
      crop, encoding or OCR raises), `present` the ink test of a box. */
  function Step(out: Output, roi: Roi, read: Rect -> Result<string, Failure>, present: Rect -> bool): Result<Output, Failure> {
    match read(roi.rect)
    case Failure(e) => Failure(e)
    case Success(t) =>
      if IsSignatureEntry(roi) then
        if present(roi.rect) then Success(out.(signatureInfo := out.signatureInfo + [roi.name + ".jpg"]))
        else Success(out)
      else Success(out.(extractedData := Put(out.extractedData, roi.name, StoredValue(roi, t))))
  }

  /** The loop over `rois` from the accumulated `out` on; an exception ends the request with no result. */
  function Run(rois: seq<Roi>, out: Output, read: Rect -> Result<string, Failure>, present: Rect -> bool): Result<Output, Failure>
    decreases |rois|
  {
    if rois == [] then Success(out)
    else match Step(out, rois[0], read, present)
      case Failure(e) => Failure(e)
      case Success(next) => Run(rois[1..], next, read, present)
  }

  /** The reader of a page: `image` is the result of cv2.imdecode, None when the bytes are not an image,
      and then slicing it raises. */
  function PageReader(image: Option<Image>, ocr: Image -> Reply): Rect -> Result<string, Failure> {
    rect =>
      match image
      case None => Failure(Undecodable)
      case Some(img) =>
        match Recognise(Crop(img, rect), ocr)
        case Failure(e) => Failure(e)
        case Success(t) => Success(Strip(t))
  }

  /** The ink test of a page: more than 500 pixels of the crop at or below 128 after grey conversion. */
  function PageInk(image: Option<Image>, grey: Pixel -> byte): Rect -> bool {
    rect => image.Some? && SignaturePresent(Crop(image.value, rect), grey)
  }

  /** process_image over a table. */
  function Process(table: seq<Roi>, image: Option<Image>, grey: Pixel -> byte, ocr: Image -> Reply): Result<Output, Failure> {
    Run(table, Output([], []), PageReader(image, ocr), PageInk(image, grey))
  }

  // ----- What the loop produces -----

  /** The entries that end up in extracted_data, in table order. */
  function StoredRois(rois: seq<Roi>): (fs: seq<Roi>)
    ensures forall k :: 0 <= k < |fs| ==> !IsSignatureEntry(fs[k])
  {
    if rois == [] then []
    else (if IsSignatureEntry(rois[0]) then [] else [rois[0]]) + StoredRois(rois[1..])
  }

  /** The file names signature detection lists: "{label}.jpg" for each signature entry with ink, in table order. */
  function SignatureFiles(rois: seq<Roi>, present: Rect -> bool): seq<string> {
    if rois == [] then []
    else (if IsSignatureEntry(rois[0]) && present(rois[0].rect) then [rois[0].name + ".jpg"] else []) + SignatureFiles(rois[1..], present)
  }

  /** The loop succeeds exactly when every box can be read. */
  lemma {:induction false} RunSucceeds(rois: seq<Roi>, out: Output, read: Rect -> Result<string, Failure>, present: Rect -> bool)
    ensures Run(rois, out, read, present).Success? <==> forall k :: 0 <= k < |rois| ==> read(rois[k].rect).Success?
    decreases |rois|
  {
    if rois != [] {
      assert forall k :: 1 <= k < |rois| ==> rois[1..][k - 1] == rois[k];
      var step := Step(out, rois[0], read, present);
      if step.Success? {
        RunSucceeds(rois[1..], step.value, read, present);
      }
    }
  }

  /** signature_info is extended by exactly the file names of the signed signature entries, in order. */
  lemma {:induction false} RunSignatureFiles(rois: seq<Roi>, out: Output, read: Rect -> Result<string, Failure>, present: Rect -> bool, d: Output)
    requires Run(rois, out, read, present) == Success(d)
    ensures d.signatureInfo == out.signatureInfo + SignatureFiles(rois, present)
    decreases |rois|
  {
    if rois != [] {
      var roi := rois[0];
      var next := Step(out, roi, read, present).value;
      RunSignatureFiles(rois[1..], next, read, present, d);
      if IsSignatureEntry(roi) && present(roi.rect) {
        assert next.signatureInfo == out.signatureInfo + [roi.name + ".jpg"];
        assert SignatureFiles(rois, present) == [roi.name + ".jpg"] + SignatureFiles(rois[1..], present);
      } else {
        assert next.signatureInfo == out.signatureInfo;
        assert SignatureFiles(rois, present) == SignatureFiles(rois[1..], present);
      }
    }
  }

  /** The keys of extracted_data grow by exactly the labels of the entries that are not signature entries. */
  lemma {:induction false} RunKeys(rois: seq<Roi>, out: Output, read: Rect -> Result<string, Failure>, present: Rect -> bool, d: Output)
    requires Run(rois, out, read, present) == Success(d)
    ensures Keys(d.extractedData) == Keys(out.extractedData) + set roi | roi in StoredRois(rois) :: roi.name
    decreases |rois|
  {
    if rois != [] {
      var roi := rois[0];
      var next := Step(out, roi, read, present).value;
      RunKeys(rois[1..], next, read, present, d);
      var rest := StoredRois(rois[1..]);
      if IsSignatureEntry(roi) {
        assert Keys(next.extractedData) == Keys(out.extractedData);
        assert StoredRois(rois) == rest;
      } else {
        PutKeys(out.extractedData, roi.name, StoredValue(roi, read(roi.rect).value));
        assert StoredRois(rois) == [roi] + rest;
        assert (set r | r in StoredRois(rois) :: r.name) == {roi.name} + set r | r in rest :: r.name;
      }
    }
  }

  /** `pairs` holds, one per entry of `fs` and in that order, the entry's label and the value stored for its text. */
  predicate DataStored(pairs: seq<(string, string)>, fs: seq<Roi>, read: Rect -> Result<string, Failure>) {
    |pairs| == |fs| &&
    forall k :: 0 <= k < |fs| ==> pairs[k].0 == fs[k].name && read(fs[k].rect).Success? && pairs[k].1 == StoredValue(fs[k], read(fs[k].rect).value)
  }

  lemma DataStoredCons(pairs: seq<(string, string)>, fs: seq<Roi>, roi: Roi, t: string, read: Rect -> Result<string, Failure>)
    requires DataStored(pairs, fs, read) && read(roi.rect) == Success(t)
    ensures DataStored([(roi.name, StoredValue(roi, t))] + pairs, [roi] + fs, read)
  {
    var p := [(roi.name, StoredValue(roi, t))] + pairs;
    var f := [roi] + fs;
    forall k | 1 <= k < |f|
      ensures p[k].0 == f[k].name && read(f[k].rect).Success? && p[k].1 == StoredValue(f[k], read(f[k].rect).value)
    {
      assert p[k] == pairs[k - 1] && f[k] == fs[k - 1];
    }
  }

  /** A pair put after `pairs` and followed by the pairs of `fs` makes the pairs of [roi] + fs. */
  lemma DataStoredAfter(e: seq<(string, string)>, pairs: seq<(string, string)>, fs: seq<Roi>, roi: Roi, t: string, read: Rect -> Result<string, Failure>)
    requires read(roi.rect) == Success(t)
    requires |pairs| + 1 <= |e| && e[..|pairs| + 1] == pairs + [(roi.name, StoredValue(roi, t))]
    requires DataStored(e[|pairs| + 1..], fs, read)
    ensures e[..|pairs|] == pairs && DataStored(e[|pairs|..], [roi] + fs, read)
  {
    var n := |pairs|;
    assert e[..n] == e[..n + 1][..n];
    assert e[n] == e[..n + 1][n];
    DropCons(e, n);
    DataStoredCons(e[n + 1..], fs, roi, t, read);
  }

  /** With distinct labels extracted_data is extended, in table order, by each stored label and its value. */
  lemma {:induction false} RunData(rois: seq<Roi>, out: Output, read: Rect -> Result<string, Failure>, present: Rect -> bool, d: Output)
    requires Run(rois, out, read, present) == Success(d)
    requires forall i, j :: 0 <= i < j < |rois| ==> rois[i].name != rois[j].name
    requires forall k :: 0 <= k < |rois| ==> rois[k].name !in Keys(out.extractedData)
    ensures |out.extractedData| <= |d.extractedData| && d.extractedData[..|out.extractedData|] == out.extractedData
    ensures DataStored(d.extractedData[|out.extractedData|..], StoredRois(rois), read)
    decreases |rois|
  {
    if rois != [] {
      var roi := rois[0];
      var next := Step(out, roi, read, present).value;
      var rest := StoredRois(rois[1..]);
      assert forall k :: 1 <= k < |rois| ==> rois[1..][k - 1] == rois[k];
      if IsSignatureEntry(roi) {
        assert next.extractedData == out.extractedData;
        RunData(rois[1..], next, read, present, d);
        assert StoredRois(rois) == rest;
      } else {
        var t := read(roi.rect).value;
        var v := StoredValue(roi, t);
        PutFresh(out.extractedData, roi.name, v);
        PutKeys(out.extractedData, roi.name, v);
        assert next.extractedData == out.extractedData + [(roi.name, v)];
        forall k | 0 <= k < |rois| - 1 ensures rois[1..][k].name !in Keys(next.extractedData) {
          assert rois[1..][k] == rois[k + 1];
          assert rois[k + 1].name != roi.name;
        }
        RunData(rois[1..], next, read, present, d);
        DataStoredAfter(d.extractedData, out.extractedData, rest, roi, t, read);
        assert StoredRois(rois) == [roi] + rest;
      }
    }
  }

  /** A file name is listed iff it is "{label}.jpg" of a signature entry whose box has ink. */
  lemma {:induction false} SignatureFilesMembers(rois: seq<Roi>, present: Rect -> bool, f: string)
    ensures f in SignatureFiles(rois, present) <==> exists roi :: roi in rois && IsSignatureEntry(roi) && present(roi.rect) && f == roi.name + ".jpg"
  {
    if rois != [] {
      SignatureFilesMembers(rois[1..], present, f);
      assert rois == [rois[0]] + rois[1..];
    }
  }

  /** An entry is stored in extracted_data iff it is not a signature entry. */
  lemma {:induction false} StoredRoisMembers(rois: seq<Roi>, roi: Roi)
    ensures roi in StoredRois(rois) <==> roi in rois && !IsSignatureEntry(roi)
  {
    if rois != [] {
      StoredRoisMembers(rois[1..], roi);
      assert rois == [rois[0]] + rois[1..];
    }
  }

  // ----- The loop on a page -----

  /** A request on a page fails exactly when the table is not empty and the image does not decode, or some box
      has no pixels or gets no answer from the service. */
  lemma ProcessSucceeds(table: seq<Roi>, image: Option<Image>, grey: Pixel -> byte, ocr: Image -> Reply)
    ensures Process(table, image, grey, ocr).Success? <==>
      (table == [] || image.Some?) && forall k :: 0 <= k < |table| ==> Legible(image.value, table[k].rect, ocr)
    ensures table != [] && image.None? ==> Process(table, image, grey, ocr) == Failure(Undecodable)
  {
    RunSucceeds(table, Output([], []), PageReader(image, ocr), PageInk(image, grey));
  }

  /** A box is read as the stripped first annotation, "" when the service finds no text. */
  lemma PageReaderValue(img: Image, rect: Rect, ocr: Image -> Reply)
    ensures PageReader(Some(img), ocr)(rect).Success? <==> Legible(img, rect, ocr)
    ensures PageReader(Some(img), ocr)(rect).Success? ==> PageReader(Some(img), ocr)(rect).value == Strip(TextOf(ocr(Crop(img, rect))))
  {
  }

  /** signature_info lists "{label}.jpg" of the inked signature entries in table order: exactly those with more than 500 ink pixels. */
  lemma ProcessSignatures(table: seq<Roi>, img: Image, grey: Pixel -> byte, ocr: Image -> Reply, d: Output, f: string)
    requires Process(table, Some(img), grey, ocr) == Success(d)
    ensures d.signatureInfo == SignatureFiles(table, PageInk(Some(img), grey))
    ensures f in d.signatureInfo <==>
      exists roi :: roi in table && IsSignatureEntry(roi) && InkCount(Crop(img, roi.rect), grey) > MinInkPixels && f == roi.name + ".jpg"
  {
    RunSignatureFiles(table, Output([], []), PageReader(Some(img), ocr), PageInk(Some(img), grey), d);
    SignatureFilesMembers(table, PageInk(Some(img), grey), f);
    forall roi | roi in table ensures PageInk(Some(img), grey)(roi.rect) <==> InkCount(Crop(img, roi.rect), grey) > MinInkPixels {
      SignaturePresentIff(Crop(img, roi.rect), grey);
    }
  }

  /** The keys of extracted_data are exactly the labels of the entries that are not signature entries. */
  lemma ProcessKeys(table: seq<Roi>, image: Option<Image>, grey: Pixel -> byte, ocr: Image -> Reply, d: Output)
    requires Process(table, image, grey, ocr) == Success(d)
    ensures Keys(d.extractedData) == set roi | roi in table && !IsSignatureEntry(roi) :: roi.name
  {
    RunKeys(table, Output([], []), PageReader(image, ocr), PageInk(image, grey), d);
    forall roi ensures roi in StoredRois(table) <==> roi in table && !IsSignatureEntry(roi) {
      StoredRoisMembers(table, roi);
    }
  }

  /** With distinct labels, extracted_data lists the stored labels in table order: a date label holds format_date
      of its box's stripped text, any other label the stripped text itself. */
  lemma ProcessData(table: seq<Roi>, img: Image, grey: Pixel -> byte, ocr: Image -> Reply, d: Output)
    requires Process(table, Some(img), grey, ocr) == Success(d)
    requires forall i, j :: 0 <= i < j < |table| ==> table[i].name != table[j].name
    ensures KeyList(d.extractedData) == Map(StoredRois(table), RoiName)
    ensures forall k :: 0 <= k < |d.extractedData| ==>
      var roi := StoredRois(table)[k];
      d.extractedData[k].1 == (if IsDateLabel(roi.name) then FormatDate(Strip(TextOf(ocr(Crop(img, roi.rect)))))
                               else Strip(TextOf(ocr(Crop(img, roi.rect)))))
  {
    RunData(table, Output([], []), PageReader(Some(img), ocr), PageInk(Some(img), grey), d);
    assert d.extractedData[0..] == d.extractedData;
  }

  /** The label of an entry. */
  function RoiName(roi: Roi): string {
    roi.name
  }

  // ----- The service's table -----

  /** Date1, Date_From and Date_To are date entries: their values go through format_date. */
  lemma DateEntries()
    ensures Rois[1].name == "Date1" && IsDateLabel(Rois[1].name)
    ensures Rois[15].name == "Date_From" && IsDateLabel(Rois[15].name)
    ensures Rois[16].name == "Date_To" && IsDateLabel(Rois[16].name)
  {
    assert OccursAt(Rois[1].name, "Date", 0);
    assert OccursAt(Rois[15].name, "Date", 0);
    assert OccursAt(Rois[16].name, "Date", 0);
  }

  /** Signature_1, Signature_2 and Signature_3 contain "Signature" and not "Date", so they go to signature
      detection and never reach extracted_data. */
  lemma SignatureEntries()
    ensures Rois[17].name == "Signature_1" && IsSignatureEntry(Rois[17])
    ensures Rois[19].name == "Signature_2" && IsSignatureEntry(Rois[19])
    ensures Rois[21].name == "Signature_3" && IsSignatureEntry(Rois[21])
  {
    assert OccursAt(Rois[17].name, "Signature", 0);
    assert OccursAt(Rois[19].name, "Signature", 0);
    assert OccursAt(Rois[21].name, "Signature", 0);
    NotContainsMissingChar(Rois[17].name, "Date", 0);
    NotContainsMissingChar(Rois[19].name, "Date", 0);
    NotContainsMissingChar(Rois[21].name, "Date", 0);
  }

  /** UMRN_Number and Sponsor_bank_Code contain neither "Date" nor "Signature". */
  lemma PlainLabelsMandate()
    ensures !IsDateLabel("UMRN_Number") && !Contains("UMRN_Number", "Signature")
    ensures !IsDateLabel("Sponsor_bank_Code") && !Contains("Sponsor_bank_Code", "Signature")
  {
    NotContainsMissingChar("UMRN_Number", "Date", 0);
    NotContainsMissingChar("UMRN_Number", "Signature", 0);
    NotContainsMissingChar("Sponsor_bank_Code", "Date", 0);
    NotContainsMissingChar("Sponsor_bank_Code", "Signature", 1);
  }

  /** Utility_Code and I/We_Hereby_Authorize contain neither "Date" nor "Signature". */
  lemma PlainLabelsAuthority()
    ensures !IsDateLabel("Utility_Code") && !Contains("Utility_Code", "Signature")
    ensures !IsDateLabel("I/We_Hereby_Authorize") && !Contains("I/We_Hereby_Authorize", "Signature")
  {
    NotContainsMissingChar("Utility_Code", "Date", 0);
    NotContainsMissingChar("Utility_Code", "Signature", 0);
    NotContainsMissingChar("I/We_Hereby_Authorize", "Date", 0);
    NotContainsMissingChar("I/We_Hereby_Authorize", "Signature", 0);
  }

  /** Bank_A/C_Number and With_Bank contain neither "Date" nor "Signature". */
  lemma PlainLabelsBank()
    ensures !IsDateLabel("Bank_A/C_Number") && !Contains("Bank_A/C_Number", "Signature")
    ensures !IsDateLabel("With_Bank") && !Contains("With_Bank", "Signature")
  {
    NotContainsMissingChar("Bank_A/C_Number", "Date", 0);
    NotContainsMissingChar("Bank_A/C_Number", "Signature", 0);
    NotContainsMissingChar("With_Bank", "Date", 0);
    NotContainsMissingChar("With_Bank", "Signature", 0);
  }

  /** IFSC_Code, MICR_Code and Amount_in_Words contain neither "Date" nor "Signature". */
  lemma PlainLabelsCodes()
    ensures !IsDateLabel("IFSC_Code") && !Contains("IFSC_Code", "Signature")
    ensures !IsDateLabel("MICR_Code") && !Contains("MICR_Code", "Signature")
    ensures !IsDateLabel("Amount_in_Words") && !Contains("Amount_in_Words", "Signature")
  {
    NotContainsMissingChar("IFSC_Code", "Date", 0);
    NotContainsMissingChar("IFSC_Code", "Signature", 1);
    NotContainsMissingChar("MICR_Code", "Date", 0);
    NotContainsMissingChar("MICR_Code", "Signature", 0);
    NotContainsMissingChar("Amount_in_Words", "Date", 0);
    NotContainsMissingChar("Amount_in_Words", "Signature", 0);
  }

  /** Amount_in_Digits, Reference_1 and Phone_No contain neither "Date" nor "Signature". */
  lemma PlainLabelsAmount()
    ensures !IsDateLabel("Amount_in_Digits") && !Contains("Amount_in_Digits", "Signature")
    ensures !IsDateLabel("Reference_1") && !Contains("Reference_1", "Signature")
    ensures !IsDateLabel("Phone_No") && !Contains("Phone_No", "Signature")
  {
    NotContainsMissingChar("Amount_in_Digits", "Date", 1);
    NotContainsMissingChar("Amount_in_Digits", "Signature", 0);
    NotContainsMissingChar("Reference_1", "Date", 0);
    NotContainsMissingChar("Reference_1", "Signature", 0);
    NotContainsMissingChar("Phone_No", "Date", 0);
    NotContainsMissingChar("Phone_No", "Signature", 0);
  }

  /** Reference_2 and Email_ID contain neither "Date" nor "Signature". */
  lemma PlainLabelsContact()
    ensures !IsDateLabel("Reference_2") && !Contains("Reference_2", "Signature")
    ensures !IsDateLabel("Email_ID") && !Contains("Email_ID", "Signature")
  {
    NotContainsMissingChar("Reference_2", "Date", 0);
    NotContainsMissingChar("Reference_2", "Signature", 0);
    NotContainsMissingChar("Email_ID", "Date", 2);
    NotContainsMissingChar("Email_ID", "Signature", 0);
  }

  /** Name_1, Name_2 and Name_3 contain neither "Date" nor "Signature". */
  lemma PlainLabelsNames()
    ensures !IsDateLabel("Name_1") && !Contains("Name_1", "Signature")
    ensures !IsDateLabel("Name_2") && !Contains("Name_2", "Signature")
    ensures !IsDateLabel("Name_3") && !Contains("Name_3", "Signature")
  {
    NotContainsMissingChar("Name_1", "Date", 0);
    NotContainsMissingChar("Name_1", "Signature", 0);
    NotContainsMissingChar("Name_2", "Date", 0);
    NotContainsMissingChar("Name_2", "Signature", 0);
    NotContainsMissingChar("Name_3", "Date", 0);
    NotContainsMissingChar("Name_3", "Signature", 0);
  }

  /** How the dispatch rule splits the table: entries 1, 15 and 16 are dates, 17, 19 and 21 are signatures, and
      every other entry is stored as plain text. */
  lemma RoisEntryKinds()
    ensures forall k :: 0 <= k < |Rois| ==> (IsDateLabel(Rois[k].name) <==> k == 1 || k == 15 || k == 16)
    ensures forall k :: 0 <= k < |Rois| ==> (IsSignatureEntry(Rois[k]) <==> k == 17 || k == 19 || k == 21)
  {
    DateEntries();
    SignatureEntries();
    PlainLabelsMandate();
    PlainLabelsAuthority();
    PlainLabelsBank();
    PlainLabelsCodes();
    PlainLabelsAmount();
    PlainLabelsContact();
    PlainLabelsNames();
  }

  /** No two entries of the table share a label, so extracted_data gets one key per stored entry. */
  lemma RoisLabelsDistinct()
    ensures forall i, j :: 0 <= i < j < |Rois| ==> Rois[i].name != Rois[j].name
  {
  }

  /** process_image over `table` (the service passes Rois): `image` is the result of cv2.imdecode. */
  method ProcessImage(table: seq<Roi>, image: Option<Image>, grey: Pixel -> byte, ocr: Image -> Reply)
    returns (r: Result<Output, Failure>)
    ensures r == Process(table, image, grey, ocr)
  {
    var read := PageReader(image, ocr);
    var present := PageInk(image, grey);
    var extractedData: seq<(string, string)> := [];
    var signatureInfo: seq<string> := [];
    var i := 0;
    while i < |table|
      invariant 0 <= i <= |table|
      invariant Process(table, image, grey, ocr) == Run(table[i..], Output(extractedData, signatureInfo), read, present)
    {
      var roi := table[i];
      assert table[i..][1..] == table[i + 1..];
      if image.None? {
        return Failure(Undecodable);
      }
      var crop := Crop(image.value, roi.rect);
      var texts := Recognise(crop, ocr);
      if texts.Failure? {
        return Failure(texts.error);
      }
      var extractedText := Strip(texts.value);
      if Contains(roi.name, "Date") {
        extractedData := Put(extractedData, roi.name, FormatDate(extractedText));
      } else if Contains(roi.name, "Signature") {
        if SignaturePresent(crop, grey) {
          signatureInfo := signatureInfo + [roi.name + ".jpg"];
        }
      } else {
        extractedData := Put(extractedData, roi.name, extractedText);
      }
      i := i + 1;
    }
    r := Success(Output(extractedData, signatureInfo));
  }
}
