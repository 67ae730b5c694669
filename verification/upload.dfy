/** The upload path of the customer form: which dropped or picked file list is
    accepted (`handleFileUpload`), how an accepted file is previewed
    (`showFilePreview`), and the unit `formatFileSize` labels a size with. */
module Upload {
  import opened Text

  /** A selected file: its name, its MIME type and its size in bytes. */
  datatype File = File(name: string, mimeType: string, size: nat)

  datatype PreviewKind = Image | Document

  /** The observable outcome of one upload: nothing (empty list), the error
      banner with its text, or acceptance with the preview shown. */
  datatype Decision = NoOp | Reject(message: string) | Accept(kind: PreviewKind)

  /** The decision together with the files attached to the form's file input
      afterwards. */
  datatype UploadResult = UploadResult(decision: Decision, attached: seq<File>)

  const AllowedTypes: seq<string> := ["image/jpeg", "image/jpg", "image/png", "application/pdf"]
  const TypeMessage := "Please upload a JPG, PNG, or PDF file."

  /** `showFilePreview`: an image preview for types under `image/`, a document icon
      otherwise. */
  function PreviewKindOf(mimeType: string): PreviewKind {
    if StartsWith(mimeType, "image/") then Image else Document
  }

  /** `handleFileUpload` together with the preview choice. Only the first file
      is looked at; it is accepted iff its type is one of the four allowed
      ones, and an accepted file previews as an image exactly when it is one of
      the three image types. */
  function DecideUpload(files: seq<File>): (d: Decision)
    ensures d == NoOp <==> files == []
    ensures d.Accept? <==> files != [] && files[0].mimeType in AllowedTypes
    ensures d.Reject? ==> d.message == TypeMessage
    ensures d == Accept(Image) <==> files != [] && files[0].mimeType in {"image/jpeg", "image/jpg", "image/png"}
    ensures d == Accept(Document) <==> files != [] && files[0].mimeType == "application/pdf"
  {
    if files == [] then NoOp
    else
      var t := files[0].mimeType;
      assert StartsWith("image/jpeg", "image/") && StartsWith("image/jpg", "image/");
      assert StartsWith("image/png", "image/");
      assert "application/pdf"[..6] == "applic";
      if t in AllowedTypes then Accept(PreviewKindOf(t)) else Reject(TypeMessage)
  }

  /** The whole upload step: on acceptance the file input receives the entire
      list, otherwise it keeps what it had. */
  function HandleFileUpload(files: seq<File>, attached: seq<File>): (r: UploadResult)
    ensures r.decision == DecideUpload(files)
    ensures r.decision.Accept? ==> r.attached == files
    ensures !r.decision.Accept? ==> r.attached == attached
  {
    var d := DecideUpload(files);
    UploadResult(d, if d.Accept? then files else attached)
  }

  /** Files after the first never change the decision. */
  lemma OnlyFirstFileConsulted(a: seq<File>, b: seq<File>)
    requires a != [] && b != [] && a[0].mimeType == b[0].mimeType
    ensures DecideUpload(a) == DecideUpload(b)
  {
  }

  /** A plain-text file is refused and the file input is left as it was. */
  lemma PlainTextRejected(f: File, rest: seq<File>, attached: seq<File>)
    requires f.mimeType == "text/plain"
    ensures HandleFileUpload([f] + rest, attached) == UploadResult(Reject(TypeMessage), attached)
  {
  }

  // ---------------------------------------------------------------------------
  // What the file input holds afterwards, on the two paths that call the handler

  /** The file input holds nothing, or files whose first one is of an allowed type. */
  predicate InputAllowed(attached: seq<File>) {
    attached == [] || attached[0].mimeType in AllowedTypes
  }

  /** Drop path: the dropped list is not in the file input when the handler
      runs, so a refused drop never reaches it. An input holding nothing or an
      allowed file keeps doing so, whatever is dropped. */
  lemma DropKeepsInputAllowed(files: seq<File>, attached: seq<File>)
    requires InputAllowed(attached)
    ensures InputAllowed(HandleFileUpload(files, attached).attached)
  {
  }

  /** Browse path, as written: the browser has put the picked files into the
      input before the handler runs, and a refusal leaves them there, so a
      refused plain-text file stays attached to the form. */
  lemma PickedRefusalStaysAttached(f: File)
    requires f.mimeType == "text/plain"
    ensures HandleFileUpload([f], [f]) == UploadResult(Reject(TypeMessage), [f])
    ensures !InputAllowed(HandleFileUpload([f], [f]).attached)
  {
  }

  /** The handler with the refusal also emptying the file input, so that a
      refused file is never left attached. */
  function HandleFileUploadCleared(files: seq<File>, attached: seq<File>): (r: UploadResult)
    ensures r.decision == DecideUpload(files)
  {
    var d := DecideUpload(files);
    UploadResult(d, if d.Accept? then files else if d.Reject? then [] else attached)
  }

  /** On both paths (an input holding nothing or an allowed file, or an input
      already holding the picked files) the input afterwards holds nothing or
      an allowed file. */
  lemma ClearedUploadKeepsInputAllowed(files: seq<File>, attached: seq<File>)
    requires InputAllowed(attached) || attached == files
    ensures InputAllowed(HandleFileUploadCleared(files, attached).attached)
  {
  }

  /** The corrected handler differs from the written one only on a refusal. */
  lemma ClearedAgreesOffRefusal(files: seq<File>, attached: seq<File>)
    ensures !DecideUpload(files).Reject? ==> HandleFileUploadCleared(files, attached) == HandleFileUpload(files, attached)
    ensures DecideUpload(files).Reject? ==> HandleFileUploadCleared(files, attached).attached == []
  {
  }

  // ---------------------------------------------------------------------------
  // The unit chosen by formatFileSize

  function Pow1024(i: nat): (p: nat)
    ensures p >= 1
  {
    if i == 0 then 1 else 1024 * Pow1024(i - 1)
  }

  lemma {:induction false} Pow1024Monotone(i: nat, j: nat)
    requires i <= j
    ensures Pow1024(i) <= Pow1024(j)
  {
    if i < j {
      Pow1024Monotone(i, j - 1);
    }
  }

  /** The largest `i` with `1024^i <= bytes`. */
  function UnitIndex(bytes: nat): (i: nat)
    requires bytes > 0
    ensures Pow1024(i) <= bytes < Pow1024(i + 1)
    decreases bytes
  {
    if bytes < 1024 then 0
    else
      var j := UnitIndex(bytes / 1024);
      assert 1024 * Pow1024(j) <= 1024 * (bytes / 1024) <= bytes;
      assert bytes < 1024 * (bytes / 1024 + 1) <= 1024 * Pow1024(j + 1);
      1 + j
  }

  /** The index leaves the four-entry table exactly from 1024^4 bytes on. */
  lemma UnitIndexPastTable(bytes: nat)
    requires bytes > 0
    ensures UnitIndex(bytes) >= 4 <==> bytes >= 1099511627776
  {
    var i := UnitIndex(bytes);
    assert Pow1024(4) == 1099511627776;
    if i >= 4 {
      Pow1024Monotone(4, i);
    } else {
      Pow1024Monotone(i + 1, 4);
    }
  }

  const Units: seq<string> := ["Bytes", "KB", "MB", "GB"]

  /** The unit of `formatFileSize`: "Bytes" for 0, otherwise the entry of the
      four-unit table at the unit index; past the table JavaScript yields
      `undefined`, which the concatenation prints as "undefined". */
  function SizeUnit(bytes: nat): (u: string)
    ensures u == "Bytes" <==> bytes < 1024
    ensures u == "KB" <==> 1024 <= bytes < 1048576
    ensures u == "MB" <==> 1048576 <= bytes < 1073741824
    ensures u == "GB" <==> 1073741824 <= bytes < 1099511627776
    ensures u == "undefined" <==> 1099511627776 <= bytes
  {
    if bytes == 0 then "Bytes"
    else
      var i := UnitIndex(bytes);
      UnitIndexPastTable(bytes);
      assert Pow1024(1) == 1024 && Pow1024(2) == 1048576 && Pow1024(3) == 1073741824;
      if i < |Units| then Units[i] else "undefined"
  }
}
