# MaplePrints lead capture, modelled in Dafny

The MaplePrints website sells a business-card package. Its `main.js` turns a
visitor into a lead in four steps, and this project models those four steps
with pure functions and methods:

- **The customer form is validated.**
  - `validateField` applies three rules to the trimmed value: required, e-mail shape and phone shape. Each rule that fails overwrites the message set by the one before.
  - `validateInput` runs that check on blur, but only for required or non-blank fields. The page attaches it only to inputs carrying `required` (main.js:244-246), so on the page the non-blank branch never runs and optional fields are not checked on blur; the model states the handler's own gate.
  - `validateForm` runs it on every required field, with no early exit.
- **An outbound WhatsApp text is built.** It is either one of four canned templates (`getWhatsAppTemplate`) or a message assembled from the submitted form (`generateWhatsAppMessage`).
- **A dropped or picked file is accepted or refused** (`handleFileUpload`). `showFilePreview` then previews an accepted file as an image or as a document icon.
- **The file size unit is chosen** (`formatFileSize`).

The files are:

- `wrappers.dfy`: the optional-value type shared by the other modules.
- `text.dfy`: the ECMAScript whitespace class shared by `String.prototype.trim` and the regular-expression class `\s`, plus trimming, whitespace deletion and first-index search.
- `validation.dfy`: the three field rules and the blur gate, and the form check.
- `messages.dfy`: the templates and the message builder. It also holds a reader, `ParseMessage`, that recovers the lead from a built message. The round-trip lemmas use it to show that the builder loses nothing and adds nothing.
- `upload.dfy`: the upload decision and the size unit.
- `submission.dfy`: `handleFormSubmit`, which joins validation to the message builder.

Each regular expression has two readings:

- a ghost predicate that reads the pattern literally, as "there is a split into the pattern's parts";
- an executable character check.

A lemma proves the two readings equivalent in both directions. The validator uses the character check, and its contract is stated over the literal reading.

Two behaviours are modelled as the code has them, although a quick reading suggests otherwise:

- **The last failing rule's message is the one shown, not the first.** Only the e-mail and phone rules can both fail on one field, and then the phone message wins.
- **On acceptance the file input receives the whole dropped list, not just the first file.** The decision itself looks only at the first file.

The upload handler is called from two places: a drop on the drop zone (main.js:226-231), where the dropped files are not yet in the file input, and the file input's own change event (main.js:238-240), where the browser has already put the picked files into it. The model tracks what the file input holds afterwards on both paths.

## Model

| member | source | states |
|---|---|---|
| Text.Trim | main.js:282 | the trimmed value is empty exactly when the raw value is all whitespace, and otherwise neither starts nor ends with whitespace |
| Text.TrimUnique | main.js:282 | any slice cut only through whitespace whose ends are not whitespace is the trimmed value, so trimming is fully determined |
| Text.TrimIdempotent | main.js:282 | trimming an already trimmed value changes nothing |
| Text.RemoveWsKeepsOthers | main.js:307 | deleting whitespace keeps every other character with its multiplicity |
| Text.RemoveWsOfNoWs | main.js:307 | a value without whitespace is unchanged by the deletion |
| Text.RemoveWsOfTrim | main.js:305-307 | deleting whitespace from the trimmed value gives the same text as deleting it from the raw value |
| Validation.EmailOkIffPattern | main.js:297-298 | the character check accepts a value iff it splits as `[^\s@]+` `@` `[^\s@]+` `.` `[^\s@]+` |
| Validation.PhoneOkIffPattern | main.js:306-307 | the character check accepts a value iff it is an optional `+`, a digit 1-9, and at most fifteen more digits |
| Validation.ValidateField | main.js:281-318 | the field is valid iff none of the three rules fails; the message is empty iff valid; a blank required field gets the required message; when the e-mail and phone rules both fail, the phone message is shown (the last failing rule wins) |
| Validation.BlankFieldOnlyRequired | main.js:289-311 | on an all-whitespace value only the required rule can fire, so a blank optional field passes |
| Validation.ValidateInput | main.js:345-350 | blur validates iff the field is required or its trimmed value is non-empty; a field it skips would have passed (on the page only required inputs reach it) |
| Validation.RequiredFields | main.js:270 | the collected fields are exactly the form's fields carrying `required` |
| Validation.RequiredFieldsOne | main.js:270 | a single control is collected iff it carries `required` |
| Validation.RequiredFieldsAppend | main.js:270 | collecting distributes over concatenation, so with the single-control case the result is the required controls in document order, each once |
| Validation.ValidateForm | main.js:268-279 | every required field gets its own verdict, in order, with no early exit; the form is valid iff every required field passes |
| Validation.FormAcceptableByRequired | main.js:268-279 | every required field passing is equivalent to all verdicts on the collected list being positive |
| Validation.OptionalFieldsIgnored | main.js:270-276 | changing fields that are not required never changes whether the form passes |
| Messages.GetTemplate | main.js:442-471 | a known category yields its own text; the general-inquiry text is returned iff the key is unknown or is `general-inquiry`; every text starts with the greeting |
| Messages.TemplatesDistinct | main.js:443-468 | there are exactly four categories, and their four texts are pairwise different and non-empty |
| Messages.Get | main.js:474-479 | a name with no entry reads as empty; otherwise the value of the first entry with that name |
| Submission.SummarizeForm | main.js:474-479 | read on the form's controls: the design counts as ready iff no control is named `design-type` or the first such control holds "" or `existing-design`; each detail is the raw value of the first control carrying its key, or "" when no control does |
| Messages.GenerateMessageShape | main.js:481-497 | the message starts with the greeting, continues with the "design ready" opening iff the design type is missing, empty or `existing-design` (with the "need help" opening otherwise), and ends with the closing line |
| Messages.ParseCompose | main.js:481-499 | reading back a built message recovers the lead exactly: opening choice and all five details, each omitted exactly when empty |
| Messages.ComposeParse | main.js:481-499 | every text the reader accepts is the message built from the lead it reads, so the builder's output format has no other shape |
| Messages.ComposeNameAndWhatsApp | main.js:489-497 | a lead with only a name and a WhatsApp number gets exactly the package line, those two labelled lines and the closing |
| Messages.NeedDesignExample | main.js:473-500 | the exact message for a customer who needs a design and gave only a name and a number |
| Upload.DecideUpload | main.js:352-379 | an empty list does nothing; otherwise only the first file's type counts, and it is accepted iff it is one of the four allowed types; a refusal carries the JPG/PNG/PDF message; an accepted file previews as an image iff it is one of the three image types |
| Upload.OnlyFirstFileConsulted | main.js:353 | lists with the same first file type get the same decision |
| Upload.PlainTextRejected | main.js:356-371 | a plain-text file is refused with the type message and the handler leaves the file input as it was |
| Upload.DropKeepsInputAllowed | main.js:226-231 | on the drop path a file input holding nothing or an allowed file still does after any drop: a refused drop never reaches it |
| Upload.PickedRefusalStaysAttached | main.js:238-240 | on the browse path as written, a picked plain-text file is refused but stays in the file input |
| Upload.ClearedUploadKeepsInputAllowed | main.js:362-371 | with the refusal emptying the input, the input holds nothing or an allowed file afterwards on both paths |
| Upload.ClearedAgreesOffRefusal | main.js:362-371 | the corrected handler behaves as written except that a refusal empties the input |
| Upload.UnitIndex | main.js:424-426 | the unit index is the largest i with 1024^i not above the size |
| Upload.UnitIndexPastTable | main.js:425-426 | the index runs past the four-entry unit table exactly from 1024^4 bytes on |
| Upload.SizeUnit | main.js:422-428 | Bytes below 1024, KB below 1024^2, MB below 1024^3, GB below 1024^4, and `undefined` from there on |
| Submission.GetOfFormData | main.js:474-478 | reading a key from the submitted form data gives the raw value of the first control with that name, or "" when no control has it |
| Submission.HandleFormSubmit | main.js:250-266 | a message is dispatched iff every required field passes, and it is the message built from the form data; each required field gets its verdict; a blank required field always blocks dispatch |

## Left out

- Rendering: all DOM work is left out because it only displays decisions the model already returns. This covers error elements, CSS classes, preview markup, the success banner and the loading state. `showFieldError` and `clearValidationError` appear as the verdict's message.
- Timers: the five-second hiding of the upload error is a timer and is left out.
- Page behaviour: animations, the carousel, scrolling and the navigation menu are outside the lead-capture logic.
- `FileReader` and the data URL of an image preview are left out; only the image/document choice is modelled.
- The call-out: `openWhatsApp` is left out because it is I/O. That covers `encodeURIComponent`, the wa.me URL, `window.open` and the analytics call.
- Upload.SizeUnit: models only the unit of `formatFileSize`. The number part uses floating-point `Math.log`, `toFixed(2)` and `parseFloat`, which are not modelled. The exact integer unit index stands in for the floating-point logarithm near powers of 1024.
- Messages.ParseCompose: the round trip holds only for details without a newline. A newline inside a detail makes the built text ambiguous.
- Messages.GetTemplate: the text table is modelled as a map. Keys such as `constructor`, which a JavaScript object literal inherits from its prototype, are not modelled.
- Characters: strings are sequences of characters, not UTF-16 code units, so surrogate pairs are not distinguished.
- Submission.FormDataOf: the form data holds one text entry per control. File entries and unchecked controls are not modelled.
- `MaplePrintsUtils` (scrolling to an element, copying to the clipboard, currency formatting, viewport checks) and the `debounce` and `throttle` helpers of the main class are not part of this model: they are page utilities outside lead capture.

## Findings

| source | as written | input that shows it | evidently intended | confidence | as-written member | corrected member |
|---|---|---|---|---|---|---|
| main.js:362-371 | a refused file only raises the error banner; the file input is not touched | picking a `text/plain` file through the browse dialog: the browser has already placed it in the file input (main.js:238-240), and after the refusal it is still attached to the form | a refused file is not left in the file input | medium, not executed | Upload.PickedRefusalStaysAttached | Upload.ClearedUploadKeepsInputAllowed |
