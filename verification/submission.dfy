/** `handleFormSubmit`: validate the required fields of the customer form and,
    only when all of them pass, build the WhatsApp message from the form data
    and hand it to the dispatcher. */
module Submission {
  import opened Wrappers
  import opened Text
  import opened Validation
  import opened Messages

  /** `new FormData(form)`: one (name, value) entry per control, in document
      order, values as typed (untrimmed). */
  function FormDataOf(form: seq<Field>): (fd: FormData)
    ensures |fd| == |form|
    ensures forall i :: 0 <= i < |form| ==> fd[i] == (form[i].name, form[i].value)
  {
    seq(|form|, i requires 0 <= i < |form| => (form[i].name, form[i].value))
  }

  /** No control of the form is named `key`. */
  predicate Unnamed(form: seq<Field>, key: string) {
    forall i :: 0 <= i < |form| ==> form[i].name != key
  }

  /** Control `i` is the first control of the form named `key`. */
  predicate FirstNamed(form: seq<Field>, key: string, i: int) {
    0 <= i < |form| && form[i].name == key && forall j :: 0 <= j < i ==> form[j].name != key
  }

  /** `v` is what the form gives for `key`: the raw value of the first control
      named `key`, or "" when no control has that name. */
  predicate ReadsAs(form: seq<Field>, key: string, v: string) {
    && (Unnamed(form, key) ==> v == "")
    && (forall i :: 0 <= i < |form| && FirstNamed(form, key, i) ==> v == form[i].value)
  }

  /** `formData.get(key) || ""` read on the form itself. */
  lemma GetOfFormData(form: seq<Field>, key: string)
    ensures ReadsAs(form, key, Get(FormDataOf(form), key))
  {
  }

  /** The lead summarised from the submitted form, stated over its controls:
      the design is taken as ready when no control is named `design-type` or
      the first one holds "" or `existing-design`, and each detail is what the
      form gives for its key. */
  lemma SummarizeForm(form: seq<Field>)
    ensures Unnamed(form, "design-type") ==> Summarize(FormDataOf(form)).hasDesign
    ensures forall i :: FirstNamed(form, "design-type", i) ==>
              (Summarize(FormDataOf(form)).hasDesign <==> form[i].value in {"", "existing-design"})
    ensures var l := Summarize(FormDataOf(form));
            && ReadsAs(form, "name", l.name) && ReadsAs(form, "whatsapp", l.whatsapp)
            && ReadsAs(form, "email", l.email) && ReadsAs(form, "business", l.business)
            && ReadsAs(form, "notes", l.notes)
  {
    GetOfFormData(form, "design-type");
    GetOfFormData(form, "name");
    GetOfFormData(form, "whatsapp");
    GetOfFormData(form, "email");
    GetOfFormData(form, "business");
    GetOfFormData(form, "notes");
  }

  /** The errors shown for the required fields, and the message dispatched, if
      any. A message goes out iff every required field passes; a required
      field left blank always blocks it. */
  method HandleFormSubmit(form: seq<Field>) returns (verdicts: seq<Verdict>, dispatched: Option<string>)
    ensures |verdicts| == |RequiredFields(form)|
    ensures forall i :: 0 <= i < |verdicts| ==> verdicts[i] == RuleVerdict(RequiredFields(form)[i])
    ensures dispatched.Some? <==> FormAcceptable(form)
    ensures dispatched.Some? ==> dispatched.value == GenerateMessage(FormDataOf(form))
    ensures (exists f :: f in form && f.required && AllWs(f.value)) ==> dispatched == None
  {
    var valid;
    valid, verdicts := ValidateForm(form);
    if valid {
      dispatched := Some(GenerateMessage(FormDataOf(form)));
    } else {
      dispatched := None;
    }
  }
}
