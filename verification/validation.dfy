/** Field-level and form-level validation of the customer form: the three rules
    of `validateField` (required, email shape, phone shape), the blur gate of
    `validateInput` and the conjunction of `validateForm`. */
module Validation {
  import opened Wrappers
  import opened Text

  /** A form control as the validator sees it: whether it carries the
      `required` attribute, its `type`, its `name` and its raw `value`. */
  datatype Field = Field(required: bool, inputType: string, name: string, value: string)

  /** What `validateField` decides: the returned flag and the message shown
      beside the field (empty when the field is valid). */
  datatype Verdict = Verdict(valid: bool, message: string)

  const RequiredMessage := "This field is required"
  const EmailMessage := "Please enter a valid email address"
  const PhoneMessage := "Please enter a valid phone number"

  // ---------------------------------------------------------------------------
  // The e-mail rule: /^[^\s@]+@[^\s@]+\.[^\s@]+$/

  /** A non-empty run of the class `[^\s@]`. */
  predicate EmailAtom(t: string) {
    |t| > 0 && forall k :: 0 <= k < |t| ==> !IsWs(t[k]) && t[k] != '@'
  }

  /** `s` splits as atom `@` atom `.` atom with the '@' at `a` and the '.' at `d`. */
  predicate EmailSplit(s: string, a: int, d: int) {
    && 0 < a < d < |s| && s[a] == '@' && s[d] == '.'
    && EmailAtom(s[..a]) && EmailAtom(s[a + 1..d]) && EmailAtom(s[d + 1..])
  }

  /** Reading of the regular expression: the value splits as
      atom `@` atom `.` atom, the three atoms drawn from `[^\s@]+`. */
  ghost predicate EmailPattern(s: string) {
    exists a, d :: EmailSplit(s, a, d)
  }

  /** The domain part has a '.' that is neither its first nor its last character. */
  predicate HasInnerDot(domain: string) {
    exists k :: 0 < k < |domain| - 1 && domain[k] == '.'
  }

  /** The e-mail rule as a character check: no whitespace, exactly one '@',
      something before it, and an inner '.' after it. */
  predicate EmailOk(s: string) {
    var a := IndexOf(s, '@');
    NoWs(s) && 0 < a < |s| && '@' !in s[a + 1..] && HasInnerDot(s[a + 1..])
  }

  /** The character check accepts exactly what the regular expression matches. */
  lemma EmailOkIffPattern(s: string)
    ensures EmailOk(s) <==> EmailPattern(s)
  {
    if EmailOk(s) {
      EmailOkMatches(s);
    }
    if EmailPattern(s) {
      EmailMatchPassesCheck(s);
    }
  }

  lemma EmailOkMatches(s: string)
    requires EmailOk(s)
    ensures EmailPattern(s)
  {
    var a := IndexOf(s, '@');
    var domain := s[a + 1..];
    var k :| 0 < k < |domain| - 1 && domain[k] == '.';
    var d := a + 1 + k;
    assert s[d] == '.';
    assert forall m :: a + 1 <= m < |s| ==> s[m] == domain[m - a - 1];
    assert EmailAtom(s[..a]);
    assert EmailAtom(s[a + 1..d]);
    assert EmailAtom(s[d + 1..]);
    assert EmailSplit(s, a, d);
  }

  /** Every character of an atom cut out of `s` is neither whitespace nor '@'. */
  lemma AtomChars(s: string, lo: nat, hi: nat)
    requires lo <= hi <= |s| && EmailAtom(s[lo..hi])
    ensures forall m :: lo <= m < hi ==> !IsWs(s[m]) && s[m] != '@'
  {
    forall m | lo <= m < hi
      ensures !IsWs(s[m]) && s[m] != '@'
    {
      assert s[m] == s[lo..hi][m - lo];
    }
  }

  /** The three atoms of a match cover every character but the '@' and the '.'. */
  lemma AtomsCover(s: string, a: nat, d: nat)
    requires 0 < a < d < |s|
    requires EmailAtom(s[..a]) && EmailAtom(s[a + 1..d]) && EmailAtom(s[d + 1..])
    ensures forall m :: 0 <= m < |s| && m != a && m != d ==> !IsWs(s[m]) && s[m] != '@'
  {
    assert s[..a] == s[0..a] && s[d + 1..] == s[d + 1..|s|];
    AtomChars(s, 0, a);
    AtomChars(s, a + 1, d);
    AtomChars(s, d + 1, |s|);
  }

  lemma EmailMatchPassesCheck(s: string)
    requires EmailPattern(s)
    ensures EmailOk(s)
  {
    var a, d :| EmailSplit(s, a, d);
    AtomsCover(s, a, d);
    assert !IsWs(s[a]) && !IsWs(s[d]);
    assert NoWs(s);
    IndexOfFirst(s, '@', a);
    var domain := s[a + 1..];
    assert domain[d - a - 1] == '.';
    assert HasInnerDot(domain);
    assert forall m :: 0 <= m < |domain| ==> domain[m] == s[a + 1 + m];
    assert '@' !in domain;
  }

  // ---------------------------------------------------------------------------
  // The phone rule: /^[\+]?[1-9][\d]{0,15}$/, applied after deleting whitespace

  /** Reading of the regular expression: an optional '+' (taking `k`
      characters), then a digit 1-9, then at most fifteen further digits. */
  ghost predicate PhonePattern(t: string) {
    exists k :: PhoneSplit(t, k)
  }

  /** `t` is a phone number whose first digit is at `k`. */
  predicate PhoneSplit(t: string, k: int) {
    && 0 <= k <= 1 && k < |t| && (k == 1 ==> t[0] == '+')
    && '1' <= t[k] <= '9' && |t| - k <= 16
    && forall j :: k < j < |t| ==> IsDigit(t[j])
  }

  /** The digits of a phone value: everything after an optional leading '+'. */
  function PhoneDigits(t: string): string {
    if |t| > 0 && t[0] == '+' then t[1..] else t
  }

  /** The phone rule as a character check: 1 to 16 digits with no leading
      zero, optionally preceded by '+'. */
  predicate PhoneOk(t: string) {
    var digits := PhoneDigits(t);
    0 < |digits| <= 16 && digits[0] != '0' && forall j :: 0 <= j < |digits| ==> IsDigit(digits[j])
  }

  /** The character check accepts exactly what the regular expression matches,
      and what it accepts has 1 to 16 digits. */
  lemma PhoneOkIffPattern(t: string)
    ensures PhoneOk(t) <==> PhonePattern(t)
    ensures PhoneOk(t) ==> 1 <= |PhoneDigits(t)| <= 16
  {
    if PhoneOk(t) {
      PhoneOkMatches(t);
    }
    if PhonePattern(t) {
      PhoneMatchPassesCheck(t);
    }
  }

  lemma PhoneOkMatches(t: string)
    requires PhoneOk(t)
    ensures PhonePattern(t)
  {
    var digits := PhoneDigits(t);
    var k := |t| - |digits|;
    assert t[k..] == digits;
    assert t[k] == digits[0];
    forall j | k < j < |t|
      ensures IsDigit(t[j])
    {
      assert t[j] == digits[j - k];
    }
    assert PhoneSplit(t, k);
  }

  lemma PhoneMatchPassesCheck(t: string)
    requires PhonePattern(t)
    ensures PhoneOk(t)
  {
    var k :| PhoneSplit(t, k);
    var digits := PhoneDigits(t);
    assert digits == t[k..];
    forall j | 0 <= j < |digits|
      ensures IsDigit(digits[j])
    {
      assert digits[j] == t[k + j];
    }
  }

  // ---------------------------------------------------------------------------
  // validateField

  /** The three rules, each stated over the regular-expression readings. */
  ghost predicate RequiredFails(f: Field) {
    f.required && Trim(f.value) == ""
  }

  ghost predicate EmailFails(f: Field) {
    var v := Trim(f.value);
    f.inputType == "email" && v != "" && !EmailPattern(v)
  }

  ghost predicate PhoneFails(f: Field) {
    var v := Trim(f.value);
    f.name == "whatsapp" && v != "" && !PhonePattern(RemoveWs(v))
  }

  /** A field passes when none of the three rules fails. */
  ghost predicate Acceptable(f: Field) {
    !RequiredFails(f) && !EmailFails(f) && !PhoneFails(f)
  }

  /** The verdict the three rules call for, stated over the regular-expression
      readings: the message of the last rule (in the order required, e-mail,
      phone) that fails, or a pass when none does. */
  ghost function RuleVerdict(f: Field): Verdict {
    if PhoneFails(f) then Verdict(false, PhoneMessage)
    else if EmailFails(f) then Verdict(false, EmailMessage)
    else if RequiredFails(f) then Verdict(false, RequiredMessage)
    else Verdict(true, "")
  }

  /** `validateField`: the rules run in the order required, email, phone on the
      trimmed value, and each failing rule overwrites the message of the one
      before, so the last failing rule is the one reported. */
  method ValidateField(f: Field) returns (r: Verdict)
    ensures r == RuleVerdict(f)
    ensures r.valid <==> Acceptable(f)
    ensures r.valid <==> r.message == ""
    ensures RequiredFails(f) ==> r.message == RequiredMessage
    ensures EmailFails(f) && !PhoneFails(f) ==> r.message == EmailMessage
    ensures PhoneFails(f) ==> r.message == PhoneMessage
    ensures r.message == RequiredMessage ==> Trim(f.value) == ""
  {
    var value := Trim(f.value);
    EmailOkIffPattern(value);
    PhoneOkIffPattern(RemoveWs(value));
    r := Verdict(true, "");
    if f.required && value == "" {
      r := Verdict(false, RequiredMessage);
    }
    if f.inputType == "email" && value != "" && !EmailOk(value) {
      r := Verdict(false, EmailMessage);
    }
    if f.name == "whatsapp" && value != "" && !PhoneOk(RemoveWs(value)) {
      r := Verdict(false, PhoneMessage);
    }
  }

  /** Only the required rule can fire on a blank value; the e-mail and phone
      rules never do, so a blank optional field is always valid. */
  lemma BlankFieldOnlyRequired(f: Field)
    requires AllWs(f.value)
    ensures RuleVerdict(f) == if f.required then Verdict(false, RequiredMessage) else Verdict(true, "")
  {
  }

  /** `validateInput`: on blur the field is validated iff it is required or its
      trimmed value is non-empty; otherwise nothing happens (`None`), and a
      field skipped this way would have passed anyway. */
  method ValidateInput(f: Field) returns (r: Option<Verdict>)
    ensures r.None? <==> !f.required && AllWs(f.value)
    ensures r.Some? ==> r.value == RuleVerdict(f)
    ensures r.None? ==> RuleVerdict(f).valid
  {
    if f.required || Trim(f.value) != "" {
      var verdict := ValidateField(f);
      r := Some(verdict);
    } else {
      r := None;
    }
  }

  // ---------------------------------------------------------------------------
  // validateForm

  /** The controls `form.querySelectorAll("[required]")` returns, in document order. */
  function RequiredFields(form: seq<Field>): (r: seq<Field>)
    ensures forall f :: f in r <==> f in form && f.required
  {
    if form == [] then []
    else
      var init := form[..|form| - 1];
      var last := form[|form| - 1];
      assert form == init + [last];
      RequiredFields(init) + (if last.required then [last] else [])
  }

  /** A single control is collected exactly when it is required. */
  lemma RequiredFieldsOne(f: Field)
    ensures RequiredFields([f]) == if f.required then [f] else []
  {
    assert [f][..0] == [];
  }

  /** Collecting distributes over concatenation. With `RequiredFieldsOne` this
      fixes the result completely: the required controls in document order,
      each exactly once. */
  lemma {:induction false} RequiredFieldsAppend(a: seq<Field>, b: seq<Field>)
    ensures RequiredFields(a + b) == RequiredFields(a) + RequiredFields(b)
  {
    if b == [] {
      assert a + b == a;
    } else {
      var init, last := b[..|b| - 1], b[|b| - 1];
      var kept := if last.required then [last] else [];
      assert (a + b)[..|a + b| - 1] == a + init && (a + b)[|a + b| - 1] == last;
      assert RequiredFields(a + b) == RequiredFields(a + init) + kept;
      RequiredFieldsAppend(a, init);
      assert RequiredFields(b) == RequiredFields(init) + kept;
      AppendFieldsAssoc(RequiredFields(a), RequiredFields(init), kept);
    }
  }

  lemma AppendFieldsAssoc(x: seq<Field>, y: seq<Field>, z: seq<Field>)
    ensures (x + y) + z == x + (y + z)
  {
  }

  /** The form passes when every required field does. */
  ghost predicate FormAcceptable(form: seq<Field>) {
    forall f :: f in form && f.required ==> Acceptable(f)
  }

  /** The verdict of each field, in order. */
  ghost function Verdicts(fields: seq<Field>): (vs: seq<Verdict>)
    ensures |vs| == |fields|
  {
    if fields == [] then [] else Verdicts(fields[..|fields| - 1]) + [RuleVerdict(fields[|fields| - 1])]
  }

  lemma {:induction false} VerdictsAt(fields: seq<Field>, j: nat)
    requires j < |fields|
    ensures Verdicts(fields)[j] == RuleVerdict(fields[j])
  {
    var init, last := fields[..|fields| - 1], fields[|fields| - 1];
    var vs := Verdicts(init);
    assert Verdicts(fields) == vs + [RuleVerdict(last)];
    if j < |init| {
      VerdictsAt(init, j);
      assert fields[j] == init[j];
      assert (vs + [RuleVerdict(last)])[j] == vs[j];
    }
  }

  lemma VerdictsAll(fields: seq<Field>)
    ensures forall j :: 0 <= j < |fields| ==> Verdicts(fields)[j] == RuleVerdict(fields[j])
  {
    forall j | 0 <= j < |fields|
      ensures Verdicts(fields)[j] == RuleVerdict(fields[j])
    {
      VerdictsAt(fields, j);
    }
  }

  /** Validating one more field appends its verdict. */
  lemma VerdictsSnoc(fields: seq<Field>, i: nat)
    requires i < |fields|
    ensures Verdicts(fields[..i + 1]) == Verdicts(fields[..i]) + [RuleVerdict(fields[i])]
  {
    assert fields[..i + 1][..i] == fields[..i];
  }

  /** All verdicts are positive. */
  predicate AllValid(vs: seq<Verdict>) {
    forall j :: 0 <= j < |vs| ==> vs[j].valid
  }

  lemma AllValidSnoc(vs: seq<Verdict>, v: Verdict)
    ensures AllValid(vs + [v]) <==> AllValid(vs) && v.valid
  {
    assert forall j :: 0 <= j < |vs| ==> (vs + [v])[j] == vs[j];
    assert (vs + [v])[|vs|] == v;
  }

  /** `validateForm`: the required controls are collected first, then every one
      of them is validated (no early exit, so every error is shown at once);
      the form is valid iff all of them are. */
  method ValidateForm(form: seq<Field>) returns (valid: bool, verdicts: seq<Verdict>)
    ensures |verdicts| == |RequiredFields(form)|
    ensures forall i :: 0 <= i < |verdicts| ==> verdicts[i] == RuleVerdict(RequiredFields(form)[i])
    ensures valid <==> FormAcceptable(form)
  {
    var fields := RequiredFields(form);
    valid := true;
    verdicts := [];
    var i := 0;
    while i < |fields|
      invariant 0 <= i <= |fields|
      invariant verdicts == Verdicts(fields[..i])
      invariant valid == AllValid(verdicts)
    {
      var verdict := ValidateField(fields[i]);
      if !verdict.valid {
        valid := false;
      }
      VerdictsSnoc(fields, i);
      AllValidSnoc(verdicts, verdict);
      verdicts := verdicts + [verdict];
      i := i + 1;
    }
    assert fields[..i] == fields;
    VerdictsAll(fields);
    FormAcceptableByRequired(form);
  }

  /** `FormAcceptable` read through the list of required fields and their verdicts. */
  lemma FormAcceptableByRequired(form: seq<Field>)
    ensures FormAcceptable(form) <==> AllValid(Verdicts(RequiredFields(form)))
  {
    var r := RequiredFields(form);
    var vs := Verdicts(r);
    if AllValid(vs) {
      forall f | f in form && f.required
        ensures Acceptable(f)
      {
        var j :| 0 <= j < |r| && r[j] == f;
        VerdictsAt(r, j);
        assert vs[j].valid;
      }
    }
    if FormAcceptable(form) {
      forall j | 0 <= j < |vs|
        ensures vs[j].valid
      {
        VerdictsAt(r, j);
        assert r[j] in r;
      }
    }
  }

  /** Only required fields are checked on submit: the values of the other
      fields never change whether the form passes. */
  lemma OptionalFieldsIgnored(form: seq<Field>, other: seq<Field>)
    requires |form| == |other|
    requires forall i :: 0 <= i < |form| ==> form[i].required == other[i].required
    requires forall i :: 0 <= i < |form| && form[i].required ==> form[i] == other[i]
    ensures FormAcceptable(form) <==> FormAcceptable(other)
  {
    if FormAcceptable(form) {
      forall f | f in other && f.required
        ensures Acceptable(f)
      {
        var i :| 0 <= i < |other| && other[i] == f;
        assert form[i] == f;
      }
    }
    if FormAcceptable(other) {
      forall f | f in form && f.required
        ensures Acceptable(f)
      {
        var i :| 0 <= i < |form| && form[i] == f;
        assert other[i] == f;
      }
    }
  }
}
