/** The two sources of the outbound WhatsApp text: the fixed table of canned
    templates behind the call-to-action buttons (`getWhatsAppTemplate`) and the
    message assembled from the submitted customer form
    (`generateWhatsAppMessage`). `ParseMessage` reads an assembled message back
    into the lead it was built from; the round-trip lemmas show that the
    builder loses nothing and adds nothing. */
module Messages {
  import opened Wrappers
  import opened Text

  // ---------------------------------------------------------------------------
  // getWhatsAppTemplate

  const Greeting := "Hi MaplePrints! "
  const FallbackKey := "general-inquiry"

  // Each text is written as the greeting, a short head that tells it apart
  // from the others, and the remainder.
  const Templates: map<string, string> := map[
    "existing-design" :=
      Greeting + "I'm" + " interested in your premium business card package.\n\nPackage: 1000 Business Cards - $250\nI already have a design ready for upload.\nPlease send me the file upload instructions.\n\nReady to order!",
    "need-design" :=
      Greeting + "I need help" + " designing premium business cards.\n\nPackage: 1000 Business Cards - $250\nI need design assistance ($20 consultation fee).\nPlease connect me with a designer.\n\nLooking forward to working with you!",
    "general-inquiry" :=
      Greeting + "I have" + " a question about your premium business cards.\n\nCould you please provide more information about your services?",
    "rush-order" :=
      Greeting + "I need premium" + " business cards urgently.\n\nIs there any way to expedite the 10-12 day delivery timeline?\nPlease let me know about rush order options."
  ]

  /** `getWhatsAppTemplate`: the text for a known category, the general-inquiry
      text for any other. The fallback text is returned exactly for unknown
      keys and for `general-inquiry` itself, since the four texts differ. */
  function GetTemplate(key: string): (r: string)
    ensures r in Templates.Values
    ensures StartsWith(r, Greeting)
    ensures key in Templates ==> r == Templates[key]
    ensures r == Templates[FallbackKey] <==> key !in Templates || key == FallbackKey
  {
    TemplatesDistinct();
    if key in Templates && Templates[key] != "" then Templates[key] else Templates[FallbackKey]
  }

  /** The four categories, and four different texts for them. */
  lemma TemplatesDistinct()
    ensures Templates.Keys == {"existing-design", "need-design", "general-inquiry", "rush-order"}
    ensures forall k1, k2 :: k1 in Templates && k2 in Templates && Templates[k1] == Templates[k2] ==> k1 == k2
    ensures forall k :: k in Templates ==> Templates[k] != "" && StartsWith(Templates[k], Greeting)
  {
    var t1 := Templates["existing-design"];
    var t2 := Templates["need-design"];
    var t3 := Templates["general-inquiry"];
    var t4 := Templates["rush-order"];
    TemplateHeads();
    assert t1[17] != t2[17] && t1[17] != t3[17] && t1[17] != t4[17];
    assert t2[18] != t3[18] && t3[18] != t4[18] && t2[23] != t4[23];
  }

  /** The characters that tell the four texts apart, and the shared greeting. */
  lemma TemplateHeads()
    ensures Templates["existing-design"][17] == '\''
    ensures Templates["need-design"][17] == ' ' && Templates["need-design"][18] == 'n' && Templates["need-design"][23] == 'h'
    ensures Templates["general-inquiry"][17] == ' ' && Templates["general-inquiry"][18] == 'h'
    ensures Templates["rush-order"][17] == ' ' && Templates["rush-order"][18] == 'n' && Templates["rush-order"][23] == 'p'
    ensures forall k :: k in Templates ==> StartsWith(Templates[k], Greeting)
  {
    assert Templates["existing-design"][..|Greeting|] == Greeting;
    assert Templates["need-design"][..|Greeting|] == Greeting;
    assert Templates["general-inquiry"][..|Greeting|] == Greeting;
    assert Templates["rush-order"][..|Greeting|] == Greeting;
  }

  // ---------------------------------------------------------------------------
  // generateWhatsAppMessage

  /** The submitted form data: (name, value) entries in document order. */
  type FormData = seq<(string, string)>

  /** `formData.get(key) || ""`: the value of the first entry named `key`, or the
      empty string when there is none. */
  function Get(fd: FormData, key: string): (v: string)
    ensures (forall i :: 0 <= i < |fd| ==> fd[i].0 != key) ==> v == ""
    ensures v == "" || exists i :: 0 <= i < |fd| && fd[i] == (key, v)
    ensures forall i :: 0 <= i < |fd| && fd[i].0 == key && (forall j :: 0 <= j < i ==> fd[j].0 != key) ==> v == fd[i].1
  {
    if fd == [] then ""
    else if fd[0].0 == key then fd[0].1
    else
      var rest := fd[1..];
      var v := Get(rest, key);
      assert forall i :: 0 <= i < |rest| ==> rest[i] == fd[i + 1];
      v
  }

  /** What the message carries: whether the customer has a design ready, and the
      five optional details (empty when not given). */
  datatype Lead = Lead(hasDesign: bool, name: string, whatsapp: string, email: string, business: string, notes: string)

  function Details(l: Lead): seq<string> {
    [l.name, l.whatsapp, l.email, l.business, l.notes]
  }

  /** The labels of the detail lines, in the order they are written. */
  const Labels: seq<string> := ["Name", "WhatsApp", "Email", "Business", "Notes"]

  // As with the templates, each text starts with a short distinguishing head.
  const OpeningReady := "I have" + " a design ready for premium business cards.\n\n"
  const OpeningHelp := "I need" + " help designing premium business cards.\n\n"
  const PackageLine := "Package: 1000 Business Cards - $250\n"
  const Closing := "\nReady" + " to proceed! Please guide me through the next steps."

  function Tag(caption: string): string {
    caption + ": "
  }

  /** One `Label: value` line, or nothing for an empty value. */
  function Line(caption: string, v: string): string {
    if v == "" then "" else Tag(caption) + v + "\n"
  }

  function RenderLines(labels: seq<string>, values: seq<string>): string
    requires |labels| == |values|
  {
    if labels == [] then "" else Line(labels[0], values[0]) + RenderLines(labels[1..], values[1..])
  }

  function Opening(hasDesign: bool): string {
    if hasDesign then OpeningReady else OpeningHelp
  }

  /** The message text for a lead: greeting, opening, package line, one line per
      non-empty detail, closing. */
  function Compose(l: Lead): string {
    Greeting + (Opening(l.hasDesign) + (PackageLine + (RenderLines(Labels, Details(l)) + Closing)))
  }

  /** The lead the form data describes: each detail is the form's value for
      its key, or "" when the key is missing; a missing or empty design type
      counts as `existing-design`. */
  function Summarize(fd: FormData): (l: Lead)
    ensures l.hasDesign <==> Get(fd, "design-type") in {"", "existing-design"}
    ensures Details(l) == [Get(fd, "name"), Get(fd, "whatsapp"), Get(fd, "email"), Get(fd, "business"), Get(fd, "notes")]
  {
    var designType := if Get(fd, "design-type") == "" then "existing-design" else Get(fd, "design-type");
    Lead(designType == "existing-design",
         Get(fd, "name"), Get(fd, "whatsapp"), Get(fd, "email"), Get(fd, "business"), Get(fd, "notes"))
  }

  /** `generateWhatsAppMessage`: the message for the lead the form describes. */
  function GenerateMessage(fd: FormData): string {
    Compose(Summarize(fd))
  }

  /** A composed message: greeting and opening in front, closing at the end. */
  lemma ComposeShape(l: Lead)
    ensures StartsWith(Compose(l), Greeting)
    ensures StartsWith(Compose(l), Greeting + Opening(l.hasDesign))
    ensures EndsWith(Compose(l), Closing)
  {
    var lines := RenderLines(Labels, Details(l));
    var body := PackageLine + (lines + Closing);
    var opening := Opening(l.hasDesign);
    assert Compose(l) == Greeting + (opening + body);
    PrefixOfConcat(Greeting, opening + body);
    StartsWithAssoc(Greeting, opening, body);
    PrefixOfConcat(lines, Closing);
    assert EndsWith(lines + Closing, Closing);
    EndsWithConcat(PackageLine, lines + Closing, Closing);
    EndsWithConcat(opening, body, Closing);
    EndsWithConcat(Greeting, opening + body, Closing);
  }

  /** The two openings differ at their third character, so a message that
      starts with one of them does not start with the other. */
  lemma OpeningsExclusive(m: string, hasDesign: bool)
    requires StartsWith(m, Greeting + Opening(hasDesign))
    ensures !StartsWith(m, Greeting + Opening(!hasDesign))
  {
    var k := |Greeting| + 2;
    assert m[k] == (Greeting + Opening(hasDesign))[k];
    assert (Greeting + OpeningReady)[k] == 'h' && (Greeting + OpeningHelp)[k] == 'n';
  }

  /** The message begins with the greeting, continues with the "design ready"
      opening exactly when the design type is missing, empty or
      `existing-design` (with the "need help" opening otherwise), and ends with
      the closing line. */
  lemma GenerateMessageShape(fd: FormData)
    ensures StartsWith(GenerateMessage(fd), Greeting)
    ensures StartsWith(GenerateMessage(fd), Greeting + OpeningReady) <==> Get(fd, "design-type") in {"", "existing-design"}
    ensures StartsWith(GenerateMessage(fd), Greeting + OpeningHelp) <==> Get(fd, "design-type") !in {"", "existing-design"}
    ensures EndsWith(GenerateMessage(fd), Closing)
  {
    var l := Summarize(fd);
    ComposeShape(l);
    OpeningsExclusive(Compose(l), l.hasDesign);
  }

  // ---------------------------------------------------------------------------
  // Reading a message back

  /** The text before the first newline and the text after it. */
  function SplitLine(s: string): Option<(string, string)> {
    var i := IndexOf(s, '\n');
    if i == |s| then None else Some((s[..i], s[i + 1..]))
  }

  /** Reads one optional `Label: value` line; an absent line reads as "". */
  function TakeField(caption: string, s: string): Option<(string, string)> {
    if !StartsWith(s, Tag(caption)) then Some(("", s))
    else
      var p :- SplitLine(s[|Tag(caption)|..]);
      if p.0 == "" then None else Some(p)
  }

  function ParseLines(labels: seq<string>, s: string): (r: Option<(seq<string>, string)>)
    ensures r.Some? ==> |r.value.0| == |labels|
  {
    if labels == [] then Some(([], s))
    else
      var first :- TakeField(labels[0], s);
      var others :- ParseLines(labels[1..], first.1);
      Some(([first.0] + others.0, others.1))
  }

  /** The text after `prefix`, when `s` starts with it. */
  function DropPrefix(s: string, prefix: string): (r: Option<string>)
    ensures r.Some? <==> StartsWith(s, prefix)
    ensures r.Some? ==> s == prefix + r.value
  {
    if StartsWith(s, prefix) then
      assert s == s[..|prefix|] + s[|prefix|..];
      Some(s[|prefix|..])
    else None
  }

  /** Reads an assembled message back into its lead; `None` for any text the
      builder cannot have produced. */
  function ParseMessage(m: string): Option<Lead> {
    var m1 :- DropPrefix(m, Greeting);
    var hasDesign := StartsWith(m1, OpeningReady);
    var m2 :- DropPrefix(m1, Opening(hasDesign));
    var rest :- DropPrefix(m2, PackageLine);
    var p :- ParseLines(Labels, rest);
    if p.1 != Closing then None
    else Some(Lead(hasDesign, p.0[0], p.0[1], p.0[2], p.0[3], p.0[4]))
  }

  /** A lead the message can carry unambiguously: no detail contains a newline. */
  predicate SingleLine(l: Lead) {
    forall i :: 0 <= i < |Details(l)| ==> '\n' !in Details(l)[i]
  }

  // Round trip, first direction: reading a composed message gives the lead back.

  lemma SplitLineOfLine(v: string, rest: string)
    requires '\n' !in v
    ensures SplitLine(v + "\n" + rest) == Some((v, rest))
  {
    var s := v + "\n" + rest;
    assert s[|v|] == '\n';
    assert forall k :: 0 <= k < |v| ==> s[k] == v[k];
    assert IndexOf(s, '\n') == |v|;
    assert s[..|v|] == v;
    assert s[|v| + 1..] == rest;
  }

  function Head(s: string): string
    requires |s| >= 2
  {
    s[..2]
  }

  /** The first two characters of rendered lines followed by `tail` are those of
      the first rendered tag, or of `tail` when every value is empty. */
  lemma {:induction false} RenderedHead(labels: seq<string>, values: seq<string>, tail: string)
    requires |labels| == |values| && |tail| >= 2
    ensures |RenderLines(labels, values) + tail| >= 2
    ensures var h := Head(RenderLines(labels, values) + tail);
            h == Head(tail) || exists i :: 0 <= i < |labels| && h == Head(Tag(labels[i]))
  {
    if labels != [] {
      RenderedHead(labels[1..], values[1..], tail);
      var rest := RenderLines(labels[1..], values[1..]) + tail;
      if values[0] != "" {
        var s := RenderLines(labels, values) + tail;
        assert s == Tag(labels[0]) + (values[0] + "\n" + rest);
        assert s[..2] == Tag(labels[0])[..2];
      } else {
        assert RenderLines(labels, values) + tail == rest;
        if Head(rest) != Head(tail) {
          var i :| 0 <= i < |labels[1..]| && Head(rest) == Head(Tag(labels[1..][i]));
          assert labels[1..][i] == labels[i + 1];
        }
      }
    }
  }

  /** The tags are told apart by their first two characters, and from the tail. */
  predicate HeadsDistinct(labels: seq<string>, tail: string) {
    && |tail| >= 2
    && (forall i, j :: 0 <= i < j < |labels| ==> Head(Tag(labels[i])) != Head(Tag(labels[j])))
    && (forall i :: 0 <= i < |labels| ==> Head(Tag(labels[i])) != Head(tail))
  }

  lemma HeadsDistinctTail(labels: seq<string>, tail: string)
    requires labels != [] && HeadsDistinct(labels, tail)
    ensures HeadsDistinct(labels[1..], tail)
  {
    forall i, j | 0 <= i < j < |labels[1..]|
      ensures Head(Tag(labels[1..][i])) != Head(Tag(labels[1..][j]))
    {
      assert labels[1..][i] == labels[i + 1] && labels[1..][j] == labels[j + 1];
    }
  }

  /** When the first value is empty, the text that follows cannot be mistaken
      for a line under the first caption. */
  lemma NextLineNotFirstTag(labels: seq<string>, values: seq<string>, tail: string)
    requires |labels| == |values| && labels != []
    requires HeadsDistinct(labels, tail)
    ensures !StartsWith(RenderLines(labels[1..], values[1..]) + tail, Tag(labels[0]))
  {
    RenderedHead(labels[1..], values[1..], tail);
    assert forall i :: 0 <= i < |labels[1..]| ==> labels[1..][i] == labels[i + 1];
  }

  /** A written line reads back as its value. */
  lemma TakeFieldOfLine(caption: string, v: string, rest: string)
    requires v != "" && '\n' !in v
    ensures TakeField(caption, Line(caption, v) + rest) == Some((v, rest))
  {
    var tag := Tag(caption);
    var t := v + "\n" + rest;
    var s := Line(caption, v) + rest;
    assert s == tag + t;
    PrefixOfConcat(tag, t);
    assert StartsWith(s, tag) && s[|tag|..] == t;
    SplitLineOfLine(v, rest);
    assert SplitLine(t) == Some((v, rest));
  }

  /** The first field of rendered lines reads back as the first value. */
  lemma TakeFieldRendered(labels: seq<string>, values: seq<string>, tail: string)
    requires |labels| == |values| && labels != []
    requires HeadsDistinct(labels, tail) && '\n' !in values[0]
    ensures TakeField(labels[0], RenderLines(labels, values) + tail)
         == Some((values[0], RenderLines(labels[1..], values[1..]) + tail))
  {
    var rest := RenderLines(labels[1..], values[1..]) + tail;
    var s := RenderLines(labels, values) + tail;
    assert RenderLines(labels, values) == Line(labels[0], values[0]) + RenderLines(labels[1..], values[1..]);
    AppendAssoc(Line(labels[0], values[0]), RenderLines(labels[1..], values[1..]), tail);
    if values[0] != "" {
      TakeFieldOfLine(labels[0], values[0], rest);
    } else {
      assert s == rest;
      NextLineNotFirstTag(labels, values, tail);
    }
  }

  /** One step of `ParseLines`, read forwards. */
  lemma ParseLinesCons(labels: seq<string>, s: string, values: seq<string>, rest: string, tail: string)
    requires labels != [] && values != []
    requires TakeField(labels[0], s) == Some((values[0], rest))
    requires ParseLines(labels[1..], rest) == Some((values[1..], tail))
    ensures ParseLines(labels, s) == Some((values, tail))
  {
    assert [values[0]] + values[1..] == values;
  }

  lemma {:induction false} ParseRenderedLines(labels: seq<string>, values: seq<string>, tail: string)
    requires |labels| == |values|
    requires HeadsDistinct(labels, tail)
    requires forall i :: 0 <= i < |values| ==> '\n' !in values[i]
    ensures ParseLines(labels, RenderLines(labels, values) + tail) == Some((values, tail))
  {
    if labels == [] {
      assert RenderLines(labels, values) == "";
      assert "" + tail == tail;
    } else {
      var s := RenderLines(labels, values) + tail;
      var rest := RenderLines(labels[1..], values[1..]) + tail;
      HeadsDistinctTail(labels, tail);
      ParseRenderedLines(labels[1..], values[1..], tail);
      TakeFieldRendered(labels, values, tail);
      ParseLinesCons(labels, s, values, rest, tail);
    }
  }

  lemma LabelsHeadsDistinct()
    ensures HeadsDistinct(Labels, Closing)
  {
    assert Head(Tag(Labels[0])) == "Na";
    assert Head(Tag(Labels[1])) == "Wh";
    assert Head(Tag(Labels[2])) == "Em";
    assert Head(Tag(Labels[3])) == "Bu";
    assert Head(Tag(Labels[4])) == "No";
    assert Head(Closing) == "\nR";
  }

  /** `ParseMessage` on a message built from its parts: greeting, an opening,
      the package line, then text whose lines parse to `values`. */
  lemma ParseMessageOfParts(hasDesign: bool, body: string, values: seq<string>)
    requires ParseLines(Labels, body) == Some((values, Closing))
    ensures |values| == 5
    ensures ParseMessage(Greeting + (Opening(hasDesign) + (PackageLine + body)))
         == Some(Lead(hasDesign, values[0], values[1], values[2], values[3], values[4]))
  {
    var m2 := PackageLine + body;
    var m1 := Opening(hasDesign) + m2;
    PrefixOfConcat(Greeting, m1);
    PrefixOfConcat(Opening(hasDesign), m2);
    PrefixOfConcat(PackageLine, body);
    assert DropPrefix(Greeting + m1, Greeting) == Some(m1);
    assert StartsWith(m1, OpeningReady) == hasDesign by {
      if !hasDesign {
        assert m1[2] == 'n' && OpeningReady[2] == 'h';
      }
    }
    assert DropPrefix(m1, Opening(hasDesign)) == Some(m2);
    assert DropPrefix(m2, PackageLine) == Some(body);
  }

  /** Reading back a composed message gives exactly the lead it was composed
      from, so every non-empty detail is written once, under its own caption. */
  lemma ParseCompose(l: Lead)
    requires SingleLine(l)
    ensures ParseMessage(Compose(l)) == Some(l)
  {
    var body := RenderLines(Labels, Details(l)) + Closing;
    LabelsHeadsDistinct();
    ParseRenderedLines(Labels, Details(l), Closing);
    ParseMessageOfParts(l.hasDesign, body, Details(l));
  }

  // Round trip, second direction: whatever parses is exactly the composition
  // of what it parses to.

  lemma SplitLineSound(s: string)
    requires SplitLine(s).Some?
    ensures var p := SplitLine(s).value; s == p.0 + "\n" + p.1 && '\n' !in p.0
  {
    var i := IndexOf(s, '\n');
    assert s == s[..i] + "\n" + s[i + 1..];
  }

  lemma TakeFieldSound(caption: string, s: string)
    requires TakeField(caption, s).Some?
    ensures var p := TakeField(caption, s).value; s == Line(caption, p.0) + p.1 && '\n' !in p.0
  {
    var tag := Tag(caption);
    if StartsWith(s, tag) {
      var t := s[|tag|..];
      assert s == tag + t;
      SplitLineSound(t);
      var p := SplitLine(t).value;
      assert TakeField(caption, s) == Some(p);
      assert Line(caption, p.0) == tag + p.0 + "\n";
      assert s == tag + p.0 + "\n" + p.1;
    }
  }

  /** One step of `ParseLines`: the first field is read, then the others. */
  lemma ParseLinesStep(labels: seq<string>, s: string)
    requires labels != [] && ParseLines(labels, s).Some?
    ensures TakeField(labels[0], s).Some?
    ensures var first := TakeField(labels[0], s).value;
            && ParseLines(labels[1..], first.1).Some?
            && var others := ParseLines(labels[1..], first.1).value;
               ParseLines(labels, s).value == ([first.0] + others.0, others.1)
  {
  }

  lemma {:induction false} ParseLinesSound(labels: seq<string>, s: string)
    requires ParseLines(labels, s).Some?
    ensures var p := ParseLines(labels, s).value;
            && RenderLines(labels, p.0) + p.1 == s
            && forall i :: 0 <= i < |p.0| ==> '\n' !in p.0[i]
  {
    if labels != [] {
      ParseLinesStep(labels, s);
      var first := TakeField(labels[0], s).value;
      var others := ParseLines(labels[1..], first.1).value;
      TakeFieldSound(labels[0], s);
      ParseLinesSound(labels[1..], first.1);
      var vs := [first.0] + others.0;
      assert vs[0] == first.0 && vs[1..] == others.0;
      var line := Line(labels[0], first.0);
      var restLines := RenderLines(labels[1..], others.0);
      assert RenderLines(labels, vs) == line + restLines;
      assert restLines + others.1 == first.1;
      assert line + first.1 == s;
      AppendAssoc(line, restLines, others.1);
    }
  }

  /** The steps of `ParseMessage` on a message it accepts. */
  lemma ParseMessageSteps(m: string)
    requires ParseMessage(m).Some?
    ensures DropPrefix(m, Greeting).Some?
    ensures var m1 := DropPrefix(m, Greeting).value;
            var hasDesign := StartsWith(m1, OpeningReady);
            && DropPrefix(m1, Opening(hasDesign)).Some?
            && var m2 := DropPrefix(m1, Opening(hasDesign)).value;
               && DropPrefix(m2, PackageLine).Some?
               && var rest := DropPrefix(m2, PackageLine).value;
                  && ParseLines(Labels, rest).Some?
                  && var p := ParseLines(Labels, rest).value;
                     && p.1 == Closing
                     && ParseMessage(m).value == Lead(hasDesign, p.0[0], p.0[1], p.0[2], p.0[3], p.0[4])
  {
  }

  /** Every message that parses is the composition of the lead it parses to:
      `Compose` and `ParseMessage` are inverse on single-line leads. */
  lemma ComposeParse(m: string)
    ensures ParseMessage(m).Some? ==> SingleLine(ParseMessage(m).value) && Compose(ParseMessage(m).value) == m
  {
    if ParseMessage(m).Some? {
      ComposeParseAccepted(m);
    }
  }

  lemma ComposeParseAccepted(m: string)
    requires ParseMessage(m).Some?
    ensures SingleLine(ParseMessage(m).value)
    ensures Compose(ParseMessage(m).value) == m
  {
    ParseMessageSteps(m);
    var l := ParseMessage(m).value;
    var m1 := DropPrefix(m, Greeting).value;
    var opening := Opening(StartsWith(m1, OpeningReady));
    var m2 := DropPrefix(m1, opening).value;
    var rest := DropPrefix(m2, PackageLine).value;
    var p := ParseLines(Labels, rest).value;
    assert Details(l) == p.0;
    ParseLinesSound(Labels, rest);
    assert rest == RenderLines(Labels, Details(l)) + Closing;
    assert opening == Opening(l.hasDesign);
  }

  /** The form of a customer who needs a design and gave only a name and a
      WhatsApp number. */
  const ExampleForm: FormData := [("name", "Ana"), ("whatsapp", "+15551234567"), ("email", ""),
                                  ("business", ""), ("notes", ""), ("design-type", "need-design")]

  lemma ExampleFormSummary()
    ensures Summarize(ExampleForm) == Lead(false, "Ana", "+15551234567", "", "", "")
  {
    ExampleFormContact();
    ExampleFormBlanks();
    ExampleFormRest();
    assert "need-design"[0] == 'n';
  }

  lemma ExampleFormContact()
    ensures Get(ExampleForm, "name") == "Ana" && Get(ExampleForm, "whatsapp") == "+15551234567"
  {
    var fd := ExampleForm;
    assert fd[0].0 == "name" && fd[1].0 == "whatsapp";
  }

  lemma ExampleFormBlanks()
    ensures Get(ExampleForm, "email") == "" && Get(ExampleForm, "business") == ""
  {
    var fd := ExampleForm;
    assert fd[2].0 == "email" && fd[3].0 == "business";
  }

  lemma ExampleFormRest()
    ensures Get(ExampleForm, "notes") == "" && Get(ExampleForm, "design-type") == "need-design"
  {
    var fd := ExampleForm;
    assert fd[4].0 == "notes" && fd[5].0 == "design-type";
  }

  /** The detail lines, written out: Name, WhatsApp, Email, Business, Notes. */
  lemma RenderDetails(l: Lead)
    ensures RenderLines(Labels, Details(l))
         == Line("Name", l.name) + (Line("WhatsApp", l.whatsapp) + (Line("Email", l.email)
            + (Line("Business", l.business) + (Line("Notes", l.notes) + ""))))
  {
    var ls0, vs0 := Labels, Details(l);
    var ls1, vs1 := ls0[1..], vs0[1..];
    var ls2, vs2 := ls1[1..], vs1[1..];
    var ls3, vs3 := ls2[1..], vs2[1..];
    var ls4, vs4 := ls3[1..], vs3[1..];
    assert ls4 == ["Notes"] && vs4 == [l.notes] && ls4[1..] == [];
    assert RenderLines(ls4, vs4) == Line("Notes", l.notes) + "";
    assert ls3[0] == "Business" && vs3[0] == l.business;
    assert RenderLines(ls3, vs3) == Line("Business", l.business) + RenderLines(ls4, vs4);
    assert ls2[0] == "Email" && vs2[0] == l.email;
    assert RenderLines(ls2, vs2) == Line("Email", l.email) + RenderLines(ls3, vs3);
    assert ls1[0] == "WhatsApp" && vs1[0] == l.whatsapp;
    assert RenderLines(ls1, vs1) == Line("WhatsApp", l.whatsapp) + RenderLines(ls2, vs2);
    assert RenderLines(ls0, vs0) == Line("Name", l.name) + RenderLines(ls1, vs1);
  }

  /** A lead with only a name and a WhatsApp number gets exactly those two
      detail lines. */
  lemma ComposeNameAndWhatsApp(hasDesign: bool, name: string, whatsapp: string)
    requires name != "" && whatsapp != ""
    ensures Compose(Lead(hasDesign, name, whatsapp, "", "", ""))
         == Greeting + (Opening(hasDesign) + (PackageLine + (Tag("Name") + name + "\n" + (Tag("WhatsApp") + whatsapp + "\n") + Closing)))
  {
    var l := Lead(hasDesign, name, whatsapp, "", "", "");
    RenderDetails(l);
    var nameLine, whatsappLine := Line("Name", name), Line("WhatsApp", whatsapp);
    assert Line("Email", "") + (Line("Business", "") + (Line("Notes", "") + "")) == "";
    assert RenderLines(Labels, Details(l)) == nameLine + whatsappLine;
    assert nameLine == Tag("Name") + name + "\n";
    assert whatsappLine == Tag("WhatsApp") + whatsapp + "\n";
  }

  /** The exact message for that customer: the help opening, then only the
      Name and WhatsApp lines. */
  lemma NeedDesignExample()
    ensures GenerateMessage(ExampleForm)
         == Greeting + (OpeningHelp + (PackageLine + (Tag("Name") + "Ana" + "\n" + (Tag("WhatsApp") + "+15551234567" + "\n") + Closing)))
  {
    ExampleFormSummary();
    ComposeNameAndWhatsApp(false, "Ana", "+15551234567");
  }
}
