/** `Compose`: turns the content, the caller's sections and attachments and
    the recipients into a transport-ready message. */
module Composer {
  import opened Wrappers
  import opened Text
  import opened Recipients

  /** An `IEmailable` content section, given by what its `ToHtml()` and
      `ToText()` return. */
  datatype Section = Section(html: string, text: string)

  /** An attachment; the composer passes it along without looking inside. */
  datatype Attachment = Attachment(handle: nat)

  /** A text encoding, known by name. */
  datatype Encoding = Encoding(name: string)

  /** `Encoding.UTF8`, used when the caller gives no encoding. */
  const Utf8: Encoding := Encoding("utf-8")

  /** The four address lists of a message, each holding `Recipient.ToString()` values. */
  datatype Envelope = Envelope(to: seq<string>, cc: seq<string>, bcc: seq<string>, replyTo: seq<string>)

  /** The parts of a `MailMessage` the composer sets. */
  datatype MailMessage = MailMessage(
    body: string,
    bodyEncoding: Encoding,
    isBodyHtml: bool,
    subject: string,
    subjectEncoding: Encoding,
    envelope: Envelope,
    attachments: seq<Attachment>)

  /** What a section contributes to the body in the chosen format. */
  function Render(s: Section, isHtml: bool): string {
    if isHtml then s.html else s.text
  }

  /** The sections rendered one after another, in the given order. */
  function Rendered(sections: seq<Section>, isHtml: bool): string
    decreases |sections|
  {
    if |sections| == 0 then "" else Render(sections[0], isHtml) + Rendered(sections[1..], isHtml)
  }

  /** Rendering a concatenation renders each part in turn. */
  lemma {:induction false} RenderedAppend(a: seq<Section>, b: seq<Section>, isHtml: bool)
    ensures Rendered(a + b, isHtml) == Rendered(a, isHtml) + Rendered(b, isHtml)
    decreases |a|
  {
    if |a| == 0 {
      assert a + b == b;
    } else {
      assert (a + b)[1..] == a[1..] + b;
      RenderedAppend(a[1..], b, isHtml);
    }
  }

  const HtmlBannerOpen: string := "<p style=\"color: red\">"
  const HtmlBannerClose: string := "</p><br />"
  /** As written, the plain-text banner closes with line feed then carriage return. */
  const TextBannerClose: string := "\n\r"

  function BannerOpen(isHtml: bool): string {
    if isHtml then HtmlBannerOpen else ""
  }

  function BannerClose(isHtml: bool): string {
    if isHtml then HtmlBannerClose else TextBannerClose
  }

  /** The test-mode banner put in front of the content: the marker between a
      fixed opening and a fixed closing, from which it can be read back. */
  function TestBanner(marker: string, isHtml: bool): (b: string)
    ensures |b| == |BannerOpen(isHtml)| + |marker| + |BannerClose(isHtml)|
    ensures b[..|BannerOpen(isHtml)|] == BannerOpen(isHtml)
    ensures b[|BannerOpen(isHtml)|..|b| - |BannerClose(isHtml)|] == marker
    ensures b[|b| - |BannerClose(isHtml)|..] == BannerClose(isHtml)
  {
    SliceOfConcat(BannerOpen(isHtml), marker, BannerClose(isHtml));
    EndsWith(BannerOpen(isHtml) + marker, BannerClose(isHtml));
    BannerOpen(isHtml) + marker + BannerClose(isHtml)
  }

  /** The plain-text banner does not end in CRLF: its last two characters
      are `\n` then `\r`. */
  lemma PlainBannerEndsWithLfCr(marker: string)
    ensures var b := TestBanner(marker, false);
            |b| >= 2 && b[|b| - 2..] == "\n\r" && b[|b| - 2..] != "\r\n"
  {
    assert |TextBannerClose| == 2;
  }

  /** The body text: optional banner, then the content, then every section. */
  function Body(testMode: bool, marker: string, content: string, sections: Option<seq<Section>>, isHtml: bool): string {
    (if testMode then TestBanner(marker, isHtml) else "") + content + Rendered(sections.OrElse([]), isHtml)
  }

  /** Whatever the sections, the body opens with the banner (in test mode)
      and then the content, unchanged. */
  lemma BodyStart(testMode: bool, marker: string, content: string, sections: Option<seq<Section>>, isHtml: bool)
    ensures var body := Body(testMode, marker, content, sections, isHtml);
            var banner := if testMode then TestBanner(marker, isHtml) else "";
            && |body| >= |banner| + |content|
            && body[..|banner|] == banner
            && body[|banner|..|banner| + |content|] == content
  {
    var banner := if testMode then TestBanner(marker, isHtml) else "";
    SliceOfConcat(banner, content, Rendered(sections.OrElse([]), isHtml));
  }

  /** The body begins with the banner exactly in test mode, continues with the
      content unchanged, and section `i` sits right after the sections before it. */
  lemma BodyLayout(testMode: bool, marker: string, content: string, sections: seq<Section>, isHtml: bool, i: nat)
    requires i < |sections|
    ensures var body := Body(testMode, marker, content, Some(sections), isHtml);
            var banner := if testMode then TestBanner(marker, isHtml) else "";
            var at := |banner| + |content| + |Rendered(sections[..i], isHtml)|;
            var piece := Render(sections[i], isHtml);
            && body[..|banner|] == banner
            && body[|banner|..|banner| + |content|] == content
            && at + |piece| <= |body|
            && body[at..at + |piece|] == piece
  {
    var banner := if testMode then TestBanner(marker, isHtml) else "";
    var front := Rendered(sections[..i], isHtml);
    var piece := Render(sections[i], isHtml);
    var back := Rendered(sections[i + 1..], isHtml);
    RenderedAround(sections, i, isHtml);
    var all := Rendered(sections, isHtml);
    SliceOfConcat(banner, content, all);
    SliceOfConcat(banner + content + front, piece, back);
    Regroup(banner + content, front, piece, back);
  }

  lemma RenderedAround(sections: seq<Section>, i: nat, isHtml: bool)
    requires i < |sections|
    ensures Rendered(sections, isHtml)
         == Rendered(sections[..i], isHtml) + (Render(sections[i], isHtml) + Rendered(sections[i + 1..], isHtml))
  {
    RenderedAppend(sections[..i], sections[i..], isHtml);
    assert sections[..i] + sections[i..] == sections;
    assert sections[i..][1..] == sections[i + 1..];
  }

  /** No sections and `null` sections give the same body. */
  lemma BodyNullSectionsAsEmpty(testMode: bool, marker: string, content: string, isHtml: bool)
    ensures Body(testMode, marker, content, None, isHtml) == Body(testMode, marker, content, Some([]), isHtml)
    ensures !testMode ==> Body(testMode, marker, content, None, isHtml) == content
  {
  }

  /** The rendered addresses of the recipients with role `t`, in input order. */
  function AddressesWith(rs: seq<Recipient>, t: RecipientType): seq<string>
    decreases |rs|
  {
    if |rs| == 0 then []
    else (if rs[0].role == t then [Display(rs[0])] else []) + AddressesWith(rs[1..], t)
  }

  lemma {:induction false} AddressesWithSnoc(rs: seq<Recipient>, r: Recipient, t: RecipientType)
    ensures AddressesWith(rs + [r], t) == AddressesWith(rs, t) + (if r.role == t then [Display(r)] else [])
    decreases |rs|
  {
    if |rs| == 0 {
      assert rs + [r] == [r];
    } else {
      var head := if rs[0].role == t then [Display(rs[0])] else [];
      var tail := if r.role == t then [Display(r)] else [];
      assert (rs + [r])[0] == rs[0];
      assert (rs + [r])[1..] == rs[1..] + [r];
      assert AddressesWith(rs + [r], t) == head + AddressesWith(rs[1..] + [r], t);
      AddressesWithSnoc(rs[1..], r, t);
      assert head + (AddressesWith(rs[1..], t) + tail) == (head + AddressesWith(rs[1..], t)) + tail;
    }
  }

  /** The exceptions `Compose` can end in, in the order it can meet them. */
  datatype ComposeError =
    | SubjectHasLineBreak                          // `ArgumentException` from the `Subject` setter
    | UnsupportedRecipientType(role: RecipientType) // the `default:` branch of the recipient switch
    | UnparsableAddress(address: string)           // `FormatException` from `MailAddressCollection.Add`

  /** `MailMessage.Subject` refuses a subject that contains CR or LF. */
  predicate HasLineBreak(s: string) {
    '\r' in s || '\n' in s
  }

  /** A recipient the recipient loop gets past: a declared type, and a
      rendering that `MailAddressCollection.Add` (the parameter
      `acceptsAddress`) parses. */
  predicate Routable(r: Recipient, acceptsAddress: string -> bool) {
    IsNamed(r.role) && acceptsAddress(Display(r))
  }

  /** The exception the recipient loop throws at a recipient it cannot route. */
  function RouteError(r: Recipient): ComposeError {
    if !IsNamed(r.role) then UnsupportedRecipientType(r.role) else UnparsableAddress(Display(r))
  }

  /** Index of the first recipient the loop cannot route, or `|rs|` if there
      is none. */
  function FirstRefused(rs: seq<Recipient>, acceptsAddress: string -> bool): (k: nat)
    ensures k <= |rs|
    ensures forall j :: 0 <= j < k ==> Routable(rs[j], acceptsAddress)
    ensures k < |rs| ==> !Routable(rs[k], acceptsAddress)
    decreases |rs|
  {
    if |rs| == 0 then 0
    else if !Routable(rs[0], acceptsAddress) then 0
    else 1 + FirstRefused(rs[1..], acceptsAddress)
  }

  /** Puts one recipient on the list its role selects. An undeclared role is
      the "Unsupported recipient type" exception; a rendering `Add` does not
      parse is its `FormatException`. */
  function AddRecipient(env: Envelope, r: Recipient, acceptsAddress: string -> bool): Result<Envelope, ComposeError> {
    if !IsNamed(r.role) then Failure(UnsupportedRecipientType(r.role))
    else if !acceptsAddress(Display(r)) then Failure(UnparsableAddress(Display(r)))
    else if r.role == To then Success(env.(to := env.to + [Display(r)]))
    else if r.role == Cc then Success(env.(cc := env.cc + [Display(r)]))
    else if r.role == Bcc then Success(env.(bcc := env.bcc + [Display(r)]))
    else Success(env.(replyTo := env.replyTo + [Display(r)]))
  }

  /** The recipient loop of `Compose`, one recipient at a time in input order. */
  function Route(rs: seq<Recipient>, acceptsAddress: string -> bool): (r: Result<Envelope, ComposeError>)
    ensures r.Success? <==> FirstRefused(rs, acceptsAddress) == |rs|
    ensures r.Success? ==> r.value == Envelope(AddressesWith(rs, To), AddressesWith(rs, Cc), AddressesWith(rs, Bcc), AddressesWith(rs, ReplyTo))
    ensures r.Failure? ==> r.error == RouteError(rs[FirstRefused(rs, acceptsAddress)])
    decreases |rs|
  {
    if |rs| == 0 then Success(Envelope([], [], [], []))
    else
      var before := rs[..|rs| - 1];
      var last := rs[|rs| - 1];
      assert rs == before + [last];
      assert FirstRefused(before, acceptsAddress) < |before| ==> FirstRefused(rs, acceptsAddress) == FirstRefused(before, acceptsAddress);
      assert FirstRefused(before, acceptsAddress) == |before| ==> FirstRefused(rs, acceptsAddress) >= |before|;
      AddressesWithSnoc(before, last, To);
      AddressesWithSnoc(before, last, Cc);
      AddressesWithSnoc(before, last, Bcc);
      AddressesWithSnoc(before, last, ReplyTo);
      match Route(before, acceptsAddress)
      case Failure(e) => Failure(e)
      case Success(env) => AddRecipient(env, last, acceptsAddress)
  }

  /** Every recipient lands on exactly one list: the lists together are as
      long as the recipient array. */
  lemma {:induction false} RouteKeepsEveryone(rs: seq<Recipient>, acceptsAddress: string -> bool)
    requires Route(rs, acceptsAddress).Success?
    ensures var e := Route(rs, acceptsAddress).value;
            |e.to| + |e.cc| + |e.bcc| + |e.replyTo| == |rs|
    decreases |rs|
  {
    if |rs| > 0 {
      assert FirstRefused(rs, acceptsAddress) == |rs|;
      assert FirstRefused(rs[1..], acceptsAddress) == |rs| - 1;
      RouteKeepsEveryone(rs[1..], acceptsAddress);
    }
  }

  /** `Compose(recipients, subject, content, sections, attachments, isHtml,
      encoding)` of a sender with the given test mode and marker;
      `acceptsAddress` stands for the address parsing of
      `MailAddressCollection.Add`. */
  function Compose(
    recipients: seq<Recipient>, subject: string, content: string,
    sections: Option<seq<Section>>, attachments: Option<seq<Attachment>>,
    isHtml: bool, encoding: Option<Encoding>,
    testMode: bool, marker: string, acceptsAddress: string -> bool): (m: Result<MailMessage, ComposeError>)
    ensures m.Success? <==> !HasLineBreak(subject) && FirstRefused(recipients, acceptsAddress) == |recipients|
    ensures HasLineBreak(subject) ==> m == Failure(SubjectHasLineBreak)
    ensures !HasLineBreak(subject) && m.Failure? ==>
      m.error == RouteError(recipients[FirstRefused(recipients, acceptsAddress)])
    ensures m.Success? ==>
      && m.value.body == Body(testMode, marker, content, sections, isHtml)
      && m.value.bodyEncoding == m.value.subjectEncoding
      && (encoding.Some? ==> m.value.bodyEncoding == encoding.value)
      && (encoding.None? ==> m.value.bodyEncoding == Utf8)
      && m.value.isBodyHtml == isHtml
      && m.value.subject == subject
      && m.value.envelope.to == AddressesWith(recipients, To)
      && m.value.envelope.cc == AddressesWith(recipients, Cc)
      && m.value.envelope.bcc == AddressesWith(recipients, Bcc)
      && m.value.envelope.replyTo == AddressesWith(recipients, ReplyTo)
      && (attachments.Some? ==> m.value.attachments == attachments.value)
      && (attachments.None? ==> m.value.attachments == [])
  {
    if HasLineBreak(subject) then Failure(SubjectHasLineBreak)
    else
      match Route(recipients, acceptsAddress)
      case Failure(e) => Failure(e)
      case Success(env) =>
        var enc := encoding.OrElse(Utf8);
        Success(MailMessage(Body(testMode, marker, content, sections, isHtml), enc, isHtml, subject, enc, env, attachments.OrElse([])))
  }
}
