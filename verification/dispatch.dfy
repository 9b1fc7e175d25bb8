/** The public `SendMailAsync` of `Sender` as one pure step: test-mode
    substitution, composition, pacing, the dry-run switch, the transport call
    and the log line. The clock and the transport are parameters. */
module Dispatch {
  import opened Wrappers
  import opened Ints
  import opened Text
  import opened Recipients
  import opened Pacing
  import opened Composer

  /** The read-only fields of a sender. `testMessage` holds the framed marker. */
  datatype Settings = Settings(
    testRecipients: seq<Recipient>,
    testMode: bool,
    dryRun: bool,
    useSSL: bool,
    mailHeader: string,
    mailFooter: string,
    testMessage: string)

  datatype Sender = Sender(settings: Settings, pacing: Pacing)

  const MarkerOpen: string := "* * * "
  const MarkerClose: string := " * * *"

  /** The constructor: stores its arguments, frames the test message and
      starts from the field initialisers of the pacing state. */
  function NewSender(
    testRecipients: seq<Recipient>, testMode: bool, dryRun: bool, useSSL: bool,
    mailHeader: string, mailFooter: string, testMessage: string): (s: Sender)
    ensures s.pacing == Initial && s.pacing.groupIndex == s.pacing.groupSize
    ensures s.settings.testRecipients == testRecipients && s.settings.testMode == testMode
    ensures s.settings.dryRun == dryRun && s.settings.useSSL == useSSL
    ensures s.settings.mailHeader == mailHeader && s.settings.mailFooter == mailFooter
    ensures var m := s.settings.testMessage;
            && |m| == |MarkerOpen| + |testMessage| + |MarkerClose|
            && m[..|MarkerOpen|] == MarkerOpen
            && m[|MarkerOpen|..|m| - |MarkerClose|] == testMessage
            && m[|m| - |MarkerClose|..] == MarkerClose
  {
    Sender(Settings(testRecipients, testMode, dryRun, useSSL, mailHeader, mailFooter, MarkerOpen + testMessage + MarkerClose), Initial)
  }

  /** The constructor's defaults: test mode on, dry run off, SSL on, no
      header or footer, test message `TEST MESSAGE`. */
  function NewDefaultSender(testRecipients: seq<Recipient>): (s: Sender)
    ensures s.settings.testMode && !s.settings.dryRun && s.settings.useSSL
    ensures s.settings.testMessage == "* * * TEST MESSAGE * * *"
  {
    DefaultMarker();
    NewSender(testRecipients, true, false, true, "", "", "TEST MESSAGE")
  }

  lemma DefaultMarker()
    ensures MarkerOpen + "TEST MESSAGE" + MarkerClose == "* * * TEST MESSAGE * * *"
  {
  }

  /** The `GroupSize` setter: only the group size changes; the group index
      is left where it is. */
  function SetGroupSize(s: Sender, n: uint32): (s': Sender)
    ensures s'.pacing.groupSize == n
    ensures s'.settings == s.settings
    ensures s'.pacing.(groupSize := s.pacing.groupSize) == s.pacing
  {
    s.(pacing := s.pacing.(groupSize := n))
  }

  /** The `GroupTimeGap` setter. */
  function SetGroupTimeGap(s: Sender, ms: uint32): (s': Sender)
    ensures s'.pacing.groupGap == ms
    ensures s'.settings == s.settings
    ensures s'.pacing.(groupGap := s.pacing.groupGap) == s.pacing
  {
    s.(pacing := s.pacing.(groupGap := ms))
  }

  /** The `IndividualTimeGap` setter. */
  function SetIndividualTimeGap(s: Sender, ms: uint32): (s': Sender)
    ensures s'.pacing.individualGap == ms
    ensures s'.settings == s.settings
    ensures s'.pacing.(individualGap := s.pacing.individualGap) == s.pacing
  {
    s.(pacing := s.pacing.(individualGap := ms))
  }

  /** A sender configured after construction with groups of `n >= 1` takes
      the group gap on sends n+1, 2n+1, ... while every call completes. */
  lemma ConfiguredSenderPacesGroups(
    fromNew: Sender, n: uint32, groupGap: uint32, individualGap: uint32,
    clocks: seq<Clock>, requests: seq<Request>, services: seq<Services>)
    requires fromNew.pacing == Initial && n >= 1
    requires |clocks| == |requests| == |services|
    requires var s := SetIndividualTimeGap(SetGroupTimeGap(SetGroupSize(fromNew, n), groupGap), individualGap);
             forall i :: 0 <= i < |clocks| ==> SendAll(s, clocks, requests, services)[i].Delivered?
    ensures var s := SetIndividualTimeGap(SetGroupTimeGap(SetGroupSize(fromNew, n), groupGap), individualGap);
            var after := After(s, SendAll(s, clocks, requests, services));
            && (IsGroupBoundary(after.pacing) <==> |clocks| >= 1 && |clocks| % n as int == 0)
            && (|clocks| >= 1 ==> 1 <= after.pacing.groupIndex <= n)
  {
    var s := SetIndividualTimeGap(SetGroupTimeGap(SetGroupSize(fromNew, n), groupGap), individualGap);
    DeliveredSeriesFollowsPacing(s, clocks, requests, services);
    GroupBoundaryEveryGroupSize(s.pacing, clocks);
  }

  /** The arguments of one `SendMailAsync` call. */
  datatype Request = Request(
    recipients: seq<Recipient>,
    subject: string,
    content: string,
    sections: Option<seq<Section>>,
    attachments: Option<seq<Attachment>>,
    isHtml: bool,
    encoding: Option<Encoding>)

  /** A call that leaves every optional argument at its default. */
  function DefaultRequest(recipients: seq<Recipient>, subject: string): Request
  {
    Request(recipients, subject, "", None, None, true, None)
  }

  /** The recipients a call actually uses: in test mode the configured test
      recipients, whatever the caller passed. */
  function Addressees(settings: Settings, given: seq<Recipient>): seq<Recipient> {
    if settings.testMode then settings.testRecipients else given
  }

  const DryRunTag: string := "[DRY RUN] "
  const SentTag: string := "Notification sent: "
  const GapClose: string := "ms time gap]"

  /** `{Type}: {Email};` for one recipient. */
  function Entry(r: Recipient): string {
    TypeName(r.role) + ": " + r.email + ";"
  }

  function Entries(rs: seq<Recipient>): (s: string)
    ensures |rs| > 0 ==> |s| > 0 && s[|s| - 1] == ';'
    ensures |rs| == 0 ==> s == ""
    decreases |rs|
  {
    if |rs| == 0 then "" else Entry(rs[0]) + Entries(rs[1..])
  }

  /** ` [{gap}ms time gap]`, present only for a positive gap. */
  function GapNote(gap: uint32): string {
    if gap > 0 then " [" + NatToString(gap as nat) + GapClose else ""
  }

  /** The log line of a completed send. */
  function LogLine(dryRun: bool, rs: seq<Recipient>, gap: uint32): (log: string)
    ensures |log| >= |SentTag|
    ensures |log| >= |DryRunTag| && log[..|DryRunTag|] == DryRunTag <==> dryRun
    ensures log[|log| - 1] == ']' <==> gap > 0
  {
    LogLineShape(dryRun, rs, gap);
    (if dryRun then DryRunTag else "") + SentTag + Entries(rs) + GapNote(gap)
  }

  lemma LogLineShape(dryRun: bool, rs: seq<Recipient>, gap: uint32)
    ensures var line := (if dryRun then DryRunTag else "") + SentTag + Entries(rs) + GapNote(gap);
            && |line| >= |SentTag|
            && (|line| >= |DryRunTag| && line[..|DryRunTag|] == DryRunTag <==> dryRun)
            && (line[|line| - 1] == ']' <==> gap > 0)
  {
    var head := if dryRun then DryRunTag else "";
    LogEnd(head, rs, gap);
    var tail := SentTag + Entries(rs) + GapNote(gap);
    StartsWith(SentTag, Entries(rs) + GapNote(gap));
    Regroup(head, SentTag, Entries(rs), GapNote(gap));
    if dryRun {
      StartsWith(DryRunTag, tail);
    } else {
      assert tail[0] != DryRunTag[0];
    }
  }

  lemma LogEnd(head: string, rs: seq<Recipient>, gap: uint32)
    ensures var line := head + SentTag + Entries(rs) + GapNote(gap);
            line[|line| - 1] == ']' <==> gap > 0
  {
    var opening := head + SentTag + Entries(rs);
    var note := GapNote(gap);
    if gap > 0 {
      var digits := NatToString(gap as nat);
      assert note == (" [" + digits) + GapClose;
      LastOfConcat(" [" + digits, GapClose);
      LastOfConcat(opening, note);
    } else {
      assert opening + note == opening;
      if |rs| > 0 {
        LastOfConcat(head + SentTag, Entries(rs));
      } else {
        assert opening == (head + "Notification sent:") + " ";
        LastOfConcat(head + "Notification sent:", " ");
      }
    }
  }

  /** After the optional dry-run tag comes `Notification sent: `, right
      after it the recipients' entries, and after those the gap note, which
      is empty for a zero gap. */
  lemma LogListsRecipients(dryRun: bool, rs: seq<Recipient>, gap: uint32)
    ensures var log := LogLine(dryRun, rs, gap);
            var h := if dryRun then |DryRunTag| else 0;
            var at := h + |SentTag|;
            && at + |Entries(rs)| <= |log|
            && log[h..at] == SentTag
            && log[at..at + |Entries(rs)|] == Entries(rs)
            && log[at + |Entries(rs)|..] == GapNote(gap)
            && (gap == 0 ==> |log| == at + |Entries(rs)|)
  {
    var head := if dryRun then DryRunTag else "";
    MiddleOfFour(head, SentTag, Entries(rs), GapNote(gap));
    EndsWith(head + SentTag + Entries(rs), GapNote(gap));
  }

  /** The entries of two runs of recipients are the entries of each, in
      order. */
  lemma {:induction false} EntriesAppend(a: seq<Recipient>, b: seq<Recipient>)
    ensures Entries(a + b) == Entries(a) + Entries(b)
    decreases |a|
  {
    if |a| == 0 {
      assert a + b == b;
    } else {
      assert (a + b)[0] == a[0];
      assert (a + b)[1..] == a[1..] + b;
      EntriesAppend(a[1..], b);
    }
  }

  /** The entry of recipient `i` sits right after the entries of the
      recipients before it. */
  lemma EntryPlacement(rs: seq<Recipient>, i: nat)
    requires i < |rs|
    ensures var e := Entries(rs);
            var at := |Entries(rs[..i])|;
            && at + |Entry(rs[i])| <= |e|
            && e[..at] == Entries(rs[..i])
            && e[at..at + |Entry(rs[i])|] == Entry(rs[i])
  {
    assert rs == rs[..i] + ([rs[i]] + rs[i + 1..]);
    EntriesAppend(rs[..i], [rs[i]] + rs[i + 1..]);
    EntriesAppend([rs[i]], rs[i + 1..]);
    assert Entries([rs[i]]) == Entry(rs[i]) + Entries([]);
    SliceOfConcat(Entries(rs[..i]), Entry(rs[i]), Entries(rs[i + 1..]));
    Regroup("", Entries(rs[..i]), Entry(rs[i]), Entries(rs[i + 1..]));
  }

  /** A positive gap closes the log with ` [`, the gap's digits and
      `ms time gap]`; the digits read back as the gap. */
  lemma {:induction false} LogRecordsGap(dryRun: bool, rs: seq<Recipient>, gap: uint32)
    requires gap > 0
    ensures var log := LogLine(dryRun, rs, gap);
            var digits := NatToString(gap as nat);
            var end := |log| - |GapClose|;
            && |log| >= |GapClose| + |digits| + 2
            && log[end..] == GapClose
            && log[end - |digits|..end] == digits
            && log[end - |digits| - 2..end - |digits|] == " ["
            && ParseNat(digits) == gap as nat
  {
    var head := if dryRun then DryRunTag else "";
    var opening := head + SentTag + Entries(rs);
    var digits := NatToString(gap as nat);
    var log := LogLine(dryRun, rs, gap);
    assert log == opening + " [" + digits + GapClose;
    MiddleOfFour(opening, " [", digits, GapClose);
    EndsWith(opening + " [" + digits, GapClose);
    ParseNatToString(gap as nat);
  }

  /** The outcome of one call, with the sender's state afterwards.
      - `Rejected`: `Compose` threw: on the subject, on an undeclared
        recipient type or on an address string it could not parse.
      - `SleepFailed`: the gap does not fit an `int`, so `Thread.Sleep` got a
        negative argument and threw (or, for -1, waits forever).
      - `Undelivered`: the transport threw.
      - `Delivered`: the call returned `log`; `transported` tells whether
        the transport was called (it is not in a dry run). */
  datatype Step =
    | Rejected(next: Sender, error: ComposeError)
    | SleepFailed(next: Sender, gap: uint32)
    | Undelivered(next: Sender, gap: uint32, message: MailMessage)
    | Delivered(next: Sender, gap: uint32, message: MailMessage, transported: bool, log: string)

  /** What a send relies on outside the sender: `acceptsAddress` is the
      address parsing of `MailAddressCollection.Add`, `deliver` the
      transport, answering whether sending the message succeeded. */
  datatype Services = Services(acceptsAddress: string -> bool, deliver: MailMessage -> bool)

  /** The public `SendMailAsync(recipients, subject, content, sections,
      attachments, isHtml, encoding)`. */
  function Send(s: Sender, clock: Clock, req: Request, services: Services): (step: Step)
    ensures step.next.settings == s.settings
    ensures var rs := Addressees(s.settings, req.recipients);
            step.Rejected? <==> HasLineBreak(req.subject) || FirstRefused(rs, services.acceptsAddress) < |rs|
    ensures var rs := Addressees(s.settings, req.recipients);
            step.Rejected? ==>
              step.error == if HasLineBreak(req.subject) then SubjectHasLineBreak
                            else RouteError(rs[FirstRefused(rs, services.acceptsAddress)])
    ensures step.Rejected? ==> step.next == s
    ensures !step.Rejected? ==> step.gap == GapOf(s.pacing, clock.elapsedMs)
    ensures step.SleepFailed? <==> !step.Rejected? && step.gap >= 0x8000_0000
    ensures step.SleepFailed? ==> step.next.pacing == BeginSend(s.pacing, clock.elapsedMs).pacing
    ensures step.Undelivered? ==>
      && !s.settings.dryRun
      && !services.deliver(step.message)
      && step.next.pacing == BeginSend(s.pacing, clock.elapsedMs).pacing.(lastSent := clock.now)
    ensures step.Delivered? ==>
      && step.next.pacing == PacingStep(s.pacing, clock)
      && step.transported == !s.settings.dryRun
      && (step.transported ==> services.deliver(step.message))
      && step.log == LogLine(s.settings.dryRun, Addressees(s.settings, req.recipients), step.gap)
    ensures step.Undelivered? || step.Delivered? ==>
      var composed := Compose(Addressees(s.settings, req.recipients), req.subject, req.content, req.sections,
                              req.attachments, req.isHtml, req.encoding, s.settings.testMode, s.settings.testMessage,
                              services.acceptsAddress);
      composed.Success? && step.message == composed.value
  {
    var settings := s.settings;
    var rs := Addressees(settings, req.recipients);
    match Compose(rs, req.subject, req.content, req.sections, req.attachments, req.isHtml, req.encoding,
                  settings.testMode, settings.testMessage, services.acceptsAddress)
    case Failure(e) => Rejected(s, e)
    case Success(message) =>
      var slot := BeginSend(s.pacing, clock.elapsedMs);
      if ToInt32(slot.gap) < 0 then SleepFailed(s.(pacing := slot.pacing), slot.gap)
      else
        var stamped := slot.pacing.(lastSent := clock.now);
        var counted := s.(pacing := stamped.(groupIndex := Inc(stamped.groupIndex)));
        if settings.dryRun then Delivered(counted, slot.gap, message, false, LogLine(true, rs, slot.gap))
        else if services.deliver(message) then Delivered(counted, slot.gap, message, true, LogLine(false, rs, slot.gap))
        else Undelivered(s.(pacing := stamped), slot.gap, message)
  }

  /** In test mode the caller's recipients play no part: the message, the
      log, the gap and the next state are the same whoever was passed. */
  lemma TestModeIgnoresCallerRecipients(s: Sender, clock: Clock, req: Request, others: seq<Recipient>, services: Services)
    requires s.settings.testMode
    ensures Send(s, clock, req, services) == Send(s, clock, req.(recipients := others), services)
  {
  }

  /** Outside test mode a call with every optional argument left at its
      default composes an empty HTML body in UTF-8 with no attachments. */
  lemma DefaultCallComposes(s: Sender, clock: Clock, recipients: seq<Recipient>, subject: string, services: Services)
    requires !s.settings.testMode
    ensures var step := Send(s, clock, DefaultRequest(recipients, subject), services);
            step.Undelivered? || step.Delivered? ==>
              && step.message.body == ""
              && step.message.isBodyHtml
              && step.message.bodyEncoding == Utf8 && step.message.subjectEncoding == Utf8
              && step.message.attachments == []
              && step.message.subject == subject
  {
    BodyNullSectionsAsEmpty(false, s.settings.testMessage, "", true);
  }

  /** In test mode a sent message goes to the test recipients only, its body
      opens with the banner around the framed test message, and the log names
      the test recipients. */
  lemma TestModeMessage(s: Sender, clock: Clock, req: Request, services: Services)
    requires s.settings.testMode
    requires Send(s, clock, req, services).Delivered?
    ensures var step := Send(s, clock, req, services);
            var banner := TestBanner(s.settings.testMessage, req.isHtml);
            var t := s.settings.testRecipients;
            && step.message.envelope
               == Envelope(AddressesWith(t, To), AddressesWith(t, Cc), AddressesWith(t, Bcc), AddressesWith(t, ReplyTo))
            && |step.message.body| >= |banner|
            && step.message.body[..|banner|] == banner
            && step.log == LogLine(s.settings.dryRun, s.settings.testRecipients, step.gap)
  {
    var step := Send(s, clock, req, services);
    var rs := Addressees(s.settings, req.recipients);
    assert rs == s.settings.testRecipients;
    var composed := Compose(rs, req.subject, req.content, req.sections, req.attachments, req.isHtml, req.encoding,
                            true, s.settings.testMessage, services.acceptsAddress);
    assert step.message == composed.value;
    BodyStart(true, s.settings.testMessage, req.content, req.sections, req.isHtml);
  }

  /** The header and footer given to the constructor never reach the message
      or the log: changing them changes nothing else about a send. */
  lemma HeaderAndFooterUnused(s: Sender, clock: Clock, req: Request, services: Services, header: string, footer: string)
    ensures var s' := s.(settings := s.settings.(mailHeader := header, mailFooter := footer));
            var step := Send(s, clock, req, services);
            Send(s', clock, req, services) == step.(next := step.next.(settings := s'.settings))
  {
  }

  /** A dry run never calls the transport: every send that gets past the
      composer and the sleep completes, and its log is tagged. */
  lemma DryRunNeverTransports(s: Sender, clock: Clock, req: Request, services: Services)
    requires s.settings.dryRun
    ensures var step := Send(s, clock, req, services);
            && !step.Undelivered?
            && (step.Delivered? ==> !step.transported && step.log[..|DryRunTag|] == DryRunTag)
  {
  }

  /** A send that fails in the transport leaves the group index where the
      group branch put it, while `lastSent` has already moved on. */
  lemma TransportFailureDoesNotCount(s: Sender, clock: Clock, req: Request, services: Services)
    requires Send(s, clock, req, services).Undelivered?
    ensures var next := Send(s, clock, req, services).next.pacing;
            && next.groupIndex == (if IsGroupBoundary(s.pacing) then 0 else s.pacing.groupIndex)
            && next.lastSent == clock.now
  {
  }

  /** The sender after a series of steps. */
  function After(s: Sender, steps: seq<Step>): Sender {
    if |steps| == 0 then s else steps[|steps| - 1].next
  }

  /** Successive calls on one sender, call `i` made with `clocks[i]`,
      `requests[i]` and `services[i]`: each call meets the transport and the
      address parser as they are at that moment, so a retry may succeed
      where an earlier call failed, and the other way round. A caller that
      catches an exception simply goes on. A `SleepFailed` step whose gap
      casts to -1 is `Thread.Sleep(-1)`, which never returns: in the source
      no call follows it, so only the prefix up to such a step describes a
      real run. */
  function SendAll(s: Sender, clocks: seq<Clock>, requests: seq<Request>, services: seq<Services>): (steps: seq<Step>)
    requires |clocks| == |requests| == |services|
    ensures |steps| == |clocks|
    ensures forall i :: 0 <= i < |steps| ==> steps[i].next.settings == s.settings
    decreases |clocks|
  {
    if |clocks| == 0 then []
    else
      var n := |clocks| - 1;
      var before := SendAll(s, clocks[..n], requests[..n], services[..n]);
      before + [Send(After(s, before), clocks[n], requests[n], services[n])]
  }

  /** Call `i` of a series is one `Send` from the sender left by the calls
      before it, with its own clock reading, request and services. */
  lemma {:induction false} SendAllCall(s: Sender, clocks: seq<Clock>, requests: seq<Request>, services: seq<Services>, i: nat)
    requires |clocks| == |requests| == |services| && i < |clocks|
    ensures var steps := SendAll(s, clocks, requests, services);
            steps[i] == Send(After(s, steps[..i]), clocks[i], requests[i], services[i])
    decreases |clocks|
  {
    var n := |clocks| - 1;
    var steps := SendAll(s, clocks, requests, services);
    var before := SendAll(s, clocks[..n], requests[..n], services[..n]);
    assert steps == before + [Send(After(s, before), clocks[n], requests[n], services[n])];
    if i == n {
      assert steps[..i] == before;
    } else {
      SendAllCall(s, clocks[..n], requests[..n], services[..n], i);
      assert steps[i] == before[i];
      assert steps[..i] == before[..i];
    }
  }

  /** When every call of a series completes, the sender's pacing state is the
      one the pacing state machine reaches on the same clock readings, and
      each call waited the gap that state machine chose for it. */
  lemma {:induction false} DeliveredSeriesFollowsPacing(s: Sender, clocks: seq<Clock>, requests: seq<Request>, services: seq<Services>)
    requires |clocks| == |requests| == |services|
    requires forall i :: 0 <= i < |clocks| ==> SendAll(s, clocks, requests, services)[i].Delivered?
    ensures After(s, SendAll(s, clocks, requests, services)).pacing == Run(s.pacing, clocks)
    ensures forall i :: 0 <= i < |clocks| ==> SendAll(s, clocks, requests, services)[i].gap == Gaps(s.pacing, clocks)[i]
    decreases |clocks|
  {
    if |clocks| > 0 {
      var n := |clocks| - 1;
      var steps := SendAll(s, clocks, requests, services);
      var before := SendAll(s, clocks[..n], requests[..n], services[..n]);
      assert steps == before + [Send(After(s, before), clocks[n], requests[n], services[n])];
      forall i | 0 <= i < n
        ensures before[i].Delivered?
      {
        assert before[i] == steps[i];
      }
      DeliveredSeriesFollowsPacing(s, clocks[..n], requests[..n], services[..n]);
      assert Gaps(s.pacing, clocks) == Gaps(s.pacing, clocks[..n]) + [GapOf(Run(s.pacing, clocks[..n]), clocks[n].elapsedMs)];
      forall i | 0 <= i < |clocks|
        ensures steps[i].gap == Gaps(s.pacing, clocks)[i]
      {
        if i < n {
          assert steps[i] == before[i];
        }
      }
    }
  }
}
