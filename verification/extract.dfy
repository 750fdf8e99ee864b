/** `extract_email_details` and `handle_email_request`: from one utterance to
    the recipient, the subject and the body of an email, or to a diagnostic. */
module EmailIntent {
  import opened Wrappers
  import opened Text
  import opened Patterns
  import opened Scan

  const NoAddressMessage: string := "Could not find a valid email address in your message."
  const NoContentMessage: string := "I found an email address but couldn't understand the message content."
  const DefaultSubject: string := "Message from Voice Assistant"
  const FailurePrefix: string := "Failed to send email: "

  /** The triple the extractor returns; `None` stands for Python's `None`.
      The third component is the body or a diagnostic. */
  datatype Details = Details(recipient: Option<string>, subject: Option<string>, message: string)

  /** The loop that rebinds `message` to `message.replace(email, "")` for every
      address found, in the order found. */
  function RemoveAll(msg: string, emails: seq<string>): (r: string)
    requires forall k :: 0 <= k < |emails| ==> |emails[k]| > 0
    ensures IsSubsequence(r, msg)
    decreases |emails|
  {
    if emails == [] then
      SubsequenceRefl(msg);
      msg
    else
      var m := Sub(Literal(emails[0]), msg);
      var r := RemoveAll(m, emails[1..]);
      SubsequenceTrans(r, m, msg);
      r
  }

  /** The body left once the addresses, the whole subject match and the two
      boilerplate phrases are deleted, in that order, and the rest stripped. */
  function Body(text: string, emails: seq<string>, subject: Option<SubjectMatch>): (r: string)
    requires forall k :: 0 <= k < |emails| ==> |emails[k]| > 0
    requires subject.Some? ==> subject.value.start < subject.value.end <= |text|
    ensures IsStripped(r)
    ensures IsSubsequence(r, text)
  {
    var m1 := RemoveAll(text, emails);
    var m2 := if subject.Some? then Sub(Literal(text[subject.value.start..subject.value.end]), m1) else m1;
    SubsequenceRefl(m1);
    SubsequenceTrans(m2, m1, text);
    var m3 := Sub(SendPhrase, m2);
    SubsequenceTrans(m3, m2, text);
    var m4 := Sub(WithPhrase, m3);
    SubsequenceTrans(m4, m3, text);
    StripSubsequence(m4);
    SubsequenceTrans(Strip(m4), m4, text);
    Strip(m4)
  }

  /** `extract_email_details(text)`. */
  function ExtractEmailDetails(text: string): (d: Details)
    ensures d.recipient.None? <==> d.subject.None?
    ensures d.recipient.None? ==> d.message == NoAddressMessage
    ensures d.recipient.Some? ==> |d.recipient.value| > 0 && |d.message| > 0
    ensures d.recipient.Some? && d.message != NoContentMessage ==> IsStripped(d.message)
  {
    var emails := FindAll(Address, text);
    if emails == [] then Details(None, None, NoAddressMessage)
    else
      var sm := SearchSubject(text, 0);
      var subject := if sm.Some? then Strip(text[sm.value.group..sm.value.end]) else DefaultSubject;
      var body := Body(text, emails, sm);
      Details(Some(emails[0]), Some(subject), if body == [] then NoContentMessage else body)
  }

  // ---------------------------------------------------------------------
  // What the extractor promises

  /** The no-address triple comes back exactly when no substring of the text
      is an address. */
  lemma NoAddressCase(text: string)
    ensures ExtractEmailDetails(text) == Details(None, None, NoAddressMessage) <==> NoSpanIn(Address, text, 0, |text|)
  {
    FindAllFirst(Address, text);
  }

  /** The recipient is the leftmost address, taken as long as it goes. */
  lemma RecipientIsLeftmost(text: string)
    requires ExtractEmailDetails(text).recipient.Some?
    ensures exists a: nat, e: nat :: LeftmostLongest(Address, text, 0, a, e) && ExtractEmailDetails(text).recipient.value == text[a..e]
  {
    FindAllFirst(Address, text);
  }

  /** The subject is the stripped group of the match `re.search` reports, or
      the default when the text has no subject phrase. */
  lemma SubjectIsFirstMatch(text: string)
    requires ExtractEmailDetails(text).recipient.Some?
    ensures (forall i: nat, m: nat, g: nat :: !SubjectSplit(text, i, m, g)) ==> ExtractEmailDetails(text).subject == Some(DefaultSubject)
    ensures forall r :: FirstSubject(text, 0, r) ==> ExtractEmailDetails(text).subject == Some(Strip(text[r.group..r.end]))
  {
    SearchSubjectCorrect(text, 0);
    var sm := SearchSubject(text, 0);
    forall r | FirstSubject(text, 0, r)
      ensures ExtractEmailDetails(text).subject == Some(Strip(text[r.group..r.end]))
    {
      assert SubjectSplit(text, r.start, r.group, r.end);
      FirstSubjectUnique(text, 0, r, sm.value);
    }
    if sm.Some? {
      assert SubjectSplit(text, sm.value.start, sm.value.group, sm.value.end);
    }
  }

  /** Once an address is found the third component is the body when the body
      is not empty, and the diagnostic otherwise; the body only ever deletes
      characters of the text. */
  lemma MessageIsBody(text: string)
    requires ExtractEmailDetails(text).recipient.Some?
    ensures var emails := FindAll(Address, text);
            var b := Body(text, emails, SearchSubject(text, 0));
            IsSubsequence(b, text)
            && (b == [] ==> ExtractEmailDetails(text).message == NoContentMessage)
            && (b != [] ==> ExtractEmailDetails(text).message == b)
  {
  }

  // ---------------------------------------------------------------------
  // handle_email_request

  /** What `send_email` reports: a success flag and a text. The Gmail call
      itself is outside the model, so its outcome is a parameter. */
  datatype SendOutcome = SendOutcome(success: bool, result: string)

  /** The arguments handed to `send_email`. */
  datatype Outgoing = Outgoing(recipient: string, subject: string, message: string)

  /** The email sent (if any) and the reply shown to the user. */
  datatype Handled = Handled(sent: Option<Outgoing>, reply: string)

  /** `handle_email_request(text)`, given what `send_email` would report. */
  function HandleEmailRequest(text: string, outcome: SendOutcome): (h: Handled)
    ensures h.sent.None? <==> ExtractEmailDetails(text).recipient.None?
    ensures h.sent.None? ==> h.reply == NoAddressMessage
    ensures h.sent.Some? ==>
              h.sent.value == Outgoing(ExtractEmailDetails(text).recipient.value, ExtractEmailDetails(text).subject.value, ExtractEmailDetails(text).message)
    ensures h.sent.Some? && outcome.success ==> h.reply == outcome.result
    ensures h.sent.Some? && !outcome.success ==> h.reply == FailurePrefix + outcome.result
  {
    var d := ExtractEmailDetails(text);
    if d.recipient.None? || d.recipient.value == [] then Handled(None, d.message)
    else
      var sent := Outgoing(d.recipient.value, d.subject.value, d.message);
      Handled(Some(sent), if outcome.success then outcome.result else FailurePrefix + outcome.result)
  }

  /** The request short-circuits only without an address; with one, even the
      no-content diagnostic is sent as the body. */
  lemma DiagnosticIsSent(text: string, outcome: SendOutcome)
    requires ExtractEmailDetails(text).recipient.Some?
    requires ExtractEmailDetails(text).message == NoContentMessage
    ensures HandleEmailRequest(text, outcome).sent.Some?
    ensures HandleEmailRequest(text, outcome).sent.value.message == NoContentMessage
  {
  }
}
