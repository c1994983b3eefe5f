/** The bulk-send route (`POST /api/send-email`): de-duplicate the posted
    contacts, send one message per contact, record a result per attempt
    and report the totals. The mail transport is an oracle giving the
    outcome of the k-th send; what the route does to the outside world
    (sends and pauses) is returned as a list of effects. */
module SendEmailRoute {
  import opened Wrappers
  import opened StoredRecords
  import opened EmailListSanitizer
  import opened Seqs

  /** `status` of an `EmailResult`: "success" or "failed". */
  datatype Status = Succeeded | Failed

  /** What a failed attempt records as `error`: the transport's error, or
      the `TypeError` thrown while building the message of a contact that
      has no `author` (its subject reads `contact.author.name`). */
  datatype SendError = TransportError(message: string) | NoAuthor

  /** `EmailResult`; `error` is present on failure. */
  datatype EmailResult = EmailResult(email: Option<string>, status: Status, error: Option<SendError>)

  /** `EmailResponse`. */
  datatype EmailResponse = EmailResponse(success: bool, results: seq<EmailResult>, totalSent: nat, totalFailed: nat)

  /** The JSON the route answers with: the report, or `{ success: false }`
      with status 500. */
  datatype RouteResponse = Report(body: EmailResponse) | ServerError

  /** What `transporter.sendMail` does with the message for the k-th
      contact (not consulted when that contact has no author, since the
      message is never built). */
  datatype SendOutcome = Delivered | Rejected(error: string)

  /** The parts of a message the route chooses (the HTML body and the PDF
      bytes are fixed by the template and the file). */
  datatype Message = Message(to: Option<string>, subject: string, attachmentName: string)

  /** What the route does to the outside world, in order. */
  datatype Effect = Send(message: Message) | Pause(millis: nat)

  const SubjectPrefix := "Full Stack MERN Engineer | REF "
  const AttachmentName := "Arnab_Full_Stack_Resume.pdf"
  const PauseMillis: nat := 1000

  /** Whether the posted contact carries an `author` object. */
  predicate HasAuthor(contact: StoredPost) {
    contact.author.Some?
  }

  /** The message built for a contact with an author. */
  function MessageFor(contact: StoredPost): Message
    requires HasAuthor(contact)
  {
    Message(contact.email, SubjectPrefix + contact.author.value.name, AttachmentName)
  }

  /** The result pushed for a contact, given the outcome of its send. */
  function ResultFor(contact: StoredPost, outcome: SendOutcome): EmailResult {
    if contact.author.None? then EmailResult(contact.email, Failed, Some(NoAuthor))
    else
      match outcome
      case Delivered => EmailResult(contact.email, Succeeded, None)
      case Rejected(e) => EmailResult(contact.email, Failed, Some(TransportError(e)))
  }

  /** The `results` array after the loop. */
  function SendResults(contacts: seq<StoredPost>, transport: nat -> SendOutcome): (r: seq<EmailResult>)
    ensures |r| == |contacts|
  {
    seq(|contacts|, k requires 0 <= k < |contacts| => ResultFor(contacts[k], transport(k)))
  }

  /** The sends and pauses of the loop: every contact with an author is
      sent to, and a pause follows each delivered message only. */
  function SendEffects(contacts: seq<StoredPost>, transport: nat -> SendOutcome): (r: seq<Effect>)
    ensures |r| <= 2 * |contacts|
    decreases |contacts|
  {
    if contacts == [] then []
    else
      var n := |contacts| - 1;
      SendEffects(contacts[..n], transport) + EffectsOf(contacts[n], transport(n))
  }

  /** `results.filter((r) => r.status === s).length`. */
  function CountStatus(results: seq<EmailResult>, s: Status): (r: nat)
    ensures r <= |results|
    decreases |results|
  {
    if results == [] then 0
    else
      var n := |results| - 1;
      CountStatus(results[..n], s) + (if results[n].status == s then 1 else 0)
  }

  /** The report of a run over `contacts`. */
  function ReportFor(contacts: seq<StoredPost>, transport: nat -> SendOutcome): EmailResponse {
    var results := SendResults(contacts, transport);
    EmailResponse(true, results, CountStatus(results, Succeeded), CountStatus(results, Failed))
  }

  /** `POST(req)`. `posts` is the `posts` field of the request body, None
      when the body does not parse or holds no array; `attachmentReadable`
      is false when the PDF cannot be read. Both happen before the loop,
      so either failure sends nothing and answers 500. */
  method Post(posts: Option<seq<StoredPost>>, attachmentReadable: bool, transport: nat -> SendOutcome)
    returns (response: RouteResponse, effects: seq<Effect>)
    ensures posts.None? || !attachmentReadable ==> response == ServerError && effects == []
    ensures posts.Some? && attachmentReadable ==>
              var contacts := FirstPerEmail(posts.value);
              response == Report(ReportFor(contacts, transport)) && effects == SendEffects(contacts, transport)
  {
    if posts.None? || !attachmentReadable {
      return ServerError, [];
    }
    var uniqueContacts := SanitizeEmailList(posts.value);
    var results: seq<EmailResult> := [];
    effects := [];
    for i := 0 to |uniqueContacts|
      invariant results == SendResults(uniqueContacts[..i], transport)
      invariant effects == SendEffects(uniqueContacts[..i], transport)
    {
      var contact := uniqueContacts[i];
      SendStep(uniqueContacts, transport, i);
      if contact.author.None? {
        results := results + [EmailResult(contact.email, Failed, Some(NoAuthor))];
        assert EffectsOf(contact, transport(i)) == [];
      } else {
        var send := Send(MessageFor(contact));
        match transport(i) {
          case Delivered =>
            results := results + [EmailResult(contact.email, Succeeded, None)];
            assert EffectsOf(contact, transport(i)) == [send, Pause(PauseMillis)];
            effects := effects + [send, Pause(PauseMillis)];
          case Rejected(e) =>
            results := results + [EmailResult(contact.email, Failed, Some(TransportError(e)))];
            assert EffectsOf(contact, transport(i)) == [send];
            effects := effects + [send];
        }
      }
    }
    assert uniqueContacts[..|uniqueContacts|] == uniqueContacts;
    response := Report(EmailResponse(true, results, CountStatus(results, Succeeded), CountStatus(results, Failed)));
  }

  // ---------------------------------------------------------------------
  // Properties
  // ---------------------------------------------------------------------

  /** One more contact: one more result, and its send (and pause) after
      the earlier effects. */
  lemma SendStep(contacts: seq<StoredPost>, transport: nat -> SendOutcome, i: nat)
    requires i < |contacts|
    ensures SendResults(contacts[..i + 1], transport) == SendResults(contacts[..i], transport) + [ResultFor(contacts[i], transport(i))]
    ensures SendEffects(contacts[..i + 1], transport) == SendEffects(contacts[..i], transport) + EffectsOf(contacts[i], transport(i))
  {
    var front := contacts[..i];
    assert contacts[..i + 1][..i] == front;
    var rs := SendResults(contacts[..i + 1], transport);
    assert rs[..i] == SendResults(front, transport);
  }

  /** The effects of one contact's iteration: nothing when building the
      message throws, else its send and, once delivered, a pause. */
  function EffectsOf(contact: StoredPost, outcome: SendOutcome): (r: seq<Effect>)
    ensures |r| <= 2
    ensures Sends(r) == if HasAuthor(contact) then [MessageFor(contact)] else []
    ensures Pauses(r) == if HasAuthor(contact) && outcome.Delivered? then 1 else 0
  {
    if contact.author.None? then []
    else
      var r := [Send(MessageFor(contact))] + (if outcome.Delivered? then [Pause(PauseMillis)] else []);
      assert r[..1] == [Send(MessageFor(contact))];
      assert [Send(MessageFor(contact))][..0] == [];
      r
  }

  /** One result per contact, in contact order, carrying the contact's
      address; its status is "success" exactly when the contact has an
      author and its send was delivered. A failure records why: the
      missing author, or the transport's error. */
  lemma SendResultsEntries(contacts: seq<StoredPost>, transport: nat -> SendOutcome)
    ensures var r := SendResults(contacts, transport);
            forall k :: 0 <= k < |r| ==>
              && r[k].email == contacts[k].email
              && (r[k].status == Succeeded <==> HasAuthor(contacts[k]) && transport(k) == Delivered)
              && (r[k].status == Succeeded ==> r[k].error == None)
              && (!HasAuthor(contacts[k]) ==> r[k].error == Some(NoAuthor))
              && (HasAuthor(contacts[k]) && transport(k).Rejected? ==>
                    r[k].error == Some(TransportError(transport(k).error)))
  {
    var r := SendResults(contacts, transport);
    forall k | 0 <= k < |r| ensures r[k] == ResultFor(contacts[k], transport(k)) {
    }
  }

  /** `totalSent + totalFailed == results.length`. */
  lemma {:induction false} TotalsAddUp(results: seq<EmailResult>)
    ensures CountStatus(results, Succeeded) + CountStatus(results, Failed) == |results|
    decreases |results|
  {
    if results != [] {
      TotalsAddUp(results[..|results| - 1]);
    }
  }

  /** The number of contacts with an author whose send was delivered. */
  function Deliveries(contacts: seq<StoredPost>, transport: nat -> SendOutcome): (r: nat)
    ensures r <= |contacts|
    decreases |contacts|
  {
    if contacts == [] then 0
    else
      var n := |contacts| - 1;
      Deliveries(contacts[..n], transport) + (if HasAuthor(contacts[n]) && transport(n).Delivered? then 1 else 0)
  }

  /** The number of pauses among the effects. */
  function Pauses(effects: seq<Effect>): (r: nat)
    ensures r <= |effects|
    decreases |effects|
  {
    if effects == [] then 0
    else
      var n := |effects| - 1;
      Pauses(effects[..n]) + (if effects[n].Pause? then 1 else 0)
  }

  /** The messages sent, in order. */
  function Sends(effects: seq<Effect>): (r: seq<Message>)
    ensures |r| <= |effects|
    decreases |effects|
  {
    if effects == [] then []
    else
      var n := |effects| - 1;
      Sends(effects[..n]) + (if effects[n].Send? then [effects[n].message] else [])
  }

  lemma {:induction false} PausesConcat(a: seq<Effect>, b: seq<Effect>)
    ensures Pauses(a + b) == Pauses(a) + Pauses(b)
    ensures Sends(a + b) == Sends(a) + Sends(b)
    decreases |b|
  {
    if b != [] {
      var n := |b| - 1;
      PausesConcat(a, b[..n]);
      assert (a + b)[..|a + b| - 1] == a + b[..n];
    } else {
      assert a + b == a;
    }
  }

  /** `totalSent` is the number of delivered sends, and the route paused
      exactly that many times: a rejected send is not followed by a pause. */
  lemma {:induction false} SentCountsDeliveriesAndPauses(contacts: seq<StoredPost>, transport: nat -> SendOutcome)
    ensures CountStatus(SendResults(contacts, transport), Succeeded) == Deliveries(contacts, transport)
    ensures Pauses(SendEffects(contacts, transport)) == Deliveries(contacts, transport)
    decreases |contacts|
  {
    if contacts != [] {
      var n := |contacts| - 1;
      var front := contacts[..n];
      SentCountsDeliveriesAndPauses(front, transport);
      SendStep(contacts, transport, n);
      assert contacts[..n + 1] == contacts;
      PausesConcat(SendEffects(front, transport), EffectsOf(contacts[n], transport(n)));
    } else {
      assert SendResults(contacts, transport) == [];
    }
  }

  /** A failure does not stop the loop: every contact with an author is
      sent one message, in contact order, whatever the transport does, and
      a contact without one is sent nothing. */
  lemma {:induction false} EveryContactAttempted(contacts: seq<StoredPost>, transport: nat -> SendOutcome)
    ensures var sent := Sends(SendEffects(contacts, transport));
            var addressed := Filter(contacts, HasAuthor);
            |sent| == |addressed| && forall k :: 0 <= k < |addressed| ==> sent[k] == MessageFor(addressed[k])
    decreases |contacts|
  {
    if contacts != [] {
      var n := |contacts| - 1;
      var front := contacts[..n];
      EveryContactAttempted(front, transport);
      SendStep(contacts, transport, n);
      assert contacts[..n + 1] == contacts;
      PausesConcat(SendEffects(front, transport), EffectsOf(contacts[n], transport(n)));
      assert Filter(contacts, HasAuthor) == Filter(front, HasAuthor) + (if HasAuthor(contacts[n]) then [contacts[n]] else []);
    }
  }

  /** Once the loop starts the answer is `success: true`, even when every
      send is rejected; then nothing counts as sent and nothing pauses. */
  lemma {:induction false} AllRejectedStillSuccess(contacts: seq<StoredPost>, transport: nat -> SendOutcome)
    requires forall k: nat :: transport(k).Rejected?
    ensures var report := ReportFor(contacts, transport);
            report.success && report.totalSent == 0 && report.totalFailed == |contacts|
    ensures Pauses(SendEffects(contacts, transport)) == 0
  {
    var results := SendResults(contacts, transport);
    SentCountsDeliveriesAndPauses(contacts, transport);
    TotalsAddUp(results);
    NoDeliveries(contacts, transport);
  }

  lemma {:induction false} NoDeliveries(contacts: seq<StoredPost>, transport: nat -> SendOutcome)
    requires forall k: nat :: transport(k).Rejected?
    ensures Deliveries(contacts, transport) == 0
    decreases |contacts|
  {
    if contacts != [] {
      NoDeliveries(contacts[..|contacts| - 1], transport);
    }
  }

  /** Two posted contacts with the same address get at most one message:
      the first one's, when it has an author. */
  lemma SameAddressSentOnce(p: StoredPost, q: StoredPost, transport: nat -> SendOutcome)
    requires HasEmail(p) && q.email == p.email
    ensures Sends(SendEffects(FirstPerEmail([p, q]), transport)) == if HasAuthor(p) then [MessageFor(p)] else []
  {
    SecondPostWithSameEmailDropped(p, q);
    SendStep([p], transport, 0);
    assert [p][..1] == [p];
    assert [p][..0] == [];
  }

  /** A stored e-mail record posted back as a contact has no author: it
      is reported failed with the `TypeError`, and nothing is sent. */
  lemma ContactWithoutAuthorFails(contact: StoredPost, transport: nat -> SendOutcome)
    requires !HasAuthor(contact)
    ensures SendResults([contact], transport) == [EmailResult(contact.email, Failed, Some(NoAuthor))]
    ensures SendEffects([contact], transport) == []
  {
    assert [contact][..0] == [];
  }
}
