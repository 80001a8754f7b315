/**
 * `SendEmailGMail` in internal/providers/google.go: set up the Gmail
 * service, compose the message -- multipart when there are attachments,
 * plain otherwise -- and hand it to the API once.
 *
 * What lies outside the program is a `World`: the file system, the
 * quoted-printable encoder, and what the outside answers on the n-th call
 * (the writer's random boundary, the order in which the attachment
 * goroutines finish, whether the service could be set up, whether the API
 * accepted the message).
 */
module Providers {
  import opened Bytes
  import opened Wrappers
  import opened Os
  import opened Base64
  import opened Mime

  /** Why a send did not go through; the causes are the library's error text. */
  datatype SendError =
    | ServiceUnavailable(cause: seq<byte>)  // `GetGoogleService` failed
    | Rejected(cause: seq<byte>)            // `send`: the API call returned an error

  /**
   * What one call of `SendEmailGMail` comes to: sent, an error returned to
   * the caller, or a panic while composing (an attachment that cannot be
   * read), which ends the whole process.
   */
  datatype Outcome = Sent | Failed(error: SendError) | Panicked(path: Path)

  /**
   * Everything the core does not compute itself. `boundary(c)` and
   * `order(c, n)` belong to the c-th call of `SendEmailGMail`, the latter
   * being the order in which its n attachment goroutines deliver;
   * `serviceError(c)` is the failure of its service set-up, if any, and
   * `sendError(m)` the failure of the m-th message handed to the API.
   */
  datatype World = World(
    fs: FileSystem,
    qp: seq<byte> -> seq<byte>,
    boundary: nat -> seq<byte>,
    order: (nat, nat) -> seq<nat>,
    serviceError: nat -> Option<seq<byte>>,
    sendError: nat -> Option<seq<byte>>)

  /** Every call's delivery order lists each attachment exactly once. */
  ghost predicate Fair(w: World)
  {
    forall c: nat, n: nat :: IsDrainOrder(w.order(c, n), n)
  }

  /** The state of the account the program talks to: services set up so far, messages handed to the API. */
  datatype Remote = Remote(connects: nat, sent: seq<Message>)

  /** The message `SendEmailGMail` composes: multipart when there are attachments, plain otherwise. */
  function Compose(to: seq<byte>, subject: seq<byte>, body: seq<byte>, attachments: seq<Path>,
                   fs: FileSystem, boundary: seq<byte>, qp: seq<byte> -> seq<byte>, order: seq<nat>)
    : Result<Message, Path>
    requires IsDrainOrder(order, |attachments|)
  {
    if |attachments| > 0 then MultipartMessage(to, subject, body, attachments, fs, boundary, qp, order)
    else Ok(BuildMessage(to, subject, body))
  }

  /** One call of `SendEmailGMail` from the account state `r`: its outcome and the state after it. */
  function SendOnce(w: World, r: Remote, to: seq<byte>, subject: seq<byte>, body: seq<byte>, attachments: seq<Path>)
    : (Outcome, Remote)
    requires Fair(w)
  {
    var c := r.connects;
    match w.serviceError(c)
    case Some(e) => (Failed(ServiceUnavailable(e)), Remote(c + 1, r.sent))
    case None =>
      match Compose(to, subject, body, attachments, w.fs, w.boundary(c), w.qp, w.order(c, |attachments|))
      case Err(p) => (Panicked(p), Remote(c + 1, r.sent))
      case Ok(m) =>
        var outcome := match w.sendError(|r.sent|) case Some(e) => Failed(Rejected(e)) case None => Sent;
        (outcome, Remote(c + 1, r.sent + [m]))
  }

  /**
   * A plain message is always composed; with attachments the message fails
   * exactly when one of them cannot be read. When `to`, `subject` and the
   * boundary hold no line break, the fourth header line of the composed
   * message is the Content-Type: text/plain without attachments,
   * multipart/mixed naming the boundary with them. So the multipart
   * builder is used exactly when there are attachments.
   */
  lemma ComposeChoosesBuilder(to: seq<byte>, subject: seq<byte>, body: seq<byte>, attachments: seq<Path>,
                              fs: FileSystem, boundary: seq<byte>, qp: seq<byte> -> seq<byte>, order: seq<nat>)
    requires IsDrainOrder(order, |attachments|)
    ensures Compose(to, subject, body, attachments, fs, boundary, qp, order).Err?
        <==> exists i | 0 <= i < |attachments| :: ReadFile(fs, attachments[i]).Err?
    ensures NoLineBreak(to) && NoLineBreak(subject) && NoLineBreak(boundary)
            && Compose(to, subject, body, attachments, fs, boundary, qp, order).Ok? ==>
      && Decode(UrlSafe, Compose(to, subject, body, attachments, fs, boundary, qp, order).value.raw).Some?
      && ContentTypeOf(Decode(UrlSafe, Compose(to, subject, body, attachments, fs, boundary, qp, order).value.raw).value)
         == Some(if |attachments| == 0 then PlainContentTypeLine else MultipartContentTypeLabel + boundary)
  {
    var m := Compose(to, subject, body, attachments, fs, boundary, qp, order);
    var flat := NoLineBreak(to) && NoLineBreak(subject) && NoLineBreak(boundary);
    if |attachments| == 0 {
      if flat {
        PlainRoundTrip(to, subject, body);
      }
    } else {
      MultipartFailure(to, subject, body, attachments, fs, boundary, qp, order);
      if m.Ok? && flat {
        MultipartContents(to, subject, body, attachments, fs, boundary, qp, order);
        var parts := Drain(AttachmentResults(fs, attachments), order).value;
        MultipartDocument(to, subject, boundary, [Part(TextPartFields, qp(body))] + parts);
      }
    }
  }

  /** The fourth header line of a composed message, where both builders put the Content-Type. */
  function ContentTypeOf(document: seq<byte>): (r: Option<seq<byte>>)
    ensures r.Some? ==> SplitHeader(document).Some? && |SplitHeader(document).value.0| >= 4
  {
    match SplitHeader(document)
    case None => None
    case Some((lines, _)) => if |lines| >= 4 then Some(lines[3]) else None
  }

  /**
   * One call sets up the service exactly once and hands at most one
   * message to the API: none when the service cannot be set up or a
   * read fails, otherwise exactly the composed message. A send error is
   * returned as the API gave it.
   */
  lemma SendOnceAttempts(w: World, r: Remote, to: seq<byte>, subject: seq<byte>, body: seq<byte>, attachments: seq<Path>)
    requires Fair(w)
    ensures var (outcome, r') := SendOnce(w, r, to, subject, body, attachments);
            var m := Compose(to, subject, body, attachments, w.fs, w.boundary(r.connects), w.qp, w.order(r.connects, |attachments|));
            && r'.connects == r.connects + 1
            && (if w.serviceError(r.connects).None? && m.Ok? then r'.sent == r.sent + [m.value] else r'.sent == r.sent)
            && (outcome == Sent <==> w.serviceError(r.connects).None? && m.Ok? && w.sendError(|r.sent|).None?)
            && (outcome.Failed? && outcome.error.Rejected? ==> Some(outcome.error.cause) == w.sendError(|r.sent|))
            && (outcome.Panicked? <==> w.serviceError(r.connects).None? && m.Err?)
  {
  }

  /**
   * The Gmail side as the program sees it: each `GetGoogleService` sets up
   * a service, each `send` hands over a message. What the outside answers
   * is taken from the world.
   */
  class Gmail {
    const world: World
    var connects: nat
    var sent: seq<Message>

    constructor (world: World, r: Remote)
      ensures this.world == world && connects == r.connects && sent == r.sent
    {
      this.world := world;
      connects := r.connects;
      sent := r.sent;
    }

    function State(): Remote
      reads this
    {
      Remote(connects, sent)
    }

    /** `GetGoogleService`: the set-up error of this call, if any. */
    method GetGoogleService() returns (err: Option<seq<byte>>)
      modifies this
      ensures err == world.serviceError(old(connects))
      ensures connects == old(connects) + 1 && sent == old(sent)
    {
      err := world.serviceError(connects);
      connects := connects + 1;
    }

    /** `send`: the message is handed to the API, which may refuse it. */
    method Send(m: Message) returns (err: Option<SendError>)
      modifies this
      ensures err == match world.sendError(|old(sent)|) case Some(e) => Some(Rejected(e)) case None => None
      ensures sent == old(sent) + [m] && connects == old(connects)
    {
      err := match world.sendError(|sent|) case Some(e) => Some(Rejected(e)) case None => None;
      sent := sent + [m];
    }
  }

  /**
   * `SendEmailGMail`: set up the service, build the multipart message when
   * there are attachments and the plain one otherwise, send it once and
   * return the API's error unchanged.
   */
  method SendEmailGMail(gmail: Gmail, to: seq<byte>, subject: seq<byte>, body: seq<byte>, attachments: seq<Path>)
    returns (outcome: Outcome)
    requires Fair(gmail.world)
    modifies gmail
    ensures (outcome, gmail.State()) == SendOnce(gmail.world, old(gmail.State()), to, subject, body, attachments)
  {
    var w := gmail.world;
    var c := gmail.connects;
    var err := gmail.GetGoogleService();
    if err.Some? {
      return Failed(ServiceUnavailable(err.value));
    }

    var mail: Message;
    if |attachments| > 0 {
      var built := BuildMessageWithAttachments(to, subject, body, attachments, w.fs, w.boundary(c), w.qp, w.order(c, |attachments|));
      if built.Err? {
        return Panicked(built.error);
      }
      mail := built.value;
    } else {
      mail := BuildMessage(to, subject, body);
    }

    var sendErr := gmail.Send(mail);
    if sendErr.Some? {
      return Failed(sendErr.value);
    }
    return Sent;
  }
}
