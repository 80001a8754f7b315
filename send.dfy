/**
 * The `send` command's `Run` in cmd/send.go, from the point where the
 * attachments are known: missing attachments are pruned, the body may
 * be replaced by the contents of the file it names, and `to` is either
 * one address or a file with one address per line, each of which is
 * sent the same message.
 *
 * The command's flags are the fields of a `SendCommand`, which `Run`
 * updates as the Go code updates its package variables. The recipients
 * are sent to one after the other (see README for the goroutines).
 */
module Send {
  import opened Bytes
  import opened Wrappers
  import opened Os
  import opened Mime
  import opened Providers
  import opened Text

  // ------------------------------------------------------------ attachment pruning

  /** The index of the first path that does not exist, if any. */
  function FirstMissing(fs: FileSystem, paths: seq<Path>): (r: Option<nat>)
    ensures r.Some? ==> r.value < |paths| && !FileExists(fs, paths[r.value])
    ensures r.Some? ==> forall j | 0 <= j < r.value :: FileExists(fs, paths[j])
    ensures r.None? <==> forall j | 0 <= j < |paths| :: FileExists(fs, paths[j])
  {
    if paths == [] then None
    else if !FileExists(fs, paths[0]) then Some(0)
    else match FirstMissing(fs, paths[1..])
      case None => None
      case Some(i) => Some(i + 1)
  }

  /**
   * What the pruning loop leaves of the attachment list: the first path
   * that does not exist is removed and the loop stops there.
   */
  function Pruned(fs: FileSystem, paths: seq<Path>): seq<Path>
  {
    match FirstMissing(fs, paths)
    case None => paths
    case Some(i) => paths[..i] + paths[i + 1..]
  }

  /**
   * The list is left alone exactly when every path exists; otherwise it
   * loses one element, the first missing path, and keeps the others in
   * their order.
   */
  lemma PrunedShape(fs: FileSystem, paths: seq<Path>)
    ensures Pruned(fs, paths) == paths <==> forall j | 0 <= j < |paths| :: FileExists(fs, paths[j])
    ensures FirstMissing(fs, paths).Some? ==>
      var i := FirstMissing(fs, paths).value;
      && |Pruned(fs, paths)| == |paths| - 1
      && (forall j | 0 <= j < i :: Pruned(fs, paths)[j] == paths[j] && FileExists(fs, paths[j]))
      && (forall j | i < j < |paths| :: Pruned(fs, paths)[j - 1] == paths[j])
  {
    if FirstMissing(fs, paths).Some? {
      assert |Pruned(fs, paths)| != |paths|;
    }
  }

  /**
   * Only one missing path is removed: a later path that does not exist
   * either is still in the pruned list.
   */
  lemma PrunedKeepsLaterMissing(fs: FileSystem, paths: seq<Path>, j: nat)
    requires FirstMissing(fs, paths).Some? && FirstMissing(fs, paths).value < j < |paths|
    requires !FileExists(fs, paths[j])
    ensures paths[j] in Pruned(fs, paths)
    ensures exists k | 0 <= k < |Pruned(fs, paths)| :: !FileExists(fs, Pruned(fs, paths)[k])
  {
    PrunedShape(fs, paths);
    assert Pruned(fs, paths)[j - 1] == paths[j];
  }

  /**
   * Two attachments that both do not exist: the pruned list still names
   * the second, so the message cannot be composed and the send panics on
   * reading it whenever the service can be set up.
   */
  lemma SecondMissingAttachmentPanics(w: World, r: Remote, to: seq<byte>, subject: seq<byte>, body: seq<byte>, a: Path, b: Path)
    requires Fair(w)
    requires !FileExists(w.fs, a) && !FileExists(w.fs, b)
    requires w.serviceError(r.connects).None?
    ensures Pruned(w.fs, [a, b]) == [b]
    ensures SendOnce(w, r, to, subject, body, Pruned(w.fs, [a, b])).0 == Panicked(b)
  {
    assert FirstMissing(w.fs, [a, b]) == Some(0);
    assert [a, b][1..] == [b];
    var order := w.order(r.connects, 1);
    var results := AttachmentResults(w.fs, [b]);
    MultipartFailure(to, subject, body, [b], w.fs, w.boundary(r.connects), w.qp, order);
    AttachmentResultsShape(w.fs, [b]);
    DrainFailure(results, order);
  }

  /**
   * What the comment over the loop asks for, "remove any that do not
   * exist": every missing path dropped, the others kept in order.
   */
  function ExistingOnly(fs: FileSystem, paths: seq<Path>): (r: seq<Path>)
    ensures |r| <= |paths|
  {
    if paths == [] then []
    else (if FileExists(fs, paths[0]) then [paths[0]] else []) + ExistingOnly(fs, paths[1..])
  }

  /** The filter keeps exactly the paths that exist. */
  lemma {:induction false} ExistingOnlyMembers(fs: FileSystem, paths: seq<Path>)
    ensures forall p :: p in ExistingOnly(fs, paths) <==> p in paths && FileExists(fs, p)
  {
    if paths != [] {
      ExistingOnlyMembers(fs, paths[1..]);
      assert paths == [paths[0]] + paths[1..];
    }
  }

  /** The filter goes through the list in order: it distributes over concatenation. */
  lemma {:induction false} ExistingOnlyAppend(fs: FileSystem, a: seq<Path>, b: seq<Path>)
    ensures ExistingOnly(fs, a + b) == ExistingOnly(fs, a) + ExistingOnly(fs, b)
  {
    if a == [] {
      assert a + b == b;
    } else {
      assert (a + b)[0] == a[0] && (a + b)[1..] == a[1..] + b;
      ExistingOnlyAppend(fs, a[1..], b);
    }
  }

  /** A list whose paths all exist passes through the filter unchanged. */
  lemma {:induction false} ExistingOnlyAll(fs: FileSystem, paths: seq<Path>)
    requires forall j | 0 <= j < |paths| :: FileExists(fs, paths[j])
    ensures ExistingOnly(fs, paths) == paths
  {
    if paths != [] {
      ExistingOnlyAll(fs, paths[1..]);
    }
  }

  /** The filter returns its input exactly when no path is missing. */
  lemma ExistingOnlyUnchanged(fs: FileSystem, paths: seq<Path>)
    ensures ExistingOnly(fs, paths) == paths <==> FirstMissing(fs, paths).None?
  {
    if FirstMissing(fs, paths).None? {
      ExistingOnlyAll(fs, paths);
    } else {
      ExistingOnlyShorter(fs, paths, FirstMissing(fs, paths).value);
    }
  }

  /** Up to the first missing path the filter copies the list, and drops that path. */
  lemma {:induction false} ExistingOnlyAtFirstMissing(fs: FileSystem, paths: seq<Path>)
    requires FirstMissing(fs, paths).Some?
    ensures var i := FirstMissing(fs, paths).value;
      ExistingOnly(fs, paths) == paths[..i] + ExistingOnly(fs, paths[i + 1..])
  {
    var i := FirstMissing(fs, paths).value;
    if i == 0 {
      assert paths[..0] == [];
    } else {
      var tail := paths[1..];
      assert FirstMissing(fs, tail) == Some(i - 1);
      ExistingOnlyAtFirstMissing(fs, tail);
      assert tail[..i - 1] == paths[1..i] && tail[i..] == paths[i + 1..];
      assert [paths[0]] + paths[1..i] == paths[..i];
    }
  }

  /**
   * The loop as written agrees with the filter exactly when at most one
   * path is missing: with a second missing path it leaves that path in.
   */
  lemma PrunedAgreesWithFilter(fs: FileSystem, paths: seq<Path>)
    ensures Pruned(fs, paths) == ExistingOnly(fs, paths)
        <==> FirstMissing(fs, paths).None? || FirstMissing(fs, paths[FirstMissing(fs, paths).value + 1..]).None?
  {
    ExistingOnlyUnchanged(fs, paths);
    if FirstMissing(fs, paths).Some? {
      var i := FirstMissing(fs, paths).value;
      var before, after := paths[..i], paths[i + 1..];
      ExistingOnlyAtFirstMissing(fs, paths);
      ExistingOnlyUnchanged(fs, after);
      assert Pruned(fs, paths) == before + after;
      if ExistingOnly(fs, paths) == Pruned(fs, paths) {
        assert ExistingOnly(fs, after) == (before + ExistingOnly(fs, after))[i..];
      }
    }
  }

  lemma {:induction false} ExistingOnlyShorter(fs: FileSystem, paths: seq<Path>, j: nat)
    requires j < |paths| && !FileExists(fs, paths[j])
    ensures |ExistingOnly(fs, paths)| < |paths|
  {
    if j > 0 {
      ExistingOnlyShorter(fs, paths[1..], j - 1);
    }
  }

  // ------------------------------------------------------------ the body

  /** The body after `Run` looked at it: the named file's contents when it exists, the text itself otherwise. */
  function BodyText(fs: FileSystem, body: seq<byte>): Result<seq<byte>, Path>
  {
    if FileExists(fs, body) then ReadFile(fs, body) else Ok(body)
  }

  /**
   * The body is replaced by a file's contents exactly when a file of that
   * name exists; it is kept verbatim otherwise, and an existing file that
   * cannot be read stops the command.
   */
  lemma BodySubstitution(fs: FileSystem, body: seq<byte>)
    ensures BodyText(fs, body) == ReadFile(fs, body) <==> FileExists(fs, body)
    ensures !FileExists(fs, body) ==> BodyText(fs, body) == Ok(body)
    ensures BodyText(fs, body).Err? <==> FileExists(fs, body) && fs.entries[body] == Unreadable
  {
  }

  // ------------------------------------------------------------ the recipient file

  /** An address as the recipient list holds it: not empty, nothing left to trim. */
  predicate IsRecipient(x: seq<byte>)
  {
    x != [] && TrimSpace(x) == x
  }

  /** The recipients found in the lines of the file: each line trimmed, blank lines skipped. */
  function ParseRecipients(lines: seq<seq<byte>>): (r: seq<seq<byte>>)
    ensures |r| <= |lines|
  {
    if lines == [] then []
    else
      var line := TrimSpace(lines[0]);
      var rest := ParseRecipients(lines[1..]);
      if line == [] then rest else [line] + rest
  }

  /** No recipient is empty or carries white space at either end. */
  lemma {:induction false} ParsedAreRecipients(lines: seq<seq<byte>>)
    ensures forall x | x in ParseRecipients(lines) :: IsRecipient(x)
  {
    if lines != [] {
      ParsedAreRecipients(lines[1..]);
      TrimSpaceIdempotent(lines[0]);
    }
  }

  /** Lines are handled one at a time and in order: parsing distributes over concatenation. */
  lemma {:induction false} ParseRecipientsAppend(a: seq<seq<byte>>, b: seq<seq<byte>>)
    ensures ParseRecipients(a + b) == ParseRecipients(a) + ParseRecipients(b)
  {
    if a != [] {
      assert (a + b)[0] == a[0];
      assert (a + b)[1..] == a[1..] + b;
      ParseRecipientsAppend(a[1..], b);
      var line := TrimSpace(a[0]);
      assert ParseRecipients(a + b) == if line == [] then ParseRecipients(a[1..] + b) else [line] + ParseRecipients(a[1..] + b);
      if line != [] {
        assert [line] + (ParseRecipients(a[1..]) + ParseRecipients(b)) == ([line] + ParseRecipients(a[1..])) + ParseRecipients(b);
      }
    } else {
      assert a + b == b;
    }
  }

  /** Every recipient is the trimmed text of some line. */
  lemma {:induction false} ParseRecipientsSound(lines: seq<seq<byte>>, x: seq<byte>)
    requires x in ParseRecipients(lines)
    ensures exists k | 0 <= k < |lines| :: x == TrimSpace(lines[k])
  {
    var rest := ParseRecipients(lines[1..]);
    if x in rest {
      ParseRecipientsSound(lines[1..], x);
      var k :| 0 <= k < |lines[1..]| && x == TrimSpace(lines[1..][k]);
      assert x == TrimSpace(lines[k + 1]);
    } else {
      assert x == TrimSpace(lines[0]);
    }
  }

  /** Every line that is not blank gives its trimmed text as a recipient. */
  lemma {:induction false} ParseRecipientsComplete(lines: seq<seq<byte>>, k: nat)
    requires k < |lines| && !AllSpace(lines[k])
    ensures TrimSpace(lines[k]) in ParseRecipients(lines)
  {
    var rest := ParseRecipients(lines[1..]);
    if k == 0 {
      TrimSpaceEmpty(lines[0]);
      assert ParseRecipients(lines) == [TrimSpace(lines[0])] + rest;
    } else {
      assert lines[k] == lines[1..][k - 1];
      ParseRecipientsComplete(lines[1..], k - 1);
      assert ParseRecipients(lines) == rest || ParseRecipients(lines) == [TrimSpace(lines[0])] + rest;
    }
  }

  /**
   * The recipients are exactly the trimmed texts of the lines that are not
   * blank.
   */
  lemma ParseRecipientsLines(lines: seq<seq<byte>>)
    ensures forall x | x in ParseRecipients(lines) :: exists k | 0 <= k < |lines| :: x == TrimSpace(lines[k])
    ensures forall k | 0 <= k < |lines| :: !AllSpace(lines[k]) ==> TrimSpace(lines[k]) in ParseRecipients(lines)
  {
    forall x | x in ParseRecipients(lines) ensures exists k | 0 <= k < |lines| :: x == TrimSpace(lines[k]) {
      ParseRecipientsSound(lines, x);
    }
    forall k | 0 <= k < |lines| && !AllSpace(lines[k]) ensures TrimSpace(lines[k]) in ParseRecipients(lines) {
      ParseRecipientsComplete(lines, k);
    }
  }

  /**
   * One scanner step: the recipients gathered so far, with the next line's
   * recipient appended when it is not blank, followed by the recipients of
   * what is left, are the recipients gathered so far followed by those of
   * the whole unread input.
   */
  lemma ParseScanStep(acc: seq<seq<byte>>, data: seq<byte>, token: seq<byte>, advance: nat)
    requires data != [] && ScanToken(data) == (token, advance)
    ensures (if TrimSpace(token) == [] then acc else acc + [TrimSpace(token)]) + ParseRecipients(ScanLines(data[advance..]))
         == acc + ParseRecipients(ScanLines(data))
  {
    ScanLinesStep(data);
    ParseNextLine(acc, token, ScanLines(data[advance..]));
  }

  /**
   * The recipients gathered so far, with the next line's recipient appended
   * when it is not blank, followed by the recipients of the later lines.
   */
  lemma ParseNextLine(acc: seq<seq<byte>>, line: seq<byte>, more: seq<seq<byte>>)
    ensures (if TrimSpace(line) == [] then acc else acc + [TrimSpace(line)]) + ParseRecipients(more)
         == acc + ParseRecipients([line] + more)
  {
    var lines := [line] + more;
    assert lines[0] == line && lines[1..] == more;
    var t, later := TrimSpace(line), ParseRecipients(more);
    if t != [] {
      assert acc + ([t] + later) == (acc + [t]) + later;
    }
  }

  // ------------------------------------------------------------ dispatch

  /** What the program reports for one recipient. */
  datatype Report = Report(recipient: seq<byte>, outcome: Outcome)

  /**
   * Sending the same subject, body and attachments to each recipient in
   * turn from the account state `r`: the reports and the state after.
   * A panic ends the process, so no later recipient is tried; an error
   * returned by `SendEmailGMail` is only reported.
   */
  function Dispatched(w: World, r: Remote, recipients: seq<seq<byte>>, subject: seq<byte>, body: seq<byte>, attachments: seq<Path>)
    : (res: (seq<Report>, Remote))
    requires Fair(w)
    ensures |res.0| <= |recipients|
    decreases |recipients|
  {
    if recipients == [] then ([], r)
    else
      var (outcome, r1) := SendOnce(w, r, recipients[0], subject, body, attachments);
      if outcome.Panicked? then ([Report(recipients[0], outcome)], r1)
      else
        var (rest, r2) := Dispatched(w, r1, recipients[1..], subject, body, attachments);
        ([Report(recipients[0], outcome)] + rest, r2)
  }

  /**
   * Each recipient is tried once, in order; every recipient is tried
   * unless an earlier one panicked, so a failed send does not stop the
   * later ones. Each try sets up the service once, and messages are only
   * ever added to what the API was given.
   */
  lemma {:induction false} DispatchedReports(w: World, r: Remote, recipients: seq<seq<byte>>, subject: seq<byte>, body: seq<byte>, attachments: seq<Path>)
    requires Fair(w)
    decreases |recipients|
    ensures var (reports, r') := Dispatched(w, r, recipients, subject, body, attachments);
      && |reports| <= |recipients|
      && (forall k | 0 <= k < |reports| :: reports[k].recipient == recipients[k])
      && (forall k | 0 <= k < |reports| - 1 :: !reports[k].outcome.Panicked?)
      && (forall k | 0 <= k < |reports| && !reports[k].outcome.Panicked? :: k + 1 < |recipients| ==> k + 1 < |reports|)
      && (|reports| == |recipients| || reports[|reports| - 1].outcome.Panicked?)
      && r'.connects == r.connects + |reports|
      && |r.sent| <= |r'.sent| <= |r.sent| + |reports| && r'.sent[..|r.sent|] == r.sent
  {
    if recipients != [] {
      var (outcome, r1) := SendOnce(w, r, recipients[0], subject, body, attachments);
      SendOnceAttempts(w, r, recipients[0], subject, body, attachments);
      if !outcome.Panicked? {
        DispatchedReports(w, r1, recipients[1..], subject, body, attachments);
        var (rest, r2) := Dispatched(w, r1, recipients[1..], subject, body, attachments);
        assert r2.sent[..|r.sent|] == r2.sent[..|r1.sent|][..|r.sent|];
      }
    }
  }

  /** Whether one of the reports is a panic, which ends the process. */
  predicate Stopped(reports: seq<Report>)
  {
    exists k | 0 <= k < |reports| :: reports[k].outcome.Panicked?
  }

  /**
   * Dispatching to `a + b` is dispatching to `a` and then, unless a send
   * to `a` panicked, to `b` from the state `a` left.
   */
  lemma {:induction false} DispatchedAppend(w: World, r: Remote, a: seq<seq<byte>>, b: seq<seq<byte>>, subject: seq<byte>, body: seq<byte>, attachments: seq<Path>)
    requires Fair(w)
    decreases |a|
    ensures var (ra, sa) := Dispatched(w, r, a, subject, body, attachments);
      Dispatched(w, r, a + b, subject, body, attachments) ==
        if Stopped(ra) then (ra, sa)
        else
          var (rb, sb) := Dispatched(w, sa, b, subject, body, attachments);
          (ra + rb, sb)
  {
    if a != [] {
      assert (a + b)[0] == a[0] && (a + b)[1..] == a[1..] + b;
      var (outcome, r1) := SendOnce(w, r, a[0], subject, body, attachments);
      var report := Report(a[0], outcome);
      if !outcome.Panicked? {
        DispatchedAppend(w, r1, a[1..], b, subject, body, attachments);
        var (ra, sa) := Dispatched(w, r, a, subject, body, attachments);
        var (rest, _) := Dispatched(w, r1, a[1..], subject, body, attachments);
        assert ra == [report] + rest;
        assert Stopped(ra) <==> Stopped(rest) by {
          forall k | 0 <= k < |rest| ensures ra[k + 1] == rest[k] { }
          if Stopped(ra) {
            var k :| 0 <= k < |ra| && ra[k].outcome.Panicked?;
            assert k > 0 && rest[k - 1] == ra[k];
          }
        }
        if !Stopped(rest) {
          var (rb, _) := Dispatched(w, sa, b, subject, body, attachments);
          assert [report] + (rest + rb) == ([report] + rest) + rb;
        }
      } else {
        assert Dispatched(w, r, a, subject, body, attachments).0[0] == report;
      }
    } else {
      assert a + b == b;
      assert [] + Dispatched(w, r, b, subject, body, attachments).0 == Dispatched(w, r, b, subject, body, attachments).0;
    }
  }

  /**
   * The k-th recipient gets exactly what one `SendEmailGMail` call with the
   * same subject, body and attachments gives, from the state the earlier
   * recipients left.
   */
  lemma DispatchedNth(w: World, r: Remote, recipients: seq<seq<byte>>, subject: seq<byte>, body: seq<byte>, attachments: seq<Path>, k: nat)
    requires Fair(w)
    requires k < |Dispatched(w, r, recipients, subject, body, attachments).0|
    ensures Dispatched(w, r, recipients, subject, body, attachments).0[k] ==
      Report(recipients[k], SendOnce(w, Dispatched(w, r, recipients[..k], subject, body, attachments).1, recipients[k], subject, body, attachments).0)
  {
    var (reports, _) := Dispatched(w, r, recipients, subject, body, attachments);
    DispatchedReports(w, r, recipients, subject, body, attachments);
    assert recipients == recipients[..k] + recipients[k..];
    DispatchedAppend(w, r, recipients[..k], recipients[k..], subject, body, attachments);
    var (ra, sa) := Dispatched(w, r, recipients[..k], subject, body, attachments);
    DispatchedReports(w, r, recipients[..k], subject, body, attachments);
    var (rb, _) := Dispatched(w, sa, recipients[k..], subject, body, attachments);
    assert reports == ra + rb && |ra| == k;
    assert recipients[k..][0] == recipients[k];
  }

  // ------------------------------------------------------------ the command

  /** How `Run` ends: with one report per recipient tried, or stopped by a panic over a file it could not read. */
  datatype RunResult = Completed(reports: seq<Report>) | Aborted(path: Path)

  /** The command's flags and the recipient list, as `Run` updates them. */
  class SendCommand {
    var to: seq<byte>
    var body: seq<byte>
    var subject: seq<byte>
    var attachments: seq<Path>
    var recipients: seq<seq<byte>>

    constructor (to: seq<byte>, body: seq<byte>, subject: seq<byte>, attachments: seq<Path>)
      ensures this.to == to && this.body == body && this.subject == subject
      ensures this.attachments == attachments && recipients == []
    {
      this.to := to;
      this.body := body;
      this.subject := subject;
      this.attachments := attachments;
      recipients := [];
    }

    /** The pruning loop: the first attachment that does not exist is cut out of the list, and the loop stops. */
    method PruneAttachments(fs: FileSystem)
      modifies this`attachments
      ensures attachments == Pruned(fs, old(attachments))
    {
      for index := 0 to |attachments|
        invariant attachments == old(attachments)
        invariant forall j | 0 <= j < index :: FileExists(fs, attachments[j])
      {
        if !FileExists(fs, attachments[index]) {
          assert FirstMissing(fs, attachments) == Some(index);
          attachments := attachments[..index] + attachments[index + 1..];
          break;
        }
      }
    }

    /** The body substitution: `failed` names the file whose read would panic. */
    method LoadBody(fs: FileSystem) returns (failed: Option<Path>)
      modifies this`body
      ensures match BodyText(fs, old(body))
        case Ok(text) => body == text && failed == None
        case Err(p) => body == old(body) && failed == Some(p)
    {
      if FileExists(fs, body) {
        var data := ReadFile(fs, body);
        if data.Err? {
          return Some(data.error);
        }
        body := data.value;
      }
      failed := None;
    }

    /** The scanner loop over the recipient file's bytes: each non-blank trimmed line is appended. */
    method ReadRecipients(data: seq<byte>)
      modifies this`recipients
      ensures recipients == old(recipients) + ParseRecipients(ScanLines(data))
    {
      var rest := data;
      ghost var total := ParseRecipients(ScanLines(data));
      while rest != []
        invariant recipients + ParseRecipients(ScanLines(rest)) == old(recipients) + total
        decreases |rest|
      {
        var step := ScanToken(rest);
        ParseScanStep(recipients, rest, step.0, step.1);
        var line := TrimSpace(step.0);
        if line != [] {
          recipients := recipients + [line];
        }
        rest := rest[step.1..];
      }
      assert recipients + [] == recipients;
    }

    /**
     * `Run` once the flags are parsed: with `attachChanged` the arguments
     * become the attachments; they are pruned, the body is substituted,
     * and then either every address in the file `to` or `to` itself is
     * sent the message.
     */
    method Run(gmail: Gmail, attachChanged: bool, args: seq<Path>) returns (result: RunResult)
      requires Fair(gmail.world)
      modifies this, gmail
      ensures var fs := gmail.world.fs;
        && to == old(to) && subject == old(subject)
        && attachments == Pruned(fs, if attachChanged then args else old(attachments))
        && match BodyText(fs, old(body))
          case Err(p) =>
            result == Aborted(p) && recipients == old(recipients) && gmail.State() == old(gmail.State())
          case Ok(text) =>
            && body == text
            && if FileExists(fs, to) then
                 match ReadFile(fs, to)
                 case Err(p) =>
                   result == Aborted(p) && recipients == old(recipients) && gmail.State() == old(gmail.State())
                 case Ok(data) =>
                   && recipients == old(recipients) + ParseRecipients(ScanLines(data))
                   && result.Completed?
                   && (result.reports, gmail.State()) == Dispatched(gmail.world, old(gmail.State()), recipients, subject, body, attachments)
               else
                 var (outcome, r') := SendOnce(gmail.world, old(gmail.State()), to, subject, body, attachments);
                 && recipients == old(recipients)
                 && result == Completed([Report(to, outcome)])
                 && gmail.State() == r'
    {
      var fs := gmail.world.fs;
      if attachChanged {
        attachments := args;
      }
      if |attachments| > 0 {
        PruneAttachments(fs);
      }

      var failed := LoadBody(fs);
      if failed.Some? {
        return Aborted(failed.value);
      }

      if FileExists(fs, to) {
        var file := ReadFile(fs, to);
        if file.Err? {
          return Aborted(file.error);
        }
        ReadRecipients(file.value);
        var reports := Dispatch(gmail, recipients, subject, body, attachments);
        result := Completed(reports);
      } else {
        var outcome := SendEmailGMail(gmail, to, subject, body, attachments);
        result := Completed([Report(to, outcome)]);
      }
    }
  }

  /** The dispatch loop: one `SendEmailGMail` per recipient, in order, until one panics. */
  method Dispatch(gmail: Gmail, recipients: seq<seq<byte>>, subject: seq<byte>, body: seq<byte>, attachments: seq<Path>)
    returns (reports: seq<Report>)
    requires Fair(gmail.world)
    modifies gmail
    ensures (reports, gmail.State()) == Dispatched(gmail.world, old(gmail.State()), recipients, subject, body, attachments)
  {
    var w := gmail.world;
    ghost var start := gmail.State();
    reports := [];
    assert recipients[0..] == recipients;
    for i := 0 to |recipients|
      invariant Dispatched(w, start, recipients, subject, body, attachments).0
             == reports + Dispatched(w, gmail.State(), recipients[i..], subject, body, attachments).0
      invariant Dispatched(w, start, recipients, subject, body, attachments).1
             == Dispatched(w, gmail.State(), recipients[i..], subject, body, attachments).1
    {
      ghost var before := gmail.State();
      assert recipients[i..][0] == recipients[i] && recipients[i..][1..] == recipients[i + 1..];
      var outcome := SendEmailGMail(gmail, recipients[i], subject, body, attachments);
      ghost var previous := reports;
      reports := reports + [Report(recipients[i], outcome)];
      if outcome.Panicked? {
        assert Dispatched(w, before, recipients[i..], subject, body, attachments) == ([Report(recipients[i], outcome)], gmail.State());
        return;
      }
      ghost var (rest, _) := Dispatched(w, gmail.State(), recipients[i + 1..], subject, body, attachments);
      assert Dispatched(w, before, recipients[i..], subject, body, attachments).0 == [Report(recipients[i], outcome)] + rest;
      assert reports + rest == previous + ([Report(recipients[i], outcome)] + rest);
    }
    assert recipients[|recipients|..] == [];
    assert reports + [] == reports;
  }
}
