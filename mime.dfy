/**
 * Message composition in internal/providers/google.go: the plain text/plain
 * message of `buildMessage`, and the multipart/mixed message of
 * `buildMessageWithAttachments` (section 5.1.3 of RFC 2046) with one
 * base64 part per attachment (section 2 of RFC 2183), its text wrapped into
 * lines of at most 76 characters (section 6.8 of RFC 2045).
 *
 * The composed bytes are handed to `utils.EncodeURLSafeBase64`, and the
 * result is the `Raw` field of the Gmail message. A small header reader,
 * `SplitHeader`, is the partner that reads a composed message back.
 */
module Mime {
  import opened Bytes
  import opened Wrappers
  import opened Os
  import opened Base64

  /** `gmail.Message` as the core fills it: only `Raw`, the base64url text of the MIME document. */
  datatype Message = Message(raw: seq<byte>)

  /** A header field of a MIME part, written "name: value". */
  datatype Field = Field(name: seq<byte>, value: seq<byte>)

  /** A MIME part: its header fields, in the order written, and its body bytes. */
  datatype Part = Part(fields: seq<Field>, body: seq<byte>)

  // ------------------------------------------------------------ header blocks

  /** The header lines, each ended by CRLF, then the empty line that ends the block (section 2.1 of RFC 5322). */
  function HeaderBlock(lines: seq<seq<byte>>): seq<byte>
  {
    Lines(lines) + CRLF
  }

  function FieldLine(f: Field): seq<byte>
  {
    f.name + ": " + f.value
  }

  function FieldLines(fields: seq<Field>): (r: seq<seq<byte>>)
    ensures |r| == |fields|
  {
    seq(|fields|, i requires 0 <= i < |fields| => FieldLine(fields[i]))
  }

  /** The position of the first CRLF in `m`. */
  function FindCRLF(m: seq<byte>): (r: Option<nat>)
    ensures r.Some? ==> r.value + 2 <= |m| && m[r.value] == CR && m[r.value + 1] == LF
    decreases |m|
  {
    if |m| < 2 then None
    else if m[0] == CR && m[1] == LF then Some(0)
    else match FindCRLF(m[1..])
      case None => None
      case Some(i) => Some(i + 1)
  }

  /**
   * Reads the header lines of a message up to the empty line and returns
   * them with the rest of the message; None when no empty line ends them.
   */
  function SplitHeader(m: seq<byte>): Option<(seq<seq<byte>>, seq<byte>)>
    decreases |m|
  {
    match FindCRLF(m)
    case None => None
    case Some(i) =>
      if i == 0 then Some(([], m[2..]))
      else match SplitHeader(m[i + 2..])
        case None => None
        case Some((ls, rest)) => Some(([m[..i]] + ls, rest))
  }

  /** Header lines that the reader gives back unchanged: none empty, none holding a CR or LF. */
  predicate WellFormedLines(ls: seq<seq<byte>>)
  {
    forall k | 0 <= k < |ls| :: ls[k] != [] && NoLineBreak(ls[k])
  }

  lemma {:induction false} FindCRLFAfterLine(line: seq<byte>, rest: seq<byte>)
    requires NoLineBreak(line)
    ensures FindCRLF(line + CRLF + rest) == Some(|line|)
  {
    if line != [] {
      assert (line + CRLF + rest)[1..] == line[1..] + CRLF + rest;
      FindCRLFAfterLine(line[1..], rest);
    }
  }

  /** Reading back a header block written from well-formed lines gives the lines and the rest. */
  lemma {:induction false} SplitHeaderBlock(ls: seq<seq<byte>>, rest: seq<byte>)
    requires WellFormedLines(ls)
    ensures SplitHeader(HeaderBlock(ls) + rest) == Some((ls, rest))
  {
    var m := HeaderBlock(ls) + rest;
    if ls == [] {
      assert m == CRLF + rest;
      assert FindCRLF(m) == Some(0);
    } else {
      assert m == ls[0] + CRLF + (HeaderBlock(ls[1..]) + rest);
      FindCRLFAfterLine(ls[0], HeaderBlock(ls[1..]) + rest);
      assert m[|ls[0]| + 2..] == HeaderBlock(ls[1..]) + rest;
      assert m[..|ls[0]|] == ls[0];
      SplitHeaderBlock(ls[1..], rest);
      assert [ls[0]] + ls[1..] == ls;
    }
  }

  lemma FourLines(a: seq<byte>, b: seq<byte>, c: seq<byte>, d: seq<byte>)
    ensures Lines([a, b, c, d]) == a + CRLF + b + CRLF + c + CRLF + d + CRLF
  {
    assert [a, b, c, d][1..] == [b, c, d];
    assert [b, c, d][1..] == [c, d];
    assert [c, d][1..] == [d];
    assert [d][1..] == [];
    assert Lines([d]) == d + CRLF;
    assert Lines([c, d]) == c + CRLF + (d + CRLF);
    assert Lines([b, c, d]) == b + CRLF + (c + CRLF + (d + CRLF));
    assert Lines([a, b, c, d]) == a + CRLF + (b + CRLF + (c + CRLF + (d + CRLF)));
  }

  // ------------------------------------------------------------ buildMessage

  // Longer header texts are written as concatenations of shorter literals:
  // the verifier handles a concatenation of short literals much more cheaply
  // than one long literal, and the bytes are the same.

  const ToLabel: seq<byte> := "To: "
  const SubjectLabel: seq<byte> := "Subject: "
  const MimeVersionLine: seq<byte> := "MIME-Version: 1.0"
  const ContentTypeName: seq<byte> := "Content-Type"
  const ContentTypeLabel: seq<byte> := ContentTypeName + ": "
  const PlainContentTypeLine: seq<byte> := ContentTypeLabel + "text/plain; " + "charset=\"utf-8\""

  /** The bytes `buildMessage` composes: four header lines, the empty line, the body. */
  function PlainText(to: seq<byte>, subject: seq<byte>, body: seq<byte>): seq<byte>
  {
    ToLabel + to + CRLF
    + SubjectLabel + subject + CRLF
    + MimeVersionLine + CRLF
    + PlainContentTypeLine + CRLF + CRLF
    + body
  }

  function PlainHeaders(to: seq<byte>, subject: seq<byte>): seq<seq<byte>>
  {
    [ToLabel + to, SubjectLabel + subject, MimeVersionLine, PlainContentTypeLine]
  }

  /**
   * The plain message is a header block of To, Subject, MIME-Version and
   * Content-Type lines, with `to` and `subject` inserted verbatim, followed by
   * the body unchanged.
   */
  lemma PlainLayout(to: seq<byte>, subject: seq<byte>, body: seq<byte>)
    ensures PlainText(to, subject, body) == HeaderBlock(PlainHeaders(to, subject)) + body
    ensures PlainText(to, subject, body)[|PlainText(to, subject, body)| - |body|..] == body
  {
    var a, b := ToLabel + to, SubjectLabel + subject;
    var h := HeaderBlock(PlainHeaders(to, subject));
    FourLines(a, b, MimeVersionLine, PlainContentTypeLine);
    assert a + CRLF + b == ToLabel + to + CRLF + SubjectLabel + subject;
    assert h == ToLabel + to + CRLF + SubjectLabel + subject + CRLF + MimeVersionLine + CRLF + PlainContentTypeLine + CRLF + CRLF;
    assert (h + body)[|h|..] == body;
  }

  /** `buildMessage`: the message whose `Raw` is the base64url text of `PlainText`. */
  function BuildMessage(to: seq<byte>, subject: seq<byte>, body: seq<byte>): (m: Message)
    ensures Decode(UrlSafe, m.raw) == Some(PlainText(to, subject, body))
    ensures |m.raw| == (4 * |PlainText(to, subject, body)| + 2) / 3
  {
    var text := PlainText(to, subject, body);
    RoundTrip(text);
    Message(EncodeURLSafeBase64(text))
  }

  /**
   * Decoding `Raw` and reading the header block back gives exactly the four
   * header lines and the body, when `to` and `subject` hold no line break.
   */
  lemma PlainRoundTrip(to: seq<byte>, subject: seq<byte>, body: seq<byte>)
    requires NoLineBreak(to) && NoLineBreak(subject)
    ensures Decode(UrlSafe, BuildMessage(to, subject, body).raw) == Some(PlainText(to, subject, body))
    ensures SplitHeader(PlainText(to, subject, body)) == Some((PlainHeaders(to, subject), body))
  {
    PlainLayout(to, subject, body);
    PlainHeadersWellFormed(to, subject);
    SplitHeaderBlock(PlainHeaders(to, subject), body);
  }

  lemma PlainHeadersWellFormed(to: seq<byte>, subject: seq<byte>)
    requires NoLineBreak(to) && NoLineBreak(subject)
    ensures WellFormedLines(PlainHeaders(to, subject))
  {
    assert NoLineBreak(ToLabel) && NoLineBreak(SubjectLabel);
    assert NoLineBreak(MimeVersionLine) && NoLineBreak(PlainContentTypeLine);
    NoLineBreakConcat(ToLabel, to);
    NoLineBreakConcat(SubjectLabel, subject);
    var ls := PlainHeaders(to, subject);
    assert ls[0] == ToLabel + to && ls[1] == SubjectLabel + subject;
    assert ls[2] == MimeVersionLine && ls[3] == PlainContentTypeLine;
  }

  /**
   * Nothing is escaped: a subject "s1 CRLF s2" puts a header line `s2` of
   * the sender's choosing into the message, after "Subject: s1".
   */
  lemma SubjectInjectsHeader(to: seq<byte>, s1: seq<byte>, s2: seq<byte>, body: seq<byte>)
    requires NoLineBreak(to) && NoLineBreak(s1) && NoLineBreak(s2) && s2 != []
    ensures SplitHeader(PlainText(to, s1 + CRLF + s2, body))
            == Some(([ToLabel + to, SubjectLabel + s1, s2, MimeVersionLine, PlainContentTypeLine], body))
  {
    var ls := [ToLabel + to, SubjectLabel + s1, s2, MimeVersionLine, PlainContentTypeLine];
    assert PlainText(to, s1 + CRLF + s2, body) == HeaderBlock(ls) + body by {
      InjectedLines(to, s1, s2);
      PlainLayout(to, s1 + CRLF + s2, body);
    }
    assert WellFormedLines(ls) by {
      NoLineBreakConcat(ToLabel, to);
      NoLineBreakConcat(SubjectLabel, s1);
      assert NoLineBreak(MimeVersionLine) && NoLineBreak(PlainContentTypeLine);
    }
    SplitHeaderBlock(ls, body);
  }

  /** The header lines of a subject holding CRLF are those of a message with one line more. */
  lemma InjectedLines(to: seq<byte>, s1: seq<byte>, s2: seq<byte>)
    ensures Lines(PlainHeaders(to, s1 + CRLF + s2))
         == Lines([ToLabel + to, SubjectLabel + s1, s2, MimeVersionLine, PlainContentTypeLine])
  {
    var l0, b1 := ToLabel + to, SubjectLabel + s1;
    var a1 := SubjectLabel + (s1 + CRLF + s2);
    var ls := [l0, b1, s2, MimeVersionLine, PlainContentTypeLine];
    var mp := Lines([MimeVersionLine, PlainContentTypeLine]);
    assert Lines(PlainHeaders(to, s1 + CRLF + s2)) == l0 + CRLF + (a1 + CRLF + mp) by {
      assert PlainHeaders(to, s1 + CRLF + s2) == [l0, a1, MimeVersionLine, PlainContentTypeLine];
      assert [l0, a1, MimeVersionLine, PlainContentTypeLine][1..] == [a1, MimeVersionLine, PlainContentTypeLine];
      assert [a1, MimeVersionLine, PlainContentTypeLine][1..] == [MimeVersionLine, PlainContentTypeLine];
    }
    assert Lines(ls) == l0 + CRLF + (b1 + CRLF + (s2 + CRLF + mp)) by {
      assert ls[1..] == [b1, s2, MimeVersionLine, PlainContentTypeLine];
      assert ls[1..][1..] == [s2, MimeVersionLine, PlainContentTypeLine];
      assert ls[1..][1..][1..] == [MimeVersionLine, PlainContentTypeLine];
      assert Lines(ls[1..][1..]) == s2 + CRLF + mp;
      assert Lines(ls[1..]) == b1 + CRLF + (s2 + CRLF + mp);
    }
    Regroup(SubjectLabel, s1, s2, mp);
  }

  lemma Regroup(p: seq<byte>, q: seq<byte>, r: seq<byte>, more: seq<byte>)
    ensures p + (q + CRLF + r) + CRLF + more == p + q + CRLF + (r + CRLF + more)
  {
    var x := p + q + CRLF;
    assert p + (q + CRLF + r) == x + r;
    assert x + r + CRLF + more == x + (r + CRLF + more);
  }

  // ------------------------------------------------------------ line wrapping

  const LineLength: nat := 76

  /** The text cut into pieces of 76 bytes, the last one shorter. */
  function Chunks(e: seq<byte>): seq<seq<byte>>
    decreases |e|
  {
    if e == [] then []
    else if |e| <= LineLength then [e]
    else [e[..LineLength]] + Chunks(e[LineLength..])
  }

  /** The wrapped text: each chunk followed by CRLF. */
  function Wrap(e: seq<byte>): seq<byte>
  {
    Lines(Chunks(e))
  }

  /** The first chunk is the first 76 bytes, or all of them when fewer remain. */
  lemma ChunksStep(e: seq<byte>)
    requires e != []
    ensures var n := if |e| < LineLength then |e| else LineLength;
            Chunks(e) == [e[..n]] + Chunks(e[n..])
  {
    if |e| <= LineLength {
      assert e[..|e|] == e && e[|e|..] == [];
    }
  }

  /**
   * The chunks run together are the text; each holds between 1 and 76
   * bytes, all but the last exactly 76; there are ceil(|e| / 76) of them,
   * so empty text gives no line at all.
   */
  lemma {:induction false} ChunksProperties(e: seq<byte>)
    ensures Flatten(Chunks(e)) == e
    ensures |Chunks(e)| == (|e| + LineLength - 1) / LineLength
    ensures forall k | 0 <= k < |Chunks(e)| :: 0 < |Chunks(e)[k]| <= LineLength
    ensures forall k | 0 <= k < |Chunks(e)| - 1 :: |Chunks(e)[k]| == LineLength
    decreases |e|
  {
    if e != [] && |e| > LineLength {
      ChunksProperties(e[LineLength..]);
      var cs := Chunks(e);
      assert cs[1..] == Chunks(e[LineLength..]);
      assert e[..LineLength] + e[LineLength..] == e;
    } else if e != [] {
      assert Chunks(e) == [e];
      assert [e][1..] == [];
    }
  }

  /** Taking the CRLFs out of wrapped text that had none gives the text back. */
  lemma UnwrapWrap(e: seq<byte>)
    requires NoLineBreak(e)
    ensures StripLineBreaks(Wrap(e)) == e
  {
    ChunksProperties(e);
    var cs := Chunks(e);
    forall k | 0 <= k < |cs|
      ensures NoLineBreak(cs[k])
    {
      ChunkBytesFromText(e, k);
    }
    StripLines(cs);
  }

  /** Every byte of a chunk is a byte of the text. */
  lemma {:induction false} ChunkBytesFromText(e: seq<byte>, k: nat)
    requires k < |Chunks(e)|
    ensures forall i | 0 <= i < |Chunks(e)[k]| :: Chunks(e)[k][i] in e
    decreases |e|
  {
    if |e| > LineLength && k > 0 {
      ChunkBytesFromText(e[LineLength..], k - 1);
      forall i | 0 <= i < |Chunks(e)[k]|
        ensures Chunks(e)[k][i] in e
      {
        var c := Chunks(e)[k][i];
        assert c in e[LineLength..];
      }
    }
  }

  // ------------------------------------------------------------ attachment parts

  const AttachmentType: seq<byte> := "application/" + "octet-stream; " + "name=\""
  const AttachmentDisposition: seq<byte> := "attachment; " + "filename=\""
  const DispositionName: seq<byte> := "Content-" + "Disposition"
  const TransferEncodingName: seq<byte> := "Content-" + "Transfer-Encoding"
  const Quote: seq<byte> := "\""

  /**
   * The three header fields of an attachment part, in the order the
   * multipart writer emits them (sorted by name).
   */
  function AttachmentFields(filename: seq<byte>): seq<Field>
  {
    [ Field(DispositionName, AttachmentDisposition + filename + Quote),
      Field(TransferEncodingName, "base64"),
      Field(ContentTypeName, AttachmentType + filename + Quote) ]
  }

  /** "Content-Disposition: attachment; filename=\"" and "Content-Type: application/octet-stream; name=\"". */
  const DispositionLabel: seq<byte> := DispositionName + ": " + AttachmentDisposition
  const AttachmentTypeLabel: seq<byte> := ContentTypeLabel + AttachmentType
  const TransferEncodingLine: seq<byte> := TransferEncodingName + ": " + "base64"

  lemma AttachmentFieldLines(name: seq<byte>)
    ensures FieldLines(AttachmentFields(name))
         == [DispositionLabel + name + Quote, TransferEncodingLine, AttachmentTypeLabel + name + Quote]
  {
    var ls := FieldLines(AttachmentFields(name));
    assert |ls| == 3;
    assert ls[0] == DispositionName + ": " + (AttachmentDisposition + name + Quote);
    assert DispositionName + ": " + (AttachmentDisposition + name + Quote) == DispositionLabel + name + Quote;
    assert ls[1] == TransferEncodingLine;
    assert ls[2] == ContentTypeName + ": " + (AttachmentType + name + Quote);
    assert ContentTypeName + ": " + (AttachmentType + name + Quote) == AttachmentTypeLabel + name + Quote;
  }

  /**
   * Read back, an attachment part's header block holds exactly three lines:
   * the disposition and the content type quote the same file name, and the
   * transfer encoding is base64; what follows the block is the body.
   */
  lemma AttachmentHeaderLines(name: seq<byte>, body: seq<byte>)
    requires NoLineBreak(name)
    ensures SplitHeader(HeaderBlock(FieldLines(AttachmentFields(name))) + body)
         == Some(([DispositionLabel + name + Quote, TransferEncodingLine, AttachmentTypeLabel + name + Quote], body))
  {
    AttachmentFieldLines(name);
    AttachmentLinesWellFormed(name);
    SplitHeaderBlock([DispositionLabel + name + Quote, TransferEncodingLine, AttachmentTypeLabel + name + Quote], body);
  }

  lemma AttachmentLinesWellFormed(name: seq<byte>)
    requires NoLineBreak(name)
    ensures WellFormedLines([DispositionLabel + name + Quote, TransferEncodingLine, AttachmentTypeLabel + name + Quote])
  {
    AttachmentLabelsWellFormed();
    QuotedLine(DispositionLabel, name);
    QuotedLine(AttachmentTypeLabel, name);
  }

  lemma AttachmentLabelsWellFormed()
    ensures NoLineBreak(DispositionLabel) && NoLineBreak(AttachmentTypeLabel)
    ensures NoLineBreak(TransferEncodingLine) && TransferEncodingLine != []
  {
    NoLineBreakConcat(DispositionName + ": ", AttachmentDisposition);
    NoLineBreakConcat(ContentTypeLabel, AttachmentType);
    NoLineBreakConcat(TransferEncodingName + ": ", "base64");
  }

  /** A prefix, a name and a closing quote: no line break when neither prefix nor name holds one. */
  lemma QuotedLine(prefix: seq<byte>, name: seq<byte>)
    requires NoLineBreak(prefix) && NoLineBreak(name)
    ensures NoLineBreak(prefix + name + Quote) && prefix + name + Quote != []
  {
    assert NoLineBreak(Quote);
    NoLineBreakConcat(prefix, name);
    NoLineBreakConcat(prefix + name, Quote);
  }

  /**
   * One attachment goroutine: read the file, encode it with padded standard
   * base64, and name it after the path's base; the failing path when the
   * file cannot be read.
   */
  function ReadAttachment(fs: FileSystem, path: Path): Result<Part, Path>
  {
    match ReadFile(fs, path)
    case Err(p) => Err(p)
    case Ok(data) => Ok(Part(AttachmentFields(Base(path)), StdEncode(data)))
  }

  /**
   * The goroutine fails exactly when the file cannot be read, and then with
   * its path; otherwise the part carries the fields for the path's base and
   * a body of 4*ceil(n/3) bytes, without line breaks, that decodes to the
   * file's bytes.
   */
  lemma ReadAttachmentSpec(fs: FileSystem, path: Path)
    ensures ReadAttachment(fs, path).Ok? <==> ReadFile(fs, path).Ok?
    ensures ReadAttachment(fs, path).Err? ==> ReadAttachment(fs, path).error == path
    ensures ReadAttachment(fs, path).Ok? ==>
      && ReadAttachment(fs, path).value.fields == AttachmentFields(Base(path))
      && |ReadAttachment(fs, path).value.body| == 4 * ((|ReadFile(fs, path).value| + 2) / 3)
      && NoLineBreak(ReadAttachment(fs, path).value.body)
      && DecodePadded(Standard, ReadAttachment(fs, path).value.body) == Some(ReadFile(fs, path).value)
  {
    if ReadFile(fs, path).Ok? {
      PaddedRoundTrip(Standard, ReadFile(fs, path).value);
    }
  }

  /** The part as written to the message: the same fields, the body wrapped into lines. */
  function Wrapped(p: Part): Part
  {
    Part(p.fields, Wrap(p.body))
  }

  /**
   * On the wire an attachment part carries the three fields of
   * `AttachmentFields` for the base of its path, and its body, once the
   * line breaks are taken out, decodes to the file's bytes.
   */
  lemma AttachmentOnWire(fs: FileSystem, path: Path)
    requires ReadFile(fs, path).Ok?
    ensures var w := Wrapped(ReadAttachment(fs, path).value);
            && w.fields == AttachmentFields(Base(path))
            && DecodePadded(Standard, StripLineBreaks(w.body)) == Some(ReadFile(fs, path).value)
  {
    ReadAttachmentSpec(fs, path);
    var part := ReadAttachment(fs, path).value;
    assert Wrapped(part).body == Wrap(part.body);
    UnwrapWrap(part.body);
  }

  // ------------------------------------------------------------ the multipart message

  const MultipartContentTypeLabel: seq<byte> := ContentTypeLabel + "multipart/mixed; " + "boundary="

  /** The top header block `buildMessageWithAttachments` writes with `Sprintf`. */
  function MultipartHeaderText(to: seq<byte>, subject: seq<byte>, boundary: seq<byte>): seq<byte>
  {
    ToLabel + to + CRLF
    + SubjectLabel + subject + CRLF
    + MimeVersionLine + CRLF
    + MultipartContentTypeLabel + boundary + CRLF + CRLF
  }

  function MultipartHeaders(to: seq<byte>, subject: seq<byte>, boundary: seq<byte>): seq<seq<byte>>
  {
    [ToLabel + to, SubjectLabel + subject, MimeVersionLine, MultipartContentTypeLabel + boundary]
  }

  /** The header fields of the body part, in the order the writer emits them. */
  const TextPartFields: seq<Field> :=
    [Field(TransferEncodingName, "quoted-" + "printable"), Field(ContentTypeName, "text/plain; " + "charset=\"UTF-8\"")]

  /** The delimiter line before a part: CRLF, "--", the boundary, CRLF; the first part has no leading CRLF. */
  function Delimiter(boundary: seq<byte>, first: bool): seq<byte>
  {
    (if first then [] else CRLF) + "--" + boundary + CRLF
  }

  function CloseDelimiter(boundary: seq<byte>): seq<byte>
  {
    CRLF + "--" + boundary + "--" + CRLF
  }

  function Encapsulation(boundary: seq<byte>, first: bool, p: Part): seq<byte>
  {
    Delimiter(boundary, first) + HeaderBlock(FieldLines(p.fields)) + p.body
  }

  /** The parts, each after its delimiter line and header block. */
  function Framing(boundary: seq<byte>, parts: seq<Part>): seq<byte>
  {
    if parts == [] then []
    else Framing(boundary, parts[..|parts| - 1]) + Encapsulation(boundary, |parts| == 1, parts[|parts| - 1])
  }

  /** The whole multipart document: top header block, the framed parts, the close delimiter. */
  function MultipartText(to: seq<byte>, subject: seq<byte>, boundary: seq<byte>, parts: seq<Part>): seq<byte>
  {
    MultipartHeaderText(to, subject, boundary) + (Framing(boundary, parts) + CloseDelimiter(boundary))
  }

  function Indices(n: nat): (r: seq<nat>)
    ensures |r| == n && forall i | 0 <= i < n :: r[i] == i
  {
    seq(n, i requires 0 <= i < n => i)
  }

  /**
   * The order in which the goroutines' results leave the channel: every
   * attachment index exactly once, in any order.
   */
  predicate IsDrainOrder(order: seq<nat>, n: nat)
  {
    multiset(order) == multiset(Indices(n))
  }

  lemma DrainOrderBounds(order: seq<nat>, n: nat)
    requires IsDrainOrder(order, n)
    ensures |order| == n
    ensures forall k | 0 <= k < |order| :: order[k] < n
    ensures forall i | 0 <= i < n :: i in order
  {
    assert |multiset(order)| == |multiset(Indices(n))|;
    forall k | 0 <= k < |order|
      ensures order[k] < n
    {
      assert order[k] in multiset(Indices(n));
    }
    forall i | 0 <= i < n
      ensures i in order
    {
      assert Indices(n)[i] == i;
      assert i in multiset(order);
    }
  }

  function AttachmentResults(fs: FileSystem, attachments: seq<Path>): (r: seq<Result<Part, Path>>)
    ensures |r| == |attachments|
  {
    seq(|attachments|, i requires 0 <= i < |attachments| => ReadAttachment(fs, attachments[i]))
  }

  function Prepend(done: seq<Part>, r: Result<seq<Part>, Path>): Result<seq<Part>, Path>
  {
    match r
    case Err(p) => Err(p)
    case Ok(ps) => Ok(done + ps)
  }

  /**
   * Draining the results in `order`: the wrapped parts in that order, or
   * the first failing path met, at which the source panics.
   */
  function Drain(results: seq<Result<Part, Path>>, order: seq<nat>): Result<seq<Part>, Path>
    requires forall k | 0 <= k < |order| :: order[k] < |results|
  {
    if order == [] then Ok([])
    else match results[order[0]]
      case Err(p) => Err(p)
      case Ok(part) => Prepend([Wrapped(part)], Drain(results, order[1..]))
  }

  lemma {:induction false} DrainShape(results: seq<Result<Part, Path>>, order: seq<nat>)
    requires forall k | 0 <= k < |order| :: order[k] < |results|
    ensures Drain(results, order).Err? <==> exists k | 0 <= k < |order| :: results[order[k]].Err?
    ensures Drain(results, order).Err? ==>
      exists k | 0 <= k < |order| :: results[order[k]] == Err(Drain(results, order).error)
    ensures Drain(results, order).Ok? ==>
      && |Drain(results, order).value| == |order|
      && forall k | 0 <= k < |order| :: Drain(results, order).value[k] == Wrapped(results[order[k]].value)
  {
    if order != [] {
      DrainShape(results, order[1..]);
      if results[order[0]].Ok? {
        if Drain(results, order).Err? {
          var k :| 0 <= k < |order[1..]| && results[order[1..][k]].Err?;
          assert results[order[k + 1]].Err?;
        }
        if exists k | 0 <= k < |order| :: results[order[k]].Err? {
          var k :| 0 <= k < |order| && results[order[k]].Err?;
          assert k > 0 && results[order[1..][k - 1]].Err?;
        }
      }
    }
  }

  /**
   * The message `buildMessageWithAttachments` returns: the body part first,
   * then the attachment parts in drain order; the failing path when an
   * attachment cannot be read.
   */
  function MultipartMessage(to: seq<byte>, subject: seq<byte>, body: seq<byte>, attachments: seq<Path>,
                            fs: FileSystem, boundary: seq<byte>, qp: seq<byte> -> seq<byte>, order: seq<nat>)
    : Result<Message, Path>
    requires IsDrainOrder(order, |attachments|)
  {
    DrainOrderBounds(order, |attachments|);
    match Drain(AttachmentResults(fs, attachments), order)
    case Err(p) => Err(p)
    case Ok(parts) =>
      Ok(Message(EncodeURLSafeBase64(MultipartText(to, subject, boundary, [Part(TextPartFields, qp(body))] + parts))))
  }

  lemma MultipartLayout(to: seq<byte>, subject: seq<byte>, boundary: seq<byte>)
    ensures MultipartHeaderText(to, subject, boundary) == HeaderBlock(MultipartHeaders(to, subject, boundary))
  {
    var a, b, d := ToLabel + to, SubjectLabel + subject, MultipartContentTypeLabel + boundary;
    FourLines(a, b, MimeVersionLine, d);
    var x := a + CRLF + b;
    assert x == ToLabel + to + CRLF + SubjectLabel + subject;
    var y := x + CRLF + MimeVersionLine + CRLF;
    assert y + d == y + MultipartContentTypeLabel + boundary;
  }

  /** The wrapped parts of results that all succeeded, in result order. */
  function WrappedResults(results: seq<Result<Part, Path>>): (r: seq<Part>)
    requires forall i | 0 <= i < |results| :: results[i].Ok?
    ensures |r| == |results| && forall i | 0 <= i < |results| :: r[i] == Wrapped(results[i].value)
  {
    seq(|results|, i requires 0 <= i < |results| && results[i].Ok? => Wrapped(results[i].value))
  }

  /**
   * Draining every result once, in any order, fails exactly when some
   * result failed, and then with the path of a failed result.
   */
  lemma DrainFailure(results: seq<Result<Part, Path>>, order: seq<nat>)
    requires IsDrainOrder(order, |results|)
    ensures forall k | 0 <= k < |order| :: order[k] < |results|
    ensures Drain(results, order).Err? <==> exists i | 0 <= i < |results| :: results[i].Err?
    ensures Drain(results, order).Err? ==> Err(Drain(results, order).error) in results
  {
    DrainOrderBounds(order, |results|);
    DrainShape(results, order);
    if exists i | 0 <= i < |results| :: results[i].Err? {
      var i :| 0 <= i < |results| && results[i].Err?;
      assert i in order;
      var k :| 0 <= k < |order| && order[k] == i;
      assert results[order[k]].Err?;
    }
    if Drain(results, order).Err? {
      var k :| 0 <= k < |order| && results[order[k]] == Err(Drain(results, order).error);
      assert results[order[k]] in results;
    }
  }

  /**
   * Draining every result once, when all of them succeeded, yields every
   * wrapped part exactly once, in the drain order.
   */
  lemma DrainPermutation(results: seq<Result<Part, Path>>, order: seq<nat>)
    requires IsDrainOrder(order, |results|)
    requires forall i | 0 <= i < |results| :: results[i].Ok?
    ensures forall k | 0 <= k < |order| :: order[k] < |results|
    ensures Drain(results, order).Ok?
    ensures Drain(results, order).value == Permute(WrappedResults(results), order)
    ensures multiset(Drain(results, order).value) == multiset(WrappedResults(results))
  {
    DrainOrderBounds(order, |results|);
    DrainShape(results, order);
    var wrapped := WrappedResults(results);
    assert Drain(results, order).value == Permute(wrapped, order);
    PermutedMultiset(wrapped, order);
  }

  /** One result per attachment: it fails exactly when that file cannot be read, with that path. */
  lemma AttachmentResultsShape(fs: FileSystem, attachments: seq<Path>)
    ensures forall i | 0 <= i < |attachments| ::
      AttachmentResults(fs, attachments)[i].Err? <==> ReadFile(fs, attachments[i]).Err?
    ensures forall e | e in AttachmentResults(fs, attachments) ::
      e.Err? ==> e.error in attachments && ReadFile(fs, e.error).Err?
  {
  }

  /**
   * `buildMessageWithAttachments` fails exactly when some attachment cannot
   * be read, and the path it fails with is one that cannot be read.
   */
  lemma MultipartFailure(to: seq<byte>, subject: seq<byte>, body: seq<byte>, attachments: seq<Path>,
                         fs: FileSystem, boundary: seq<byte>, qp: seq<byte> -> seq<byte>, order: seq<nat>)
    requires IsDrainOrder(order, |attachments|)
    ensures MultipartMessage(to, subject, body, attachments, fs, boundary, qp, order).Err?
        <==> exists i | 0 <= i < |attachments| :: ReadFile(fs, attachments[i]).Err?
    ensures MultipartMessage(to, subject, body, attachments, fs, boundary, qp, order).Err? ==>
      ReadFile(fs, MultipartMessage(to, subject, body, attachments, fs, boundary, qp, order).error).Err?
  {
    var results := AttachmentResults(fs, attachments);
    DrainFailure(results, order);
    AttachmentResultsShape(fs, attachments);
    var d := Drain(results, order);
    if d.Err? {
      assert Err(d.error) in results;
    }
  }

  /**
   * When every attachment can be read, draining succeeds and yields every
   * attachment part exactly once, whatever the drain order.
   */
  lemma MultipartParts(fs: FileSystem, attachments: seq<Path>, order: seq<nat>)
    requires IsDrainOrder(order, |attachments|)
    requires forall i | 0 <= i < |attachments| :: ReadFile(fs, attachments[i]).Ok?
    ensures forall k | 0 <= k < |order| :: order[k] < |attachments|
    ensures Drain(AttachmentResults(fs, attachments), order).Ok?
    ensures multiset(Drain(AttachmentResults(fs, attachments), order).value)
            == multiset(WrappedResults(AttachmentResults(fs, attachments)))
  {
    AllAttachmentsRead(fs, attachments);
    DrainPermutation(AttachmentResults(fs, attachments), order);
  }

  lemma AllAttachmentsRead(fs: FileSystem, attachments: seq<Path>)
    requires forall i | 0 <= i < |attachments| :: ReadFile(fs, attachments[i]).Ok?
    ensures forall i | 0 <= i < |attachments| :: AttachmentResults(fs, attachments)[i].Ok?
  {
    forall i | 0 <= i < |attachments|
      ensures AttachmentResults(fs, attachments)[i].Ok?
    {
      assert AttachmentResults(fs, attachments)[i] == ReadAttachment(fs, attachments[i]);
    }
  }

  /**
   * When every attachment can be read, `Raw` decodes to the document that
   * holds the body part and then the attachment parts in drain order.
   */
  lemma MultipartContents(to: seq<byte>, subject: seq<byte>, body: seq<byte>, attachments: seq<Path>,
                          fs: FileSystem, boundary: seq<byte>, qp: seq<byte> -> seq<byte>, order: seq<nat>)
    requires IsDrainOrder(order, |attachments|)
    requires forall i | 0 <= i < |attachments| :: ReadFile(fs, attachments[i]).Ok?
    ensures forall k | 0 <= k < |order| :: order[k] < |attachments|
    ensures Drain(AttachmentResults(fs, attachments), order).Ok?
    ensures MultipartMessage(to, subject, body, attachments, fs, boundary, qp, order).Ok?
    ensures Decode(UrlSafe, MultipartMessage(to, subject, body, attachments, fs, boundary, qp, order).value.raw)
            == Some(MultipartText(to, subject, boundary,
                                  [Part(TextPartFields, qp(body))] + Drain(AttachmentResults(fs, attachments), order).value))
  {
    MultipartParts(fs, attachments, order);
    var text := MultipartText(to, subject, boundary,
                              [Part(TextPartFields, qp(body))] + Drain(AttachmentResults(fs, attachments), order).value);
    RoundTrip(text);
  }

  lemma MultipartHeadersWellFormed(to: seq<byte>, subject: seq<byte>, boundary: seq<byte>)
    requires NoLineBreak(to) && NoLineBreak(subject) && NoLineBreak(boundary)
    ensures WellFormedLines(MultipartHeaders(to, subject, boundary))
  {
    var hs := MultipartHeaders(to, subject, boundary);
    assert NoLineBreak(ToLabel) && NoLineBreak(SubjectLabel);
    assert NoLineBreak(MimeVersionLine) && NoLineBreak(MultipartContentTypeLabel);
    NoLineBreakConcat(ToLabel, to);
    NoLineBreakConcat(SubjectLabel, subject);
    NoLineBreakConcat(MultipartContentTypeLabel, boundary);
    assert hs[0] == ToLabel + to && hs[1] == SubjectLabel + subject;
    assert hs[2] == MimeVersionLine && hs[3] == MultipartContentTypeLabel + boundary;
  }

  /**
   * The multipart document reads back as the top header block -- To,
   * Subject, MIME-Version and the multipart/mixed Content-Type naming the
   * boundary -- followed by the framed parts and the close delimiter.
   */
  lemma MultipartDocument(to: seq<byte>, subject: seq<byte>, boundary: seq<byte>, parts: seq<Part>)
    requires NoLineBreak(to) && NoLineBreak(subject) && NoLineBreak(boundary)
    ensures SplitHeader(MultipartText(to, subject, boundary, parts))
            == Some((MultipartHeaders(to, subject, boundary), Framing(boundary, parts) + CloseDelimiter(boundary)))
    ensures MultipartHeaders(to, subject, boundary)[3] == MultipartContentTypeLabel + boundary
  {
    MultipartHeaderSplit(to, subject, boundary, Framing(boundary, parts) + CloseDelimiter(boundary));
  }

  lemma MultipartHeaderSplit(to: seq<byte>, subject: seq<byte>, boundary: seq<byte>, rest: seq<byte>)
    requires NoLineBreak(to) && NoLineBreak(subject) && NoLineBreak(boundary)
    ensures SplitHeader(MultipartHeaderText(to, subject, boundary) + rest)
            == Some((MultipartHeaders(to, subject, boundary), rest))
  {
    MultipartLayout(to, subject, boundary);
    MultipartHeadersWellFormed(to, subject, boundary);
    SplitHeaderBlock(MultipartHeaders(to, subject, boundary), rest);
  }

  /**
   * The framed parts open with the first delimiter line, "--", the same
   * boundary the top Content-Type names, CRLF.
   */
  lemma {:induction false} FramingStart(boundary: seq<byte>, parts: seq<Part>)
    requires parts != []
    ensures |Framing(boundary, parts)| >= |Delimiter(boundary, true)|
    ensures Framing(boundary, parts)[..|Delimiter(boundary, true)|] == Delimiter(boundary, true)
  {
    var d := Delimiter(boundary, true);
    var init := parts[..|parts| - 1];
    var e := Encapsulation(boundary, |parts| == 1, parts[|parts| - 1]);
    assert Framing(boundary, parts) == Framing(boundary, init) + e;
    if |parts| == 1 {
      assert init == [];
      var tail := HeaderBlock(FieldLines(parts[0].fields)) + parts[0].body;
      assert e == d + tail;
      assert Framing(boundary, parts) == d + tail;
    } else {
      FramingStart(boundary, init);
      var f := Framing(boundary, init);
      assert (f + e)[..|d|] == f[..|d|];
    }
  }

  /** `s` read through the indices in `order`. */
  function Permute<T>(s: seq<T>, order: seq<nat>): (r: seq<T>)
    requires forall k | 0 <= k < |order| :: order[k] < |s|
    ensures |r| == |order| && forall k | 0 <= k < |order| :: r[k] == s[order[k]]
  {
    if order == [] then [] else [s[order[0]]] + Permute(s, order[1..])
  }

  /** `b` without its element at `j`. */
  function Without<T>(b: seq<T>, j: nat): (r: seq<T>)
    requires j < |b|
    ensures |r| == |b| - 1
  {
    b[..j] + b[j + 1..]
  }

  lemma RemoveAt<T>(b: seq<T>, j: nat)
    requires j < |b|
    ensures multiset(b) == multiset(Without(b, j)) + multiset{b[j]}
  {
    assert b == b[..j] + [b[j]] + b[j + 1..];
  }

  lemma WithoutBounds(b: seq<nat>, j: nat, n: nat)
    requires j < |b|
    requires forall k | 0 <= k < |b| :: b[k] < n
    ensures forall k | 0 <= k < |Without(b, j)| :: Without(b, j)[k] < n
  {
    forall k | 0 <= k < |Without(b, j)|
      ensures Without(b, j)[k] < n
    {
      if k < j {
        assert Without(b, j)[k] == b[k];
      } else {
        assert Without(b, j)[k] == b[k + 1];
      }
    }
  }

  lemma PermuteWithout<T>(s: seq<T>, b: seq<nat>, j: nat)
    requires j < |b|
    requires forall k | 0 <= k < |b| :: b[k] < |s|
    ensures forall k | 0 <= k < |Without(b, j)| :: Without(b, j)[k] < |s|
    ensures multiset(Permute(s, b)) == multiset(Permute(s, Without(b, j))) + multiset{s[b[j]]}
  {
    WithoutBounds(b, j, |s|);
    assert Without(Permute(s, b), j) == Permute(s, Without(b, j));
    RemoveAt(Permute(s, b), j);
  }

  lemma PermuteFirst<T>(s: seq<T>, a: seq<nat>)
    requires a != []
    requires forall k | 0 <= k < |a| :: a[k] < |s|
    ensures multiset(Permute(s, a)) == multiset(Permute(s, a[1..])) + multiset{s[a[0]]}
  {
    var x, rest := s[a[0]], Permute(s, a[1..]);
    assert Permute(s, a) == [x] + rest;
    assert multiset([x] + rest) == multiset([x]) + multiset(rest);
    assert multiset([x]) == multiset{x};
  }

  lemma MultisetCancel<T>(a: multiset<T>, b: multiset<T>, c: multiset<T>)
    requires a + c == b + c
    ensures a == b
  {
    forall e
      ensures a[e] == b[e]
    {
      assert (a + c)[e] == (b + c)[e];
    }
  }

  /** The position in `b` of the first index of `a`, and the same multiset once it is taken out of both. */
  lemma MatchFirst(a: seq<nat>, b: seq<nat>) returns (j: nat)
    requires a != [] && multiset(a) == multiset(b)
    ensures j < |b| && b[j] == a[0]
    ensures multiset(a[1..]) == multiset(Without(b, j))
  {
    var x := a[0];
    assert multiset(a) == multiset(a[1..]) + multiset{x} by {
      assert a == [x] + a[1..];
    }
    assert x in b by {
      assert x in multiset(b);
    }
    j :| 0 <= j < |b| && b[j] == x;
    RemoveAt(b, j);
    MultisetCancel(multiset(a[1..]), multiset(Without(b, j)), multiset{x});
  }

  /** Reading a sequence through index lists with the same multiset gives the same multiset. */
  lemma {:induction false} PermutedMultisetGeneral<T>(s: seq<T>, a: seq<nat>, b: seq<nat>)
    requires multiset(a) == multiset(b)
    requires forall k | 0 <= k < |a| :: a[k] < |s|
    requires forall k | 0 <= k < |b| :: b[k] < |s|
    ensures multiset(Permute(s, a)) == multiset(Permute(s, b))
    decreases |a|
  {
    if a == [] {
      assert |b| == |multiset(b)| == 0;
    } else {
      var j := MatchFirst(a, b);
      var rest := Without(b, j);
      PermuteWithout(s, b, j);
      PermuteFirst(s, a);
      PermutedMultisetGeneral(s, a[1..], rest);
    }
  }

  /** Reading a sequence through a permutation of its indices keeps its multiset. */
  lemma PermutedMultiset<T>(s: seq<T>, order: seq<nat>)
    requires IsDrainOrder(order, |s|)
    ensures forall k | 0 <= k < |order| :: order[k] < |s|
    ensures multiset(Permute(s, order)) == multiset(s)
  {
    DrainOrderBounds(order, |s|);
    PermutedMultisetGeneral(s, order, Indices(|s|));
    assert Permute(s, Indices(|s|)) == s;
  }

  // ------------------------------------------------------------ the writer, imperatively

  /** The `bytes.Buffer` the message is written into. */
  class Buffer {
    var bytes: seq<byte>

    constructor ()
      ensures bytes == []
    {
      bytes := [];
    }

    method WriteString(s: seq<byte>)
      modifies this
      ensures bytes == old(bytes) + s
    {
      bytes := bytes + s;
    }
  }

  /**
   * `multipart.Writer` over a buffer: each part opens with its delimiter
   * line and header block, its body is written through the part, and
   * `Close` writes the close delimiter. `parts` counts the parts created.
   */
  class MultipartWriter {
    const buf: Buffer
    const boundary: seq<byte>
    var parts: nat

    constructor (buf: Buffer, boundary: seq<byte>)
      ensures this.buf == buf && this.boundary == boundary && parts == 0
    {
      this.buf := buf;
      this.boundary := boundary;
      parts := 0;
    }

    method CreatePart(fields: seq<Field>)
      modifies this, buf
      ensures buf.bytes == old(buf.bytes) + Delimiter(boundary, old(parts) == 0) + HeaderBlock(FieldLines(fields))
      ensures parts == old(parts) + 1
    {
      buf.WriteString(Delimiter(boundary, parts == 0) + HeaderBlock(FieldLines(fields)));
      parts := parts + 1;
    }

    /** A write through the writer of the part created last. */
    method Write(data: seq<byte>)
      requires parts > 0
      modifies buf
      ensures buf.bytes == old(buf.bytes) + data
    {
      buf.WriteString(data);
    }

    method Close()
      modifies buf
      ensures buf.bytes == old(buf.bytes) + CloseDelimiter(boundary)
    {
      buf.WriteString(CloseDelimiter(boundary));
    }
  }

  /** The loop that writes an encoded body as lines of at most 76 bytes, each followed by CRLF. */
  method WriteWrapped(w: MultipartWriter, body: seq<byte>)
    requires w.parts > 0
    modifies w.buf
    ensures w.buf.bytes == old(w.buf.bytes) + Wrap(body)
  {
    var i := 0;
    while i < |body|
      invariant 0 <= i
      invariant old(w.buf.bytes) + Wrap(body) == w.buf.bytes + Wrap(body[if i < |body| then i else |body|..])
    {
      var end := i + LineLength;
      if end > |body| {
        end := |body|;
      }
      ChunksStep(body[i..]);
      assert body[i..][..end - i] == body[i..end] && body[i..][end - i..] == body[end..];
      w.Write(body[i..end]);
      w.Write(CRLF);
      i := i + LineLength;
    }
  }

  /** One pass of the drain loop that writes a part: a new part of the writer, then its body wrapped. */
  method WriteAttachmentPart(writer: MultipartWriter, part: Part)
    modifies writer, writer.buf
    ensures writer.parts == old(writer.parts) + 1
    ensures writer.buf.bytes == old(writer.buf.bytes) + Encapsulation(writer.boundary, old(writer.parts) == 0, Wrapped(part))
  {
    writer.CreatePart(part.fields);
    WriteWrapped(writer, part.body);
  }

  /**
   * The `for part := range results` loop of `buildMessageWithAttachments`:
   * each result in drain order becomes a new part of the writer, until a
   * failed read stops it (the source panics there). `header` and `first`
   * stand for what the buffer holds before the loop.
   */
  method WriteDrained(writer: MultipartWriter, results: seq<Result<Part, Path>>, order: seq<nat>,
                      ghost header: seq<byte>, ghost first: Part)
    returns (r: Result<seq<Part>, Path>)
    requires forall j | 0 <= j < |order| :: order[j] < |results|
    requires writer.parts == 1
    requires writer.buf.bytes == header + Framing(writer.boundary, [first])
    modifies writer, writer.buf
    ensures r == Drain(results, order)
    ensures r.Ok? ==> writer.buf.bytes == header + Framing(writer.boundary, [first] + r.value)
  {
    var drained: seq<Part> := [];
    DrainStart(results, order);
    for k := 0 to |order|
      invariant writer.parts == k + 1
      invariant writer.buf.bytes == header + Framing(writer.boundary, [first] + drained)
      invariant Drain(results, order) == Prepend(drained, Drain(results, order[k..]))
    {
      DrainStep(results, order, k, drained);
      match results[order[k]]
      case Err(p) =>
        return Err(p);
      case Ok(part) =>
        WriteAttachmentPart(writer, part);
        FramingAppend(header, writer.boundary, first, drained, Wrapped(part));
        drained := drained + [Wrapped(part)];
    }
    DrainEnd(results, order, drained);
    r := Ok(drained);
  }

  /**
   * `buildMessageWithAttachments`: the top header block, the quoted-printable
   * body part, one part per attachment in the order its goroutine's result
   * is drained, the close delimiter, all base64url-encoded. A failed read
   * ends the build with the failing path (the source panics there).
   * `boundary` is the writer's random boundary, `qp` the quoted-printable
   * encoder and `order` the channel's delivery order.
   */
  method BuildMessageWithAttachments(to: seq<byte>, subject: seq<byte>, body: seq<byte>, attachments: seq<Path>,
                                     fs: FileSystem, boundary: seq<byte>, qp: seq<byte> -> seq<byte>, order: seq<nat>)
    returns (r: Result<Message, Path>)
    requires IsDrainOrder(order, |attachments|)
    ensures r == MultipartMessage(to, subject, body, attachments, fs, boundary, qp, order)
  {
    DrainOrderBounds(order, |attachments|);
    var buf := new Buffer();
    var writer := new MultipartWriter(buf, boundary);
    var header := MultipartHeaderText(to, subject, boundary);
    buf.WriteString(header);
    assert buf.bytes == header;

    var textPart := Part(TextPartFields, qp(body));
    writer.CreatePart(TextPartFields);
    writer.Write(qp(body));
    FramingOne(header, boundary, textPart);

    var results: seq<Result<Part, Path>> := [];
    for i := 0 to |attachments|
      invariant results == AttachmentResults(fs, attachments)[..i]
    {
      results := results + [ReadAttachment(fs, attachments[i])];
    }
    assert results == AttachmentResults(fs, attachments);

    var drained := WriteDrained(writer, results, order, header, textPart);
    if drained.Err? {
      return Err(drained.error);
    }
    writer.Close();
    Associate(header, Framing(boundary, [textPart] + drained.value), CloseDelimiter(boundary));
    r := Ok(Message(EncodeURLSafeBase64(buf.bytes)));
  }

  lemma Associate(a: seq<byte>, b: seq<byte>, c: seq<byte>)
    ensures a + b + c == a + (b + c)
  {
  }

  lemma FramingOne(header: seq<byte>, boundary: seq<byte>, p: Part)
    ensures header + Framing(boundary, [p]) == header + Delimiter(boundary, true) + HeaderBlock(FieldLines(p.fields)) + p.body
  {
    assert [p][..0] == [];
  }

  lemma FramingAppend(header: seq<byte>, boundary: seq<byte>, first: Part, parts: seq<Part>, p: Part)
    ensures header + Framing(boundary, [first] + (parts + [p]))
            == header + Framing(boundary, [first] + parts) + Encapsulation(boundary, false, p)
  {
    assert [first] + (parts + [p]) == ([first] + parts) + [p];
    assert (([first] + parts) + [p])[..|parts| + 1] == [first] + parts;
  }

  lemma DrainStart(results: seq<Result<Part, Path>>, order: seq<nat>)
    requires forall j | 0 <= j < |order| :: order[j] < |results|
    ensures Drain(results, order) == Prepend([], Drain(results, order[0..]))
  {
    assert order[0..] == order;
    if Drain(results, order).Ok? {
      assert [] + Drain(results, order).value == Drain(results, order).value;
    }
  }

  /** One step of the drain loop: a failed result ends the drain with its path, a part joins the drained ones. */
  lemma DrainStep(results: seq<Result<Part, Path>>, order: seq<nat>, k: nat, drained: seq<Part>)
    requires k < |order|
    requires forall j | 0 <= j < |order| :: order[j] < |results|
    ensures results[order[k]].Err? ==> Prepend(drained, Drain(results, order[k..])) == Err(results[order[k]].error)
    ensures results[order[k]].Ok? ==>
      Prepend(drained, Drain(results, order[k..]))
      == Prepend(drained + [Wrapped(results[order[k]].value)], Drain(results, order[k + 1..]))
  {
    assert order[k..][0] == order[k] && order[k..][1..] == order[k + 1..];
    var rest := Drain(results, order[k + 1..]);
    if results[order[k]].Ok? && rest.Ok? {
      var w := Wrapped(results[order[k]].value);
      assert drained + ([w] + rest.value) == drained + [w] + rest.value;
    }
  }

  lemma DrainEnd(results: seq<Result<Part, Path>>, order: seq<nat>, drained: seq<Part>)
    requires forall j | 0 <= j < |order| :: order[j] < |results|
    requires Drain(results, order) == Prepend(drained, Drain(results, order[|order|..]))
    ensures Drain(results, order) == Ok(drained)
  {
    assert order[|order|..] == [];
    assert drained + [] == drained;
  }
}
