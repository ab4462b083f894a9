/** The `/v1/messages` handler (app.js): it sends a first message, then the
    PDF and the XML attachments through temporary files, then the footer.
    The file system and the WhatsApp provider are a `Host` whose files are a
    map and whose sends are logged; whether the n-th send succeeds is a
    fixed oracle `delivers(n)`. */
module MessagesHandler {
  import opened Wrappers
  import opened ByteText
  import opened Base64
  import opened MessageText

  /** The JSON body; a field that is missing, null or empty is "". */
  datatype Request = Request(number: string, message: string, pdf: string, xml: string, customerName: string)

  /** Files in the working directory: the two temporary names, `factura_pdf_<ts>.pdf`
      and `factura_xml_<ts>.xml`, and everything else. */
  datatype Path = PdfTemp(stamp: int) | XmlTemp(stamp: int) | Other(name: string)

  datatype Content = Binary(bytes: seq<Byte>) | Text(text: string)

  /** The `media` option of `sendMessage`: none, a file path, or the
      request's own string passed on as a location. */
  datatype Media = NoMedia | Attachment(path: Path) | Reference(location: string)

  /** A message the provider accepted, with the content of the attached
      file at the time of sending. */
  datatype Outgoing = Outgoing(to: string, text: string, media: Media, payload: Option<Content>)

  /** Why the request failed: a send threw, or the XML was refused. */
  datatype Failure = SendFailed | XmlRefused(error: XmlError)

  /** The response: 200 with `Mensaje enviado exitosamente a <number>`, or
      500 with `Error enviando mensaje: <error message>`. */
  datatype Reply = Sent(number: string) | Failed(cause: Failure)

  function StatusCode(r: Reply): int
  {
    if r.Sent? then 200 else 500
  }

  const SuccessPrefix: string := "Mensaje enviado exitosamente a "
  const ErrorPrefix: string := "Error enviando mensaje: "

  /** The `message` field of the JSON response; `sendError` is the message
      of the error a failed send threw. A reader can tell success from
      failure by the prefix alone. */
  function ResponseMessage(r: Reply, sendError: string): (m: string)
    ensures StartsWith(m, SuccessPrefix) <==> StatusCode(r) == 200
    ensures StartsWith(m, ErrorPrefix) <==> StatusCode(r) == 500
  {
    match r
    case Sent(number) =>
      assert (SuccessPrefix + number)[..|SuccessPrefix|] == SuccessPrefix;
      assert (SuccessPrefix + number)[0] != ErrorPrefix[0];
      SuccessPrefix + number
    case Failed(cause) =>
      var text := if cause.XmlRefused? then XmlErrorMessage(cause.error) else sendError;
      assert (ErrorPrefix + text)[..|ErrorPrefix|] == ErrorPrefix;
      assert (ErrorPrefix + text)[0] != SuccessPrefix[0];
      ErrorPrefix + text
  }

  /** What a send carries for its media. */
  function Payload(files: map<Path, Content>, media: Media): Option<Content>
  {
    if media.Attachment? && media.path in files then Some(files[media.path]) else None
  }

  /** `a` keeps a subset of `b`'s files, each with the content it has in `b`. */
  predicate SubMap(a: map<Path, Content>, b: map<Path, Content>)
  {
    forall p :: p in a ==> p in b && a[p] == b[p]
  }

  /** The working directory and the provider. */
  class Host {
    var files: map<Path, Content>
    var sent: seq<Outgoing>
    var attempts: nat
    const delivers: nat -> bool

    constructor (files0: map<Path, Content>, delivers: nat -> bool)
      ensures files == files0 && sent == [] && attempts == 0 && this.delivers == delivers
    {
      files := files0;
      sent := [];
      attempts := 0;
      this.delivers := delivers;
    }

    /** `writeFileSync(path, content)`. */
    method WriteFile(path: Path, content: Content)
      modifies this
      ensures files == old(files)[path := content]
      ensures sent == old(sent) && attempts == old(attempts)
    {
      files := files[path := content];
    }

    /** `if (existsSync(path)) unlinkSync(path)`. */
    method RemoveIfExists(path: Path)
      modifies this
      ensures files == old(files) - {path}
      ensures sent == old(sent) && attempts == old(attempts)
    {
      if path in files {
        files := files - {path};
      }
    }

    /** `bot.sendMessage(to, text, {media})`: it succeeds or throws, as the
        oracle says for this attempt. */
    method SendMessage(to: string, text: string, media: Media) returns (ok: bool)
      modifies this
      ensures ok == delivers(old(attempts)) && attempts == old(attempts) + 1
      ensures sent == old(sent) + (if ok then [Outgoing(to, text, media, Payload(files, media))] else [])
      ensures files == old(files)
    {
      ok := delivers(attempts);
      if ok {
        sent := sent + [Outgoing(to, text, media, Payload(files, media))];
      }
      attempts := attempts + 1;
    }
  }

  /** The PDF send: canonical base64 goes out as a file holding the decoded
      bytes; anything else is passed on as the media location. */
  function PdfOutgoing(number: string, pdf: string, stamp: int): Outgoing
  {
    if IsValidBase64(pdf) then Outgoing(number, "", Attachment(PdfTemp(stamp)), Some(Binary(Decode(pdf))))
    else Outgoing(number, "", Reference(pdf), None)
  }

  /** The XML send: a file holding the accepted text. */
  function XmlOutgoing(number: string, text: string, stamp: int): Outgoing
  {
    Outgoing(number, "", Attachment(XmlTemp(stamp)), Some(Text(text)))
  }

  /** The PDF block. The temporary file is removed after the send and, when
      the send throws, in the catch before rethrowing; there, a file left at
      the same name is removed even on the location branch. */
  method SendPdf(host: Host, number: string, pdf: string, stamp: int) returns (ok: bool)
    modifies host
    ensures ok == host.delivers(old(host.attempts)) && host.attempts == old(host.attempts) + 1
    ensures host.sent == old(host.sent) + (if ok then [PdfOutgoing(number, pdf, stamp)] else [])
    ensures host.files ==
      if IsValidBase64(pdf) || !ok then old(host.files) - {PdfTemp(stamp)} else old(host.files)
  {
    var pdfFilePath := PdfTemp(stamp);
    if IsValidBase64(pdf) {
      host.WriteFile(pdfFilePath, Binary(Decode(pdf)));
      ok := host.SendMessage(number, "", Attachment(pdfFilePath));
      host.RemoveIfExists(pdfFilePath);
      assert host.files == old(host.files)[pdfFilePath := Binary(Decode(pdf))] - {pdfFilePath};
    } else {
      ok := host.SendMessage(number, "", Reference(pdf));
      if !ok {
        host.RemoveIfExists(pdfFilePath);
      }
    }
  }

  /** Writing, sending and removing the XML file. */
  method SendXmlFile(host: Host, number: string, text: string, stamp: int) returns (ok: bool)
    modifies host
    ensures ok == host.delivers(old(host.attempts)) && host.attempts == old(host.attempts) + 1
    ensures host.sent == old(host.sent) + (if ok then [XmlOutgoing(number, text, stamp)] else [])
    ensures host.files == old(host.files) - {XmlTemp(stamp)}
  {
    var xmlFilePath := XmlTemp(stamp);
    host.WriteFile(xmlFilePath, Text(text));
    ok := host.SendMessage(number, "", Attachment(xmlFilePath));
    host.RemoveIfExists(xmlFilePath);
    assert host.files == old(host.files)[xmlFilePath := Text(text)] - {xmlFilePath};
  }

  /** The XML block. A refused text throws before anything is written; the
      temporary name is removed on every path. */
  method SendXml(host: Host, number: string, xml: string, stamp: int, utf8: seq<Byte> -> string)
    returns (failure: Option<Failure>)
    modifies host
    ensures var c := XmlContent(xml, utf8);
      && (c.Failure? ==>
            failure == Some(XmlRefused(c.error)) && host.sent == old(host.sent) && host.attempts == old(host.attempts))
      && (c.Success? ==>
            && host.attempts == old(host.attempts) + 1
            && failure == (if host.delivers(old(host.attempts)) then None else Some(SendFailed))
            && host.sent == old(host.sent) + (if failure.None? then [XmlOutgoing(number, c.value, stamp)] else []))
    ensures host.files == old(host.files) - {XmlTemp(stamp)}
  {
    var content := XmlContent(xml, utf8);
    if content.Failure? {
      host.RemoveIfExists(XmlTemp(stamp));
      return Some(XmlRefused(content.error));
    }
    var ok := SendXmlFile(host, number, content.value, stamp);
    failure := if ok then None else Some(SendFailed);
  }

  /** The footer, built with `+=` as the handler builds it. */
  method BuildFooter(customerName: string) returns (footerMessage: string)
    ensures footerMessage == Footer(customerName)
  {
    footerMessage := Rule + "\n";
    footerMessage := footerMessage + SentFromLine;
    footerMessage := footerMessage + ProductLine;
    if customerName != "" {
      footerMessage := footerMessage + SignatureLine(customerName);
    }
    footerMessage := footerMessage + MoreInfoLine;
    footerMessage := footerMessage + Rule;
  }

  /** What a part of the handler sends when every send succeeds, in order,
      and the refusal, if any, that ends it early. */
  datatype Plan = Plan(sends: seq<Outgoing>, refusal: Option<XmlError>)

  /** The first message, always sent first. */
  function FirstOutgoing(req: Request): Outgoing
  {
    Outgoing(req.number, FinalMessage(req.message), NoMedia, None)
  }

  /** The PDF block, then the XML block; a refused XML stops the handler. */
  function AttachmentPlan(req: Request, pdfStamp: int, xmlStamp: int, utf8: seq<Byte> -> string): Plan
  {
    var pdfPart := if req.pdf != "" then [PdfOutgoing(req.number, req.pdf, pdfStamp)] else [];
    if req.xml == "" then Plan(pdfPart, None)
    else match XmlContent(req.xml, utf8)
      case Failure(e) => Plan(pdfPart, Some(e))
      case Success(text) => Plan(pdfPart + [XmlOutgoing(req.number, text, xmlStamp)], None)
  }

  /** The message a second time when there is neither PDF nor XML, then the
      footer. */
  function ClosingSends(req: Request): seq<Outgoing>
  {
    (if req.pdf == "" && req.xml == "" && req.message != "" then [Outgoing(req.number, req.message, NoMedia, None)] else [])
    + [Outgoing(req.number, Footer(req.customerName), NoMedia, None)]
  }

  /** Everything after the first message: the attachments and, unless the
      XML is refused, the closing sends. */
  function RestPlan(req: Request, pdfStamp: int, xmlStamp: int, utf8: seq<Byte> -> string): Plan
  {
    var att := AttachmentPlan(req, pdfStamp, xmlStamp, utf8);
    if att.refusal.Some? then att else Plan(att.sends + ClosingSends(req), None)
  }

  /** The whole request. */
  function PlanFor(req: Request, pdfStamp: int, xmlStamp: int, utf8: seq<Byte> -> string): Plan
  {
    var rest := RestPlan(req, pdfStamp, xmlStamp, utf8);
    Plan([FirstOutgoing(req)] + rest.sends, rest.refusal)
  }

  /** How many of `n` sends starting at attempt `from` succeed before the
      first one that throws. */
  function Delivered(delivers: nat -> bool, from: nat, n: nat): (k: nat)
    ensures k <= n
    ensures forall j :: from <= j < from + k ==> delivers(j)
    ensures k < n ==> !delivers(from + k)
    decreases n
  {
    if n == 0 || !delivers(from) then 0 else 1 + Delivered(delivers, from + 1, n - 1)
  }

  /** The count is determined by the first failing attempt. */
  lemma {:induction false} DeliveredExactly(delivers: nat -> bool, from: nat, n: nat, k: nat)
    requires k <= n
    requires forall j :: from <= j < from + k ==> delivers(j)
    requires k < n ==> !delivers(from + k)
    ensures Delivered(delivers, from, n) == k
    decreases n
  {
    if n > 0 && delivers(from) {
      DeliveredExactly(delivers, from + 1, n - 1, k - 1);
    }
  }

  /** Sends in sequence: the second run starts only when the first went
      through entirely. */
  lemma DeliveredAppend(delivers: nat -> bool, from: nat, m: nat, n: nat)
    ensures Delivered(delivers, from, m + n) ==
      if Delivered(delivers, from, m) < m then Delivered(delivers, from, m)
      else m + Delivered(delivers, from + m, n)
  {
    var dm := Delivered(delivers, from, m);
    if dm < m {
      DeliveredExactly(delivers, from, m + n, dm);
    } else {
      DeliveredExactly(delivers, from, m + n, m + Delivered(delivers, from + m, n));
    }
  }

  /** `sends` ran from attempt `a0` with log `s0` to attempt `a1` with log
      `s1`: the sends before the first failure are logged, and the failing
      one was attempted. */
  ghost predicate Ran(delivers: nat -> bool, a0: nat, s0: seq<Outgoing>, a1: nat, s1: seq<Outgoing>, sends: seq<Outgoing>)
  {
    var d := Delivered(delivers, a0, |sends|);
    s1 == s0 + sends[..d] && a1 == a0 + (if d < |sends| then d + 1 else d)
  }

  lemma RanOne(delivers: nat -> bool, a0: nat, s0: seq<Outgoing>, m: Outgoing, ok: bool)
    requires ok == delivers(a0)
    ensures Ran(delivers, a0, s0, a0 + 1, s0 + (if ok then [m] else []), [m])
    ensures Delivered(delivers, a0, 1) == if ok then 1 else 0
  {
    DeliveredExactly(delivers, a0, 1, if ok then 1 else 0);
  }

  lemma RanNothing(delivers: nat -> bool, a0: nat, s0: seq<Outgoing>)
    ensures Ran(delivers, a0, s0, a0, s0, [])
  {
  }

  lemma RanThen(delivers: nat -> bool, a0: nat, s0: seq<Outgoing>, a1: nat, s1: seq<Outgoing>,
                a2: nat, s2: seq<Outgoing>, x: seq<Outgoing>, y: seq<Outgoing>)
    requires Ran(delivers, a0, s0, a1, s1, x) && Delivered(delivers, a0, |x|) == |x|
    requires Ran(delivers, a1, s1, a2, s2, y)
    ensures Ran(delivers, a0, s0, a2, s2, x + y)
    ensures Delivered(delivers, a0, |x + y|) == |x| + Delivered(delivers, a1, |y|)
  {
    DeliveredAppend(delivers, a0, |x|, |y|);
    assert x[..|x|] == x;
    assert a1 == a0 + |x|;
    TakeAcross(s0, x, y, Delivered(delivers, a1, |y|));
  }

  lemma TakeAcross(s0: seq<Outgoing>, x: seq<Outgoing>, y: seq<Outgoing>, k: nat)
    requires k <= |y|
    ensures s0 + x + y[..k] == s0 + (x + y)[..|x| + k]
  {
    assert (x + y)[..|x| + k] == x + y[..k];
  }

  lemma RanStopped(delivers: nat -> bool, a0: nat, s0: seq<Outgoing>, a1: nat, s1: seq<Outgoing>,
                   x: seq<Outgoing>, y: seq<Outgoing>)
    requires Ran(delivers, a0, s0, a1, s1, x) && Delivered(delivers, a0, |x|) < |x|
    ensures Ran(delivers, a0, s0, a1, s1, x + y)
    ensures Delivered(delivers, a0, |x + y|) == Delivered(delivers, a0, |x|)
  {
    DeliveredAppend(delivers, a0, |x|, |y|);
    var d := Delivered(delivers, a0, |x|);
    assert (x + y)[..d] == x[..d];
  }

  /** The PDF and XML blocks. */
  method SendAttachments(host: Host, req: Request, pdfStamp: int, xmlStamp: int, utf8: seq<Byte> -> string)
    returns (failure: Option<Failure>)
    modifies host
    ensures var att := AttachmentPlan(req, pdfStamp, xmlStamp, utf8);
      var d := Delivered(host.delivers, old(host.attempts), |att.sends|);
      && Ran(host.delivers, old(host.attempts), old(host.sent), host.attempts, host.sent, att.sends)
      && failure == (if d < |att.sends| then Some(SendFailed)
                     else if att.refusal.Some? then Some(XmlRefused(att.refusal.value)) else None)
      && (req.pdf != "" && IsValidBase64(req.pdf) ==> PdfTemp(pdfStamp) !in host.files)
      && (req.xml != "" && (req.pdf == "" || d >= 1) ==> XmlTemp(xmlStamp) !in host.files)
    ensures SubMap(host.files, old(host.files))
    ensures forall p :: p in old(host.files) && p != PdfTemp(pdfStamp) && p != XmlTemp(xmlStamp) ==> p in host.files
  {
    ghost var a0, s0 := host.attempts, host.sent;
    ghost var pdfPart: seq<Outgoing> := [];
    if req.pdf != "" {
      var ok := SendPdf(host, req.number, req.pdf, pdfStamp);
      pdfPart := [PdfOutgoing(req.number, req.pdf, pdfStamp)];
      RanOne(host.delivers, a0, s0, pdfPart[0], ok);
      if !ok {
        RanStopped(host.delivers, a0, s0, host.attempts, host.sent, pdfPart, AttachmentPlan(req, pdfStamp, xmlStamp, utf8).sends[1..]);
        assert pdfPart + AttachmentPlan(req, pdfStamp, xmlStamp, utf8).sends[1..] == AttachmentPlan(req, pdfStamp, xmlStamp, utf8).sends;
        return Some(SendFailed);
      }
    } else {
      RanNothing(host.delivers, a0, s0);
    }
    if req.xml != "" {
      ghost var a1, s1 := host.attempts, host.sent;
      failure := SendXml(host, req.number, req.xml, xmlStamp, utf8);
      var content := XmlContent(req.xml, utf8);
      if content.Success? {
        ghost var m := XmlOutgoing(req.number, content.value, xmlStamp);
        RanOne(host.delivers, a1, s1, m, failure.None?);
        RanThen(host.delivers, a0, s0, a1, s1, host.attempts, host.sent, pdfPart, [m]);
      }
    } else {
      failure := None;
    }
  }

  /** The closing sends. */
  method SendClosing(host: Host, req: Request) returns (ok: bool)
    modifies host
    ensures Ran(host.delivers, old(host.attempts), old(host.sent), host.attempts, host.sent, ClosingSends(req))
    ensures ok <==> Delivered(host.delivers, old(host.attempts), |ClosingSends(req)|) == |ClosingSends(req)|
    ensures host.files == old(host.files)
  {
    ghost var a0, s0 := host.attempts, host.sent;
    ghost var again: seq<Outgoing> := [];
    if req.pdf == "" && req.xml == "" && req.message != "" {
      again := [Outgoing(req.number, req.message, NoMedia, None)];
      ok := host.SendMessage(req.number, req.message, NoMedia);
      RanOne(host.delivers, a0, s0, again[0], ok);
      if !ok {
        RanStopped(host.delivers, a0, s0, host.attempts, host.sent, again, [Outgoing(req.number, Footer(req.customerName), NoMedia, None)]);
        return;
      }
    } else {
      RanNothing(host.delivers, a0, s0);
    }
    ghost var a1, s1 := host.attempts, host.sent;
    var footerMessage := BuildFooter(req.customerName);
    ok := host.SendMessage(req.number, footerMessage, NoMedia);
    RanOne(host.delivers, a1, s1, Outgoing(req.number, footerMessage, NoMedia, None), ok);
    RanThen(host.delivers, a0, s0, a1, s1, host.attempts, host.sent, again, [Outgoing(req.number, footerMessage, NoMedia, None)]);
  }

  /** The handler after its first message. */
  method SendRest(host: Host, req: Request, pdfStamp: int, xmlStamp: int, utf8: seq<Byte> -> string)
    returns (failure: Option<Failure>)
    modifies host
    ensures var rest := RestPlan(req, pdfStamp, xmlStamp, utf8);
      var d := Delivered(host.delivers, old(host.attempts), |rest.sends|);
      && Ran(host.delivers, old(host.attempts), old(host.sent), host.attempts, host.sent, rest.sends)
      && failure == (if d < |rest.sends| then Some(SendFailed)
                     else if rest.refusal.Some? then Some(XmlRefused(rest.refusal.value)) else None)
      && (req.pdf != "" && IsValidBase64(req.pdf) ==> PdfTemp(pdfStamp) !in host.files)
      && (req.xml != "" && (req.pdf == "" || d >= 1) ==> XmlTemp(xmlStamp) !in host.files)
    ensures SubMap(host.files, old(host.files))
    ensures forall p :: p in old(host.files) && p != PdfTemp(pdfStamp) && p != XmlTemp(xmlStamp) ==> p in host.files
  {
    ghost var a0, s0 := host.attempts, host.sent;
    ghost var att := AttachmentPlan(req, pdfStamp, xmlStamp, utf8);
    failure := SendAttachments(host, req, pdfStamp, xmlStamp, utf8);
    if failure.Some? {
      if failure.value == SendFailed {
        RanStopped(host.delivers, a0, s0, host.attempts, host.sent, att.sends, ClosingSends(req));
      }
      return;
    }
    ghost var a1, s1 := host.attempts, host.sent;
    var ok := SendClosing(host, req);
    RanThen(host.delivers, a0, s0, a1, s1, host.attempts, host.sent, att.sends, ClosingSends(req));
    failure := if ok then None else Some(SendFailed);
  }

  /** The reply for a plan whose first `d` sends succeeded. */
  function Outcome(req: Request, plan: Plan, d: nat): Reply
  {
    if d < |plan.sends| then Failed(SendFailed)
    else if plan.refusal.Some? then Failed(XmlRefused(plan.refusal.value))
    else Sent(req.number)
  }

  /** The handler. `pdfStamp` and `xmlStamp` are the two `Date.now()`
      readings, `utf8` is `toString('utf8')`. Every file it writes is gone
      when it returns, on success and on failure alike. */
  method HandleMessages(host: Host, req: Request, pdfStamp: int, xmlStamp: int, utf8: seq<Byte> -> string)
    returns (reply: Reply)
    modifies host
    ensures var plan := PlanFor(req, pdfStamp, xmlStamp, utf8);
      var d := Delivered(host.delivers, old(host.attempts), |plan.sends|);
      && Ran(host.delivers, old(host.attempts), old(host.sent), host.attempts, host.sent, plan.sends)
      && reply == Outcome(req, plan, d)
      && (d >= 1 && req.pdf != "" && IsValidBase64(req.pdf) ==> PdfTemp(pdfStamp) !in host.files)
      && (req.xml != "" && d >= (if req.pdf != "" then 2 else 1) ==> XmlTemp(xmlStamp) !in host.files)
    ensures SubMap(host.files, old(host.files))
    ensures forall p :: p in old(host.files) && p != PdfTemp(pdfStamp) && p != XmlTemp(xmlStamp) ==> p in host.files
  {
    ghost var a0, s0 := host.attempts, host.sent;
    ghost var rest := RestPlan(req, pdfStamp, xmlStamp, utf8);
    ghost var first := [FirstOutgoing(req)];

    var finalMessage := FinalMessage(req.message);
    var ok := host.SendMessage(req.number, finalMessage, NoMedia);
    RanOne(host.delivers, a0, s0, first[0], ok);
    if !ok {
      RanStopped(host.delivers, a0, s0, host.attempts, host.sent, first, rest.sends);
      return Failed(SendFailed);
    }
    ghost var a1, s1 := host.attempts, host.sent;
    var failure := SendRest(host, req, pdfStamp, xmlStamp, utf8);
    RanThen(host.delivers, a0, s0, a1, s1, host.attempts, host.sent, first, rest.sends);
    reply := if failure.None? then Sent(req.number) else Failed(failure.value);
  }

  /** The closing sends are the footer, preceded by the message a second
      time exactly when there is neither PDF nor XML and the message is not
      empty. */
  lemma ClosingShape(req: Request)
    ensures var closing := ClosingSends(req);
      && closing[|closing| - 1] == Outgoing(req.number, Footer(req.customerName), NoMedia, None)
      && (|closing| == 2 <==> req.pdf == "" && req.xml == "" && req.message != "")
      && (|closing| == 2 ==> closing[0] == Outgoing(req.number, req.message, NoMedia, None))
  {
  }

  /** The attachments: the PDF send when there is a PDF, then the XML send
      when the XML is accepted; a refusal exactly when the XML is refused. */
  lemma AttachmentShape(req: Request, pdfStamp: int, xmlStamp: int, utf8: seq<Byte> -> string)
    ensures var att := AttachmentPlan(req, pdfStamp, xmlStamp, utf8);
      var accepted := req.xml != "" && XmlContent(req.xml, utf8).Success?;
      && |att.sends| == (if req.pdf != "" then 1 else 0) + (if accepted then 1 else 0)
      && (req.pdf != "" ==> att.sends[0] == PdfOutgoing(req.number, req.pdf, pdfStamp))
      && (accepted ==> att.sends[|att.sends| - 1] == XmlOutgoing(req.number, XmlContent(req.xml, utf8).value, xmlStamp))
      && (att.refusal.Some? <==> req.xml != "" && XmlContent(req.xml, utf8).Failure?)
  {
  }

  /** The sends after the first message: the attachments and, unless the
      XML is refused, the closing sends, the footer last. */
  lemma RestShape(req: Request, pdfStamp: int, xmlStamp: int, utf8: seq<Byte> -> string)
    ensures var rest := RestPlan(req, pdfStamp, xmlStamp, utf8);
      var att := AttachmentPlan(req, pdfStamp, xmlStamp, utf8);
      && rest.refusal == att.refusal
      && |rest.sends| == |att.sends| + (if rest.refusal.Some? then 0 else |ClosingSends(req)|)
      && (req.pdf != "" ==> rest.sends[0] == PdfOutgoing(req.number, req.pdf, pdfStamp))
      && (rest.refusal.None? ==>
            rest.sends[|rest.sends| - 1] == Outgoing(req.number, Footer(req.customerName), NoMedia, None))
  {
    var att := AttachmentPlan(req, pdfStamp, xmlStamp, utf8);
    var rest := RestPlan(req, pdfStamp, xmlStamp, utf8);
    AttachmentShape(req, pdfStamp, xmlStamp, utf8);
    if att.refusal.None? {
      var closing := ClosingSends(req);
      ClosingShape(req);
      assert rest.sends == att.sends + closing;
      assert rest.sends[|rest.sends| - 1] == closing[|closing| - 1];
      if req.pdf != "" {
        assert rest.sends[0] == att.sends[0];
      }
    }
  }

  /** The order of the sends: the first message opens; the PDF comes next
      when there is one; a refused XML ends the list; otherwise the closing
      sends end it, the footer last. */
  lemma PlanShape(req: Request, pdfStamp: int, xmlStamp: int, utf8: seq<Byte> -> string)
    ensures var plan := PlanFor(req, pdfStamp, xmlStamp, utf8);
      var accepted := req.xml != "" && XmlContent(req.xml, utf8).Success?;
      && plan.sends[0] == FirstOutgoing(req)
      && (req.pdf != "" ==> |plan.sends| >= 2 && plan.sends[1] == PdfOutgoing(req.number, req.pdf, pdfStamp))
      && (plan.refusal.Some? <==> req.xml != "" && XmlContent(req.xml, utf8).Failure?)
      && |plan.sends| == 1 + (if req.pdf != "" then 1 else 0) + (if accepted then 1 else 0)
                           + (if plan.refusal.Some? then 0 else |ClosingSends(req)|)
      && (plan.refusal.None? ==>
            plan.sends[|plan.sends| - 1] == Outgoing(req.number, Footer(req.customerName), NoMedia, None))
  {
    var rest := RestPlan(req, pdfStamp, xmlStamp, utf8).sends;
    AttachmentShape(req, pdfStamp, xmlStamp, utf8);
    RestShape(req, pdfStamp, xmlStamp, utf8);
    if req.pdf != "" {
      SendAfterFirst(FirstOutgoing(req), rest, 1);
    }
    if |rest| > 0 {
      SendAfterFirst(FirstOutgoing(req), rest, |rest|);
    }
  }

  /** What a send's attachment carries: the PDF file holds bytes whose
      encoding is the request's `pdf` string, the XML file holds text that
      passed the sniff, and a location is the request's `pdf` string when it
      is not canonical base64. */
  predicate CarriesRequestContent(req: Request, m: Outgoing)
  {
    && (m.media.Attachment? && m.media.path.PdfTemp? ==>
          m.payload.Some? && m.payload.value.Binary? && Encode(m.payload.value.bytes) == req.pdf)
    && (m.media.Attachment? && m.media.path.XmlTemp? ==>
          m.payload.Some? && m.payload.value.Text? && LooksLikeXml(m.payload.value.text))
    && (m.media.Reference? ==> m.media.location == req.pdf && !IsValidBase64(req.pdf))
  }

  lemma PdfSendCarriesRequestContent(req: Request, stamp: int)
    ensures CarriesRequestContent(req, PdfOutgoing(req.number, req.pdf, stamp))
  {
    if IsValidBase64(req.pdf) {
      assert PdfOutgoing(req.number, req.pdf, stamp).payload == Some(Binary(Decode(req.pdf)));
    }
  }

  lemma XmlSendCarriesRequestContent(req: Request, text: string, stamp: int)
    requires LooksLikeXml(text)
    ensures CarriesRequestContent(req, XmlOutgoing(req.number, text, stamp))
  {
  }

  lemma AttachmentSendsCarryRequestContent(req: Request, pdfStamp: int, xmlStamp: int, utf8: seq<Byte> -> string, i: nat)
    requires i < |AttachmentPlan(req, pdfStamp, xmlStamp, utf8).sends|
    ensures CarriesRequestContent(req, AttachmentPlan(req, pdfStamp, xmlStamp, utf8).sends[i])
  {
    var att := AttachmentPlan(req, pdfStamp, xmlStamp, utf8);
    AttachmentShape(req, pdfStamp, xmlStamp, utf8);
    if req.pdf != "" && i == 0 {
      PdfSendCarriesRequestContent(req, pdfStamp);
    } else {
      var c := XmlContent(req.xml, utf8);
      assert c.Success? && i == |att.sends| - 1;
      XmlSendCarriesRequestContent(req, c.value, xmlStamp);
    }
  }

  lemma PlainSendCarriesNothing(req: Request, m: Outgoing)
    requires m.media == NoMedia
    ensures CarriesRequestContent(req, m)
  {
  }

  lemma RestSendsCarryRequestContent(req: Request, pdfStamp: int, xmlStamp: int, utf8: seq<Byte> -> string, i: nat)
    requires i < |RestPlan(req, pdfStamp, xmlStamp, utf8).sends|
    ensures CarriesRequestContent(req, RestPlan(req, pdfStamp, xmlStamp, utf8).sends[i])
  {
    var att := AttachmentPlan(req, pdfStamp, xmlStamp, utf8);
    var rest := RestPlan(req, pdfStamp, xmlStamp, utf8);
    if i < |att.sends| {
      assert rest.sends[i] == att.sends[i];
      AttachmentSendsCarryRequestContent(req, pdfStamp, xmlStamp, utf8, i);
    } else {
      var closing := ClosingSends(req);
      assert rest.sends[i] == closing[i - |att.sends|];
      PlainSendCarriesNothing(req, rest.sends[i]);
    }
  }

  /** Every send the handler makes carries the request's own content. */
  lemma PlanSendsCarryRequestContent(req: Request, pdfStamp: int, xmlStamp: int, utf8: seq<Byte> -> string, i: nat)
    requires i < |PlanFor(req, pdfStamp, xmlStamp, utf8).sends|
    ensures CarriesRequestContent(req, PlanFor(req, pdfStamp, xmlStamp, utf8).sends[i])
  {
    var sends := PlanFor(req, pdfStamp, xmlStamp, utf8).sends;
    var rest := RestPlan(req, pdfStamp, xmlStamp, utf8).sends;
    assert sends == [FirstOutgoing(req)] + rest;
    if i == 0 {
      PlainSendCarriesNothing(req, sends[0]);
    } else {
      RestSendsCarryRequestContent(req, pdfStamp, xmlStamp, utf8, i - 1);
      SendAfterFirst(FirstOutgoing(req), rest, i);
    }
  }

  lemma SendAfterFirst(first: Outgoing, rest: seq<Outgoing>, i: nat)
    requires 1 <= i <= |rest|
    ensures ([first] + rest)[i] == rest[i - 1]
  {
  }
}
