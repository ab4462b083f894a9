/** The pure parts of the `/v1/messages` handler (app.js): the first
    message, the XML sniff and the footer. A request field that JavaScript
    treats as false (missing, null or empty) is the empty string here. */
module MessageText {
  import opened Wrappers
  import opened ByteText
  import opened JsText
  import opened Base64

  /** Sent when the request's message is missing or blank. */
  const DefaultMessage: string := "Adjunto el PDF Y XML de la factura para que puedas verla"

  /** `message && message.trim() !== "" ? message : DefaultMessage`. */
  function FinalMessage(message: string): (m: string)
    ensures (exists i :: 0 <= i < |message| && !IsJsSpace(message[i])) ==> m == message
    ensures (forall i :: 0 <= i < |message| ==> IsJsSpace(message[i])) ==> m == DefaultMessage
  {
    TrimEmptyIffBlank(message);
    if message != "" && Trim(message) != "" then message else DefaultMessage
  }

  /** The index of the first character that is not white space, if any. */
  lemma FirstNonSpace(s: string) returns (k: nat)
    requires Trim(s) != []
    ensures k < |s| && !IsJsSpace(s[k]) && Trim(s)[0] == s[k]
    ensures forall i :: 0 <= i < k ==> IsJsSpace(s[i])
  {
    var t := TrimStart(s);
    k := |s| - |t|;
    assert t != [];
    assert Trim(s)[0] == t[0];
  }

  /** The sniff applied to XML text: the trimmed text starts with `<?xml`
      or with `<`. */
  predicate LooksLikeXml(text: string)
  {
    StartsWith(Trim(text), "<?xml") || StartsWith(Trim(text), "<")
  }

  /** Since `<?xml` starts with `<`, the sniff accepts a text exactly when its
      first non-white character is `<`. */
  lemma XmlSniffIsFirstCharacter(text: string)
    ensures LooksLikeXml(text) <==>
      (exists k :: 0 <= k < |text| && text[k] == '<' && forall i :: 0 <= i < k ==> IsJsSpace(text[i]))
  {
    var t := Trim(text);
    if LooksLikeXml(text) {
      var k := FirstNonSpace(text);
      if StartsWith(t, "<?xml") {
        assert t[0] == t[..5][0];
      } else {
        assert t[0] == t[..1][0];
      }
    }
    if exists k :: 0 <= k < |text| && text[k] == '<' && forall i :: 0 <= i < k ==> IsJsSpace(text[i]) {
      var k :| 0 <= k < |text| && text[k] == '<' && forall i :: 0 <= i < k ==> IsJsSpace(text[i]);
      TrimStartsAtFirstNonSpace(text, k);
      assert t[..1] == "<";
    }
  }

  /** Why an XML attachment is refused. */
  datatype XmlError = Base64NotDecodable | NotXml

  /** The message of the error the XML block throws. */
  function XmlErrorMessage(e: XmlError): string
  {
    match e
    case Base64NotDecodable => "El contenido base64 no se pudo decodificar correctamente"
    case NotXml => "El contenido no parece ser XML válido"
  }

  /** The text written to the XML file. Valid base64 is decoded first, with
      `utf8` standing for `toString('utf8')`; any failure of the sniff on
      decoded text is reported as a decoding failure. */
  function XmlContent(xml: string, utf8: seq<Byte> -> string): (r: Result<string, XmlError>)
    ensures r.Success? ==> LooksLikeXml(r.value)
  {
    if IsValidBase64(xml) then
      var text := utf8(Decode(xml));
      if LooksLikeXml(text) then Success(text) else Failure(Base64NotDecodable)
    else if LooksLikeXml(xml) then Success(xml)
    else Failure(NotXml)
  }

  /** The text is accepted exactly when the text it would write passes the
      sniff, and a refusal names the branch it came from. */
  lemma XmlContentCases(xml: string, utf8: seq<Byte> -> string)
    ensures var text := if IsValidBase64(xml) then utf8(Decode(xml)) else xml;
      && (XmlContent(xml, utf8).Success? <==> LooksLikeXml(text))
      && (XmlContent(xml, utf8).Success? ==> XmlContent(xml, utf8).value == text)
      && (XmlContent(xml, utf8).Failure? ==>
            XmlContent(xml, utf8).error == if IsValidBase64(xml) then Base64NotDecodable else NotXml)
  {
  }

  /** Plain XML text always goes the plain-text way: its `<` is not a base64
      character. So well-formed XML text is accepted as it is. */
  lemma PlainXmlAccepted(xml: string, utf8: seq<Byte> -> string)
    requires LooksLikeXml(xml)
    ensures XmlContent(xml, utf8) == Success(xml)
  {
    XmlSniffIsFirstCharacter(xml);
    var k :| 0 <= k < |xml| && xml[k] == '<' && forall i :: 0 <= i < k ==> IsJsSpace(xml[i]);
    ForeignCharacterInvalid(xml, k);
  }

  /** The footer's rule line, at its top and its bottom. */
  const Rule: string := "━━━━━━━━━━━━━━━━━━━━━━━"
  const SentFromLine: string := "📧 Enviado desde PSA-SYSTEMS\n"
  const ProductLine: string := "🏢 Sistema de Punto de Venta Profesional\n\n"
  const MoreInfoLabel: string := "🌐 Más información: "
  const HomePage: string := "https://psa-systems.com/#/home"
  const MoreInfoLine: string := MoreInfoLabel + HomePage + "\n"

  /** `👤 Enviado por: <name>` and a blank line. */
  function SignatureLine(customerName: string): string
  {
    "👤 Enviado por: " + customerName + "\n\n"
  }

  /** The footer, built line by line; the signature only for a named customer. */
  function Footer(customerName: string): string
  {
    Rule + "\n" + SentFromLine + ProductLine +
    (if customerName != "" then SignatureLine(customerName) else "") +
    MoreInfoLine + Rule
  }

  /** The fixed lines of the footer do not use the signature's mark. */
  lemma FixedLinesUnsigned()
    ensures '👤' !in Rule + "\n" + SentFromLine + ProductLine
    ensures '👤' !in MoreInfoLine + Rule
  {
    HeadLinesUnsigned();
    TailLinesUnsigned();
  }

  lemma HeadLinesUnsigned()
    ensures '👤' !in Rule && '👤' !in SentFromLine && '👤' !in ProductLine
  {
  }

  lemma TailLinesUnsigned()
    ensures '👤' !in MoreInfoLabel && '👤' !in HomePage
  {
  }

  /** The footer around its middle: the rule and a line break first, the
      rule last. */
  lemma FooterFrame(customerName: string)
    ensures var head := Rule + "\n" + SentFromLine + ProductLine;
      var middle := if customerName != "" then SignatureLine(customerName) else "";
      Footer(customerName) == head + middle + (MoreInfoLine + Rule)
  {
  }

  lemma SignedFooterCarriesName(customerName: string)
    requires customerName != ""
    ensures Contains(Footer(customerName), "👤 Enviado por: " + customerName)
  {
    var f := Footer(customerName);
    var head := Rule + "\n" + SentFromLine + ProductLine;
    var sig := "👤 Enviado por: " + customerName;
    FooterFrame(customerName);
    assert f[|head|..|head| + |sig|] == sig;
    assert OccursAt(f, sig, |head|);
  }

  lemma UnsignedFooterHasNoSignature(customerName: string)
    requires customerName == ""
    ensures !Contains(Footer(customerName), "👤 Enviado por: " + customerName)
  {
    var f := Footer(customerName);
    FooterFrame(customerName);
    FixedLinesUnsigned();
    assert '👤' !in f;
    var sig := "👤 Enviado por: " + customerName;
    assert sig[0] == '👤';
    MissingElementExcludes(f, sig, 0);
  }

  /** The footer opens and closes with the rule, and it carries the signature
      exactly when a customer name is given. */
  lemma FooterShape(customerName: string)
    ensures StartsWith(Footer(customerName), Rule + "\n")
    ensures |Rule| <= |Footer(customerName)| &&
      Footer(customerName)[|Footer(customerName)| - |Rule|..] == Rule
    ensures Contains(Footer(customerName), "👤 Enviado por: " + customerName) <==> customerName != ""
  {
    var f := Footer(customerName);
    var head := Rule + "\n" + SentFromLine + ProductLine;
    var middle := if customerName != "" then SignatureLine(customerName) else "";
    FooterFrame(customerName);
    assert f[..|Rule + "\n"|] == Rule + "\n";
    assert f[|f| - |Rule|..] == Rule;
    if customerName != "" {
      SignedFooterCarriesName(customerName);
    } else {
      UnsignedFooterHasNoSignature(customerName);
    }
  }
}
