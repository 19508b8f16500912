/** The DYMO web-service client of src/dymo-api.ts: what it decides from each reply
    of the local service, and how it reads the service's tagged text. */
module DymoApi {
  import opened Wrappers
  import opened JsText
  import opened TagRegex
  import opened Types

  const GetPrintersTimeoutMessage := "Timeout lors de la récupération des imprimantes"
  const PrintTimeoutMessage := "Timeout lors de l'impression"
  const StatusTimeoutMessage := "Timeout lors de la vérification du statut"

  /** What one HTTPS round trip produced: the whole response, a request `error`
      event, or the `timeout` event (after which the request is destroyed). */
  datatype HttpReply =
    | Response(statusCode: int, body: string)
    | ConnectionError(message: string)
    | TimedOut

  /** The errors the client's promises reject with. */
  datatype ApiError =
    | HttpsError(statusCode: int, body: string)
    | RequestFailed(message: string)
    | Timeout(message: string)

  /** `isServiceAvailable`: resolves with the trimmed body compared to "true"; the
      status code is not looked at, and errors and timeouts resolve false. */
  function ServiceAvailable(reply: HttpReply): (r: bool)
    ensures r ==> reply.Response? && |reply.body| >= 4
  {
    reply.Response? && Trim(reply.body) == "true"
  }

  /** The service counts as available exactly when it answered with "true" padded
      by white space on either side, in lower case. */
  lemma ServiceAvailableIff(reply: HttpReply)
    ensures ServiceAvailable(reply) <==>
      reply.Response? && exists p, q :: AllWhite(p) && AllWhite(q) && reply.body == p + "true" + q
  {
    if reply.Response? {
      var body := reply.body;
      if Trim(body) == "true" {
        var p, q := TrueIsPadded(body);
      }
      if exists p, q :: AllWhite(p) && AllWhite(q) && body == p + "true" + q {
        var p, q :| AllWhite(p) && AllWhite(q) && body == p + "true" + q;
        TrimPadded(p, "true", q);
      }
    }
  }

  lemma TrueIsPadded(body: string) returns (p: string, q: string)
    requires Trim(body) == "true"
    ensures AllWhite(p) && AllWhite(q) && body == p + "true" + q
  {
    var i := TrimSplits(body);
    p, q := body[..i], body[i + |Trim(body)|..];
  }

  /** Upper-case "TRUE" does not count: the comparison is case-sensitive. */
  lemma ServiceAvailableCaseSensitive(statusCode: int)
    ensures !ServiceAvailable(Response(statusCode, "TRUE"))
  {
    assert "TRUE" == [] + "TRUE" + [];
    TrimPadded([], "TRUE", []);
  }

  /** `printLabel` of the API: with status 200 it resolves with the trimmed body
      compared to "true"; any other status rejects with the status and the raw body. */
  function PrintOutcome(reply: HttpReply): (r: Result<bool, ApiError>)
    ensures r.Ok? <==> reply.Response? && reply.statusCode == 200
    ensures reply.Response? && reply.statusCode != 200 ==> r == Err(HttpsError(reply.statusCode, reply.body))
    ensures reply.ConnectionError? ==> r == Err(RequestFailed(reply.message))
    ensures reply.TimedOut? ==> r == Err(Timeout(PrintTimeoutMessage))
  {
    match reply
    case Response(code, body) =>
      if code == 200 then Ok(Trim(body) == "true") else Err(HttpsError(code, body))
    case ConnectionError(message) => Err(RequestFailed(message))
    case TimedOut => Err(Timeout(PrintTimeoutMessage))
  }

  /** A 200 reply prints exactly when the same body would report the service as
      available; a 200 with any other body is a plain `false`, not an error. */
  lemma PrintOutcomeOf200(body: string)
    ensures PrintOutcome(Response(200, body)) == Ok(ServiceAvailable(Response(200, body)))
    ensures PrintOutcome(Response(200, body)) == Ok(true) <==>
      exists p, q :: AllWhite(p) && AllWhite(q) && body == p + "true" + q
  {
    ServiceAvailableIff(Response(200, body));
  }

  /** The form fields of the POST body, before url-encoding: `copies` is not sent. */
  function PrintForm(printerName: string, labelXml: string, copies: int): (r: seq<(string, string)>)
    ensures |r| == 3
    ensures r[0] == ("printerName", printerName) && r[1] == ("labelXml", labelXml)
    ensures r[2] == ("labelSetXml", "")
  {
    [("printerName", printerName), ("labelXml", labelXml), ("labelSetXml", "")]
  }

  /** The number of copies asked for makes no difference to the request. */
  lemma PrintFormIgnoresCopies(printerName: string, labelXml: string, c1: int, c2: int)
    ensures PrintForm(printerName, labelXml, c1) == PrintForm(printerName, labelXml, c2)
  {
  }

  /** The tags the client looks for are plain words. */
  lemma TagNamesUsed()
    ensures TagName("Name") && TagName("ModelName")
    ensures TagName("Connected") && TagName("Ready") && TagName("ErrorText")
  {
  }

  /** The zip of Name matches with ModelName matches by index. */
  function PrinterRecords(names: seq<string>, models: seq<string>): (r: seq<PrinterInfo>)
    ensures |r| == |names|
    ensures forall p | p in r :: !p.isConnected
  {
    seq(|names|, i requires 0 <= i < |names| => PrinterInfo(
      StripTag(names[i], "Name"),
      if i < |models| then StripTag(models[i], "ModelName") else "",
      false))
  }

  /** What `parsePrintersXML` returns; `isConnected` is never set by the source and
      is false here. */
  function PrintersFromXml(xml: string): (r: seq<PrinterInfo>)
    ensures r == [] || |r| == |AllMatches(xml, "Name", 0)|
    ensures forall p | p in r :: !p.isConnected
  {
    var names := MatchTexts(xml, "Name");
    var models := MatchTexts(xml, "ModelName");
    if names == [] || models == [] then [] else PrinterRecords(names, models)
  }

  /** `parsePrintersXML`: collect both match arrays; when both are non-null, push one
      record per Name match. */
  method ParsePrintersXML(xmlData: string) returns (printers: seq<PrinterInfo>)
    ensures printers == PrintersFromXml(xmlData)
  {
    printers := [];
    var printerMatches := MatchTexts(xmlData, "Name");
    var modelMatches := MatchTexts(xmlData, "ModelName");
    if printerMatches != [] && modelMatches != [] {
      printers := PushPrinters(printerMatches, modelMatches);
    }
  }

  /** The `for` loop of `parsePrintersXML`: the i-th record takes the i-th Name match
      and the i-th ModelName match, or "" when there are fewer models than names. */
  method PushPrinters(printerMatches: seq<string>, modelMatches: seq<string>) returns (printers: seq<PrinterInfo>)
    ensures printers == PrinterRecords(printerMatches, modelMatches)
  {
    printers := [];
    for i := 0 to |printerMatches|
      invariant printers == PrinterRecords(printerMatches[..i], modelMatches)
    {
      var name := StripTag(printerMatches[i], "Name");
      var model := if i < |modelMatches| then StripTag(modelMatches[i], "ModelName") else "";
      printers := printers + [PrinterInfo(name, model, false)];
    }
    assert printerMatches[..|printerMatches|] == printerMatches;
  }

  /** No Name match, or no ModelName match, gives no printers at all; otherwise
      there is one printer per Name match. */
  lemma PrinterCount(xml: string)
    ensures (forall i :: MatchAt(xml, "ModelName", i).None?) ==> PrintersFromXml(xml) == []
    ensures (exists i :: MatchAt(xml, "ModelName", i).Some?) ==>
      |PrintersFromXml(xml)| == |AllMatches(xml, "Name", 0)|
  {
    if exists i :: MatchAt(xml, "ModelName", i).Some? {
      var i :| MatchAt(xml, "ModelName", i).Some?;
      AllMatchesCover(xml, "ModelName", 0, i);
    }
  }

  /** Printer `i` comes from the `i`-th Name match and, where there is one, the
      `i`-th ModelName match, each with its tags removed. */
  lemma PrinterFromMatches(xml: string, i: nat)
    requires i < |PrintersFromXml(xml)|
    ensures i < |AllMatches(xml, "Name", 0)|
    ensures PrintersFromXml(xml)[i].name == StripTag(MatchTexts(xml, "Name")[i], "Name")
    ensures PrintersFromXml(xml)[i].model ==
      if i < |AllMatches(xml, "ModelName", 0)| then StripTag(MatchTexts(xml, "ModelName")[i], "ModelName") else ""
    ensures !PrintersFromXml(xml)[i].isConnected
  {
    assert PrintersFromXml(xml) == PrinterRecords(MatchTexts(xml, "Name"), MatchTexts(xml, "ModelName"));
  }

  /** Printer `i`'s name is the group of the `i`-th Name match with every `<Name>`
      inside it removed; a group without `<` is taken as it is. */
  lemma PrinterName(xml: string, i: nat)
    requires i < |PrintersFromXml(xml)|
    ensures i < |AllMatches(xml, "Name", 0)|
    ensures PrintersFromXml(xml)[i].name ==
      StripTag(Content(xml, "Name", AllMatches(xml, "Name", 0)[i]), "Name")
    ensures NoBracket(Content(xml, "Name", AllMatches(xml, "Name", 0)[i])) ==>
      PrintersFromXml(xml)[i].name == Content(xml, "Name", AllMatches(xml, "Name", 0)[i])
  {
    PrinterFromMatches(xml, i);
    TagNamesUsed();
    StripTagOfMatchText(xml, "Name", i);
  }

  /** Printer `i`'s model is the group of the `i`-th ModelName match with its tags
      removed, or "" when there are fewer ModelName matches than Name matches;
      surplus ModelName matches are ignored. */
  lemma PrinterModel(xml: string, i: nat)
    requires i < |PrintersFromXml(xml)|
    ensures i < |AllMatches(xml, "ModelName", 0)| ==>
      PrintersFromXml(xml)[i].model == StripTag(Content(xml, "ModelName", AllMatches(xml, "ModelName", 0)[i]), "ModelName")
    ensures i >= |AllMatches(xml, "ModelName", 0)| ==> PrintersFromXml(xml)[i].model == ""
  {
    PrinterFromMatches(xml, i);
    if i < |AllMatches(xml, "ModelName", 0)| {
      TagNamesUsed();
      StripTagOfMatchText(xml, "ModelName", i);
    }
  }

  /** What `parseStatusXML` returns: defaults, then the first Connected, Ready and
      ErrorText contents where the tags are there. */
  function StatusFromXml(xml: string): (r: PrinterStatus)
    ensures r.connected <==>
      FirstContent(xml, "Connected").Some? && SpellsTrue(FirstContent(xml, "Connected").value)
    ensures r.ready <==>
      FirstContent(xml, "Ready").Some? && SpellsTrue(FirstContent(xml, "Ready").value)
    ensures r.error.Some? <==>
      FirstContent(xml, "ErrorText").Some? && !AllWhite(FirstContent(xml, "ErrorText").value)
    ensures r.error.Some? ==> r.error == FirstContent(xml, "ErrorText")
  {
    var connected := FirstContent(xml, "Connected");
    var ready := FirstContent(xml, "Ready");
    var errorText := FirstContent(xml, "ErrorText");
    assert forall c: string :: Lower(c) == "true" <==> SpellsTrue(c) by {
      forall c: string { LowerIsTrueIff(c); }
    }
    assert forall c: string :: Trim(c) == "" <==> AllWhite(c) by {
      forall c: string { TrimEmptyIff(c); }
    }
    PrinterStatus(
      connected.Some? && Lower(connected.value) == "true",
      ready.Some? && Lower(ready.value) == "true",
      if errorText.Some? && Trim(errorText.value) != "" then errorText else None)
  }

  /** `parseStatusXML`: start from the defaults and overwrite one field at a time. */
  method ParseStatusXML(xmlData: string) returns (status: PrinterStatus)
    ensures status == StatusFromXml(xmlData)
  {
    status := PrinterStatus(false, false, None);
    var connectedMatch := FirstContent(xmlData, "Connected");
    var readyMatch := FirstContent(xmlData, "Ready");
    var errorMatch := FirstContent(xmlData, "ErrorText");
    if connectedMatch.Some? {
      status := status.(connected := Lower(connectedMatch.value) == "true");
    }
    if readyMatch.Some? {
      status := status.(ready := Lower(readyMatch.value) == "true");
    }
    if errorMatch.Some? && Trim(errorMatch.value) != "" {
      status := status.(error := Some(errorMatch.value));
    }
  }

  /** A body without any `<` cannot hold a tag and leaves every field at its default. */
  lemma StatusDefaultsWithoutTags(xml: string)
    requires NoBracket(xml)
    ensures StatusFromXml(xml) == PrinterStatus(false, false, None)
  {
    NoMatchWithoutBracket(xml, "Connected");
    NoMatchWithoutBracket(xml, "Ready");
    NoMatchWithoutBracket(xml, "ErrorText");
  }

  /** A blank ErrorText (white space only) leaves `error` null. */
  lemma BlankErrorTextIsNull(xml: string)
    requires FirstContent(xml, "ErrorText").Some?
    requires AllWhite(FirstContent(xml, "ErrorText").value)
    ensures StatusFromXml(xml).error == None
  {
  }

  /** `getPrinters`: any complete response is parsed, whatever its status code;
      request errors and timeouts reject. */
  function GetPrintersOutcome(reply: HttpReply): (r: Result<seq<PrinterInfo>, ApiError>)
    ensures r.Ok? <==> reply.Response?
    ensures reply.Response? ==> r.value == PrintersFromXml(reply.body)
    ensures reply.ConnectionError? ==> r == Err(RequestFailed(reply.message))
    ensures reply.TimedOut? ==> r == Err(Timeout(GetPrintersTimeoutMessage))
  {
    match reply
    case Response(_, body) => Ok(PrintersFromXml(body))
    case ConnectionError(message) => Err(RequestFailed(message))
    case TimedOut => Err(Timeout(GetPrintersTimeoutMessage))
  }

  /** `getPrinterStatus`: any complete response is parsed, whatever its status code;
      request errors and timeouts reject. */
  function PrinterStatusOutcome(reply: HttpReply): (r: Result<PrinterStatus, ApiError>)
    ensures r.Ok? <==> reply.Response?
    ensures reply.Response? ==> r.value == StatusFromXml(reply.body)
    ensures reply.ConnectionError? ==> r == Err(RequestFailed(reply.message))
    ensures reply.TimedOut? ==> r == Err(Timeout(StatusTimeoutMessage))
  {
    match reply
    case Response(_, body) => Ok(StatusFromXml(body))
    case ConnectionError(message) => Err(RequestFailed(message))
    case TimedOut => Err(Timeout(StatusTimeoutMessage))
  }
}
