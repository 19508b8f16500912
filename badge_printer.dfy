/** The badge printer of src/index.ts: the CSV row filter, the choice of the target
    printer and the print loop with its tally. Replies of the DYMO service are
    inputs, one per request the printer makes. */
module BadgePrinter {
  import opened Wrappers
  import opened JsText
  import opened Types
  import opened DymoApi
  import opened LabelTemplate

  /** The name the printer starts with. */
  const DefaultPrinterName := "DYMO LabelWriter 550"

  /** The substring that marks a LabelWriter, matched on the lower-cased name. */
  const LabelWriterMarker := "dymo labelwriter"

  /** A row from csv-parser: a cell is absent (`undefined`) when its column is missing. */
  datatype CsvRow = CsvRow(nom: Option<string>, prenom: Option<string>, role: Option<string>)

  /** JavaScript truthiness of a cell: present and not the empty string. */
  predicate Filled(cell: Option<string>) {
    cell.Some? && cell.value != ""
  }

  predicate HasRequiredColumns(row: CsvRow) {
    Filled(row.nom) && Filled(row.prenom) && Filled(row.role)
  }

  /** The participant pushed for a kept row. */
  function Normalize(row: CsvRow): (p: Participant)
    requires HasRequiredColumns(row)
    ensures IsTrimmed(p.nom) && IsTrimmed(p.prenom) && IsTrimmed(p.role)
    ensures |p.role| <= |row.role.value|
  {
    LowerKeepsTrimmed(Trim(row.role.value));
    Participant(Trim(row.nom.value), Trim(row.prenom.value), Lower(Trim(row.role.value)))
  }

  /** The participants `readCSVFile` collects from the rows, in order. */
  function KeptParticipants(rows: seq<CsvRow>): (r: seq<Participant>)
    ensures |r| <= |rows|
  {
    if rows == [] then []
    else
      var last := rows[|rows| - 1];
      KeptParticipants(rows[..|rows| - 1]) + (if HasRequiredColumns(last) then [Normalize(last)] else [])
  }

  /** Rows are filtered one at a time: the result for a concatenation is the
      concatenation of the results, so order is kept and no row affects another. */
  lemma {:induction false} KeptParticipantsAppend(a: seq<CsvRow>, b: seq<CsvRow>)
    ensures KeptParticipants(a + b) == KeptParticipants(a) + KeptParticipants(b)
    decreases |b|
  {
    if b == [] {
      assert a + b == a;
    } else {
      var b' := b[..|b| - 1];
      assert (a + b)[..|a + b| - 1] == a + b';
      KeptParticipantsAppend(a, b');
    }
  }

  /** A single row gives its normalised participant when all three cells are
      non-empty before trimming, and nothing otherwise. */
  lemma KeptParticipantsOne(row: CsvRow)
    ensures KeptParticipants([row]) == if HasRequiredColumns(row) then [Normalize(row)] else []
  {
    assert [row][..0] == [];
  }

  /** A cell of white space only is non-empty, so it passes the
      `row.nom && row.prenom && row.role` test, and is read as "". */
  lemma BlankCellBecomesEmpty(row: CsvRow)
    requires row.nom.Some? && row.nom.value != ""
    requires row.prenom.Some? && row.prenom.value != ""
    requires row.role.Some? && row.role.value != ""
    ensures KeptParticipants([row]) == [Normalize(row)]
    ensures AllWhite(row.nom.value) ==> Normalize(row).nom == ""
    ensures AllWhite(row.prenom.value) ==> Normalize(row).prenom == ""
    ensures AllWhite(row.role.value) ==> Normalize(row).role == ""
  {
    KeptParticipantsOne(row);
    TrimEmptyIff(row.nom.value);
    TrimEmptyIff(row.prenom.value);
    TrimEmptyIff(row.role.value);
  }

  /** Lower-casing keeps white space where it was. */
  lemma LowerKeepsTrimmed(s: string)
    requires IsTrimmed(s)
    ensures IsTrimmed(Lower(s))
  {
  }

  /** Every participant read has trimmed fields and a role without capitals. */
  lemma {:induction false} KeptParticipantsNormalised(rows: seq<CsvRow>)
    ensures forall p :: p in KeptParticipants(rows) ==>
      && IsTrimmed(p.nom) && IsTrimmed(p.prenom) && IsTrimmed(p.role)
      && forall i :: 0 <= i < |p.role| ==> !('A' <= p.role[i] <= 'Z')
  {
    if rows != [] {
      var last := rows[|rows| - 1];
      KeptParticipantsNormalised(rows[..|rows| - 1]);
      if HasRequiredColumns(last) {
        LowerKeepsTrimmed(Trim(last.role.value));
      }
    }
  }

  /** `p.name.toLowerCase().includes('dymo labelwriter')`. */
  predicate IsLabelWriter(p: PrinterInfo)
    ensures IsLabelWriter(p) ==> |p.name| >= |LabelWriterMarker|
  {
    Includes(Lower(p.name), LabelWriterMarker)
  }

  /** Some printer in the list is a LabelWriter. */
  predicate HasLabelWriter(printers: seq<PrinterInfo>) {
    exists j :: 0 <= j < |printers| && IsLabelWriter(printers[j])
  }

  /** `printers.find(...)` from index `from`: the index of the first LabelWriter. */
  function FindLabelWriter(printers: seq<PrinterInfo>, from: nat): (r: Option<nat>)
    requires from <= |printers|
    ensures r.Some? ==> from <= r.value < |printers| && IsLabelWriter(printers[r.value])
    ensures r.Some? ==> forall j :: from <= j < r.value ==> !IsLabelWriter(printers[j])
    ensures r.None? ==> forall j :: from <= j < |printers| ==> !IsLabelWriter(printers[j])
    decreases |printers| - from
  {
    if from == |printers| then None
    else if IsLabelWriter(printers[from]) then Some(from)
    else FindLabelWriter(printers, from + 1)
  }

  /** What `printLabel` of the badge printer returns for the service's reply: the
      API's boolean, or false when the API call rejects. */
  function PrintSucceeded(reply: HttpReply): (r: bool)
    ensures r ==> reply.Response? && reply.statusCode == 200
  {
    PrintOutcome(reply) == Ok(true)
  }

  /** A label is printed exactly when the service answers 200 with "true" (padded
      by white space at most); every other reply, error or timeout counts as a failure. */
  lemma PrintSucceededIff(reply: HttpReply)
    ensures PrintSucceeded(reply) <==>
      && reply.Response? && reply.statusCode == 200
      && exists p, q :: AllWhite(p) && AllWhite(q) && reply.body == p + "true" + q
  {
    if reply.Response? && reply.statusCode == 200 {
      PrintOutcomeOf200(reply.body);
    }
  }

  /** The number of successful prints among the replies. */
  function Successes(replies: seq<HttpReply>): (n: nat)
    ensures n <= |replies|
  {
    if replies == [] then 0
    else Successes(replies[..|replies| - 1]) + (if PrintSucceeded(replies[|replies| - 1]) then 1 else 0)
  }

  /** Successes add up over consecutive runs of replies. */
  lemma {:induction false} SuccessesAppend(a: seq<HttpReply>, b: seq<HttpReply>)
    ensures Successes(a + b) == Successes(a) + Successes(b)
    decreases |b|
  {
    if b == [] {
      assert a + b == a;
    } else {
      var b' := b[..|b| - 1];
      assert (a + b)[..|a + b| - 1] == a + b';
      SuccessesAppend(a, b');
    }
  }

  /** Counting one more reply. */
  lemma SuccessesStep(replies: seq<HttpReply>, i: nat)
    requires i < |replies|
    ensures Successes(replies[..i + 1]) == Successes(replies[..i]) + if PrintSucceeded(replies[i]) then 1 else 0
  {
    assert replies[..i + 1][..i] == replies[..i];
  }

  /** The requests the printer sends to the service, recorded for the proofs. A print
      request stands for the POST of `PrintForm(printerName, LabelXml(participant), 1)`. */
  datatype Request =
    | StatusConnectedRequest
    | GetPrintersRequest
    | PrintLabelRequest(printerName: string, participant: Participant)

  /** One print request per participant, in order. */
  function PrintRequests(printerName: string, ps: seq<Participant>): (r: seq<Request>)
    ensures |r| == |ps|
    ensures forall k :: 0 <= k < |ps| ==> r[k] == PrintLabelRequest(printerName, ps[k])
  {
    if ps == [] then [] else PrintRequests(printerName, ps[..|ps| - 1]) + [PrintLabelRequest(printerName, ps[|ps| - 1])]
  }

  /** Sending one more participant's label. */
  lemma PrintRequestsStep(printerName: string, ps: seq<Participant>, i: nat)
    requires i < |ps|
    ensures PrintRequests(printerName, ps[..i + 1])
      == PrintRequests(printerName, ps[..i]) + [PrintLabelRequest(printerName, ps[i])]
  {
    assert ps[..i + 1][..i] == ps[..i];
  }

  /** A log that held `start` and the requests for `ps[..i]` and then gained the
      request for `ps[i]`. */
  lemma LogStep(printerName: string, ps: seq<Participant>, i: nat,
                start: seq<Request>, before: seq<Request>, after: seq<Request>)
    requires i < |ps|
    requires before == start + PrintRequests(printerName, ps[..i])
    requires after == before + [PrintLabelRequest(printerName, ps[i])]
    ensures after == start + PrintRequests(printerName, ps[..i + 1])
  {
    PrintRequestsStep(printerName, ps, i);
    var sent, next := PrintRequests(printerName, ps[..i]), PrintLabelRequest(printerName, ps[i]);
    assert after == start + (sent + [next]);
  }

  /** `DymoLabelPrinter`: the participants read, the chosen printer name, and (ghost)
      the requests sent to the service so far. */
  class DymoLabelPrinter {
    var participants: seq<Participant>
    var printerName: string
    ghost var requests: seq<Request>

    constructor ()
      ensures participants == [] && printerName == DefaultPrinterName && requests == []
    {
      participants := [];
      printerName := DefaultPrinterName;
      requests := [];
    }

    /** `readCSVFile` once the stream has delivered `rows`: push each kept row, then
        store and return the list. */
    method ReadCsvRows(rows: seq<CsvRow>) returns (loaded: seq<Participant>)
      modifies this`participants
      ensures loaded == KeptParticipants(rows) && participants == loaded
    {
      var acc: seq<Participant> := [];
      for i := 0 to |rows|
        invariant acc == KeptParticipants(rows[..i])
      {
        var row := rows[i];
        assert rows[..i + 1][..i] == rows[..i];
        if HasRequiredColumns(row) {
          acc := acc + [Normalize(row)];
        }
      }
      assert rows[..|rows|] == rows;
      participants := acc;
      loaded := acc;
    }

    /** `checkPrinter`, given the reply to the availability request and the reply to
        the printer-list request (the latter is not sent when the service is down). */
    method CheckPrinter(statusReply: HttpReply, printersReply: HttpReply) returns (ok: bool)
      modifies this`printerName, this`requests
      ensures !ServiceAvailable(statusReply) ==>
        && !ok && printerName == old(printerName)
        && requests == old(requests) + [StatusConnectedRequest]
      ensures ServiceAvailable(statusReply) ==>
        requests == old(requests) + [StatusConnectedRequest, GetPrintersRequest]
      ensures ServiceAvailable(statusReply) && GetPrintersOutcome(printersReply).Err? ==>
        !ok && printerName == old(printerName)
      ensures ServiceAvailable(statusReply) && GetPrintersOutcome(printersReply).Ok? ==>
        var printers := GetPrintersOutcome(printersReply).value;
        && ok == (printers != [])
        && printerName == if !HasLabelWriter(printers) && printers != []
                          then printers[0].name else old(printerName)
    {
      requests := requests + [StatusConnectedRequest];
      var serviceAvailable := ServiceAvailable(statusReply);
      if !serviceAvailable {
        return false;
      }
      requests := requests + [GetPrintersRequest];
      assert requests == old(requests) + [StatusConnectedRequest, GetPrintersRequest];
      var listing := GetPrintersOutcome(printersReply);
      if listing.Err? {
        return false;
      }
      var printers := listing.value;
      var targetPrinter := FindLabelWriter(printers, 0);
      if targetPrinter.None? {
        if |printers| > 0 {
          printerName := printers[0].name;
          return true;
        }
        return false;
      }
      return true;
    }

    /** `printLabel` of the badge printer: build the label and send it to the current
        printer; a rejection is swallowed as false. */
    method PrintLabel(participant: Participant, reply: HttpReply) returns (ok: bool)
      modifies this`requests
      ensures ok == PrintSucceeded(reply)
      ensures requests == old(requests) + [PrintLabelRequest(printerName, participant)]
    {
      requests := requests + [PrintLabelRequest(printerName, participant)];
      var outcome := PrintOutcome(reply);
      match outcome
      case Ok(printSuccess) => ok := printSuccess;
      case Err(_) => ok := false;
    }

    /** `printAllLabels`, given one reply per participant: every participant is sent
        once, in order, and the two counts add up to the number of participants. */
    method PrintAllLabels(replies: seq<HttpReply>) returns (successCount: nat, errorCount: nat)
      requires |replies| == |participants|
      modifies this`requests
      ensures successCount == Successes(replies)
      ensures successCount + errorCount == |participants|
      ensures requests == old(requests) + PrintRequests(printerName, participants)
    {
      successCount, errorCount := 0, 0;
      for i := 0 to |participants|
        invariant successCount == Successes(replies[..i])
        invariant successCount + errorCount == i
        invariant requests == old(requests) + PrintRequests(printerName, participants[..i])
      {
        ghost var before := requests;
        var success := PrintLabel(participants[i], replies[i]);
        LogStep(printerName, participants, i, old(requests), before, requests);
        SuccessesStep(replies, i);
        if success {
          successCount := successCount + 1;
        } else {
          errorCount := errorCount + 1;
        }
      }
      assert replies[..|replies|] == replies;
      assert participants[..|participants|] == participants;
    }
  }
}
