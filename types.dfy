/** The records of src/types.ts. */
module Types {
  import opened Wrappers

  /** One badge: family name, given name and role (already normalised by the reader). */
  datatype Participant = Participant(nom: string, prenom: string, role: string)

  /** One printer reported by the service. */
  datatype PrinterInfo = PrinterInfo(name: string, model: string, isConnected: bool)

  /** The state of one printer; `error` is None where the source has `null`. */
  datatype PrinterStatus = PrinterStatus(connected: bool, ready: bool, error: Option<string>)
}
