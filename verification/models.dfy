/** The records exchanged between the controller, the service and the browser. */
module Models {
  import opened Wrappers

  /**
   * One tracked shipment. The fields are the ones KargoController.cs reads
   * and writes and script.js posts.
   */
  datatype Kargo = Kargo(
    firma: string,                      // carrier name, e.g. "UPS"
    takipNo: string,                    // tracking number, the store's key
    magazaID: string,                   // store identifier typed in the form
    talepID: string,                    // request identifier typed in the form
    teslimEdildi: bool,                 // delivered
    ongorulenTeslimat: Option<string>,  // estimated delivery text, null when unknown
    lastUpdate: string                  // "HH:mm" of the last status check
  )

  /** The outcome of one status check (class KargoDurumSonucu). */
  datatype KargoDurumSonucu = KargoDurumSonucu(teslimEdildi: bool, ongorulenTeslimat: Option<string>)

  /** The fallback result: not delivered, no estimate. */
  const NotDelivered := KargoDurumSonucu(false, None)
}
