/** KargoController.cs: the HTTP actions over the shared KargoService. */
module Controllers {
  import opened Wrappers
  import opened Models
  import opened Services

  /** The IActionResult of Add: 200 OK, or 409 Conflict with a message. */
  datatype AddResult = Ok | Conflict(message: string)

  const DuplicateMessage := "Takip numarası zaten mevcut."

  class KargoController {
    const service: KargoService

    constructor (service: KargoService)
      ensures this.service == service
    {
      this.service := service;
    }

    /**
     * POST: refuse a known tracking number; otherwise check its status over
     * `web`, stamp the record with the result and the time `now`, and append it.
     */
    method Add(kargo: Kargo, web: WebClient, now: string) returns (result: AddResult)
      modifies service, web
      ensures old(service.Exists(kargo.takipNo)) ==>
        && result == Conflict(DuplicateMessage)
        && service.kargoListesi == old(service.kargoListesi)
        && web.requests == old(web.requests)
      ensures !old(service.Exists(kargo.takipNo)) ==>
        && result == Ok
        && |service.kargoListesi| == |old(service.kargoListesi)| + 1
        && service.kargoListesi[..|old(service.kargoListesi)|] == old(service.kargoListesi)
        && web.requests == old(web.requests) + match RequestFor(kargo.firma, kargo.takipNo)
          case None => []
          case Some(url) => [url]
      ensures !old(service.Exists(kargo.takipNo)) ==>
        var added := service.kargoListesi[|service.kargoListesi| - 1];
        var durum := CheckStatus(kargo.firma, kargo.takipNo, web.pages);
        && added.firma == kargo.firma && added.takipNo == kargo.takipNo
        && added.magazaID == kargo.magazaID && added.talepID == kargo.talepID
        && added.teslimEdildi == durum.teslimEdildi
        && added.ongorulenTeslimat == durum.ongorulenTeslimat
        && added.lastUpdate == now
      ensures UniqueKeys(old(service.kargoListesi)) ==> UniqueKeys(service.kargoListesi)
    {
      if service.Exists(kargo.takipNo) {
        return Conflict(DuplicateMessage);
      }
      var durum := service.KargoDurumuKontrolEt(web, kargo.firma, kargo.takipNo);
      var stamped := kargo.(teslimEdildi := durum.teslimEdildi, lastUpdate := now,
                            ongorulenTeslimat := durum.ongorulenTeslimat);
      if UniqueKeys(service.kargoListesi) {
        AppendNewKeyKeepsUnique(service.kargoListesi, stamped);
      }
      service.Add(stamped);
      result := Ok;
    }

    /** GET: every record, in insertion order. */
    method Get() returns (kargolar: seq<Kargo>)
      ensures kargolar == service.kargoListesi
    {
      kargolar := service.GetAll();
    }
  }
}
