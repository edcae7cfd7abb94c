/**
 * KargoService.cs: the in-memory shipment list and the status check that
 * reads a carrier's tracking page.
 */
module Services {
  import opened Wrappers
  import opened Text
  import opened Landmark
  import opened Models

  // ---------------------------------------------------------------------------
  // Searching the list by tracking number

  /** Some record of `list` has tracking number `takipNo` (the LINQ Any of Exists). */
  function HasKey(list: seq<Kargo>, takipNo: string): (b: bool)
    ensures b <==> exists i :: 0 <= i < |list| && list[i].takipNo == takipNo
  {
    list != [] && (list[0].takipNo == takipNo || HasKey(list[1..], takipNo))
  }

  /** The index of the first record with tracking number `takipNo` (the LINQ FirstOrDefault of Delete). */
  function IndexOfKey(list: seq<Kargo>, takipNo: string): (r: Option<nat>)
    ensures r.Some? ==> r.value < |list| && list[r.value].takipNo == takipNo
    ensures r.Some? ==> forall j :: 0 <= j < r.value ==> list[j].takipNo != takipNo
    ensures r.None? <==> !HasKey(list, takipNo)
  {
    if list == [] then None
    else if list[0].takipNo == takipNo then Some(0)
    else
      match IndexOfKey(list[1..], takipNo)
      case None => None
      case Some(i) => Some(i + 1)
  }

  /** No two records share a tracking number. */
  ghost predicate UniqueKeys(list: seq<Kargo>) {
    forall i, j :: 0 <= i < j < |list| ==> list[i].takipNo != list[j].takipNo
  }

  /** Appending a record whose key is new keeps the keys distinct. */
  lemma AppendNewKeyKeepsUnique(list: seq<Kargo>, kargo: Kargo)
    requires UniqueKeys(list) && !HasKey(list, kargo.takipNo)
    ensures UniqueKeys(list + [kargo])
  {
  }

  /** The list itself does not guard its key: appending a known key breaks uniqueness. */
  lemma AppendKnownKeyBreaksUnique(list: seq<Kargo>, kargo: Kargo)
    requires HasKey(list, kargo.takipNo)
    ensures !UniqueKeys(list + [kargo])
  {
    var i :| 0 <= i < |list| && list[i].takipNo == kargo.takipNo;
    assert (list + [kargo])[i].takipNo == (list + [kargo])[|list|].takipNo;
  }

  /** Removing one record keeps the keys distinct, and in a list with distinct keys its key is then gone. */
  lemma RemoveKeepsUnique(list: seq<Kargo>, i: nat)
    requires i < |list| && UniqueKeys(list)
    ensures UniqueKeys(list[..i] + list[i + 1..])
    ensures !HasKey(list[..i] + list[i + 1..], list[i].takipNo)
  {
    var rest := list[..i] + list[i + 1..];
    assert forall j :: 0 <= j < |rest| ==> rest[j] == list[if j < i then j else j + 1];
  }

  // ---------------------------------------------------------------------------
  // The record store

  class KargoService {
    /** The shipment list, in insertion order. */
    var kargoListesi: seq<Kargo>

    constructor ()
      ensures kargoListesi == []
    {
      kargoListesi := [];
    }

    /** GetAll: the current records, in the order they were added. */
    method GetAll() returns (list: seq<Kargo>)
      ensures list == kargoListesi
    {
      list := kargoListesi;
    }

    /** Appends, whether or not the key is already present. */
    method Add(kargo: Kargo)
      modifies this
      ensures kargoListesi == old(kargoListesi) + [kargo]
    {
      kargoListesi := kargoListesi + [kargo];
    }

    /** Some record has tracking number `takipNo`. */
    function Exists(takipNo: string): (b: bool)
      reads this
      ensures b <==> exists i :: 0 <= i < |kargoListesi| && kargoListesi[i].takipNo == takipNo
    {
      HasKey(kargoListesi, takipNo)
    }

    /**
     * Removes the first record with tracking number `takipNo` and reports
     * whether there was one; the other records keep their order.
     */
    method Delete(takipNo: string) returns (removed: bool)
      modifies this
      ensures removed == old(Exists(takipNo))
      ensures match IndexOfKey(old(kargoListesi), takipNo)
        case Some(i) => kargoListesi == old(kargoListesi)[..i] + old(kargoListesi)[i + 1..]
        case None => kargoListesi == old(kargoListesi)
      ensures UniqueKeys(old(kargoListesi)) ==> UniqueKeys(kargoListesi) && !Exists(takipNo)
    {
      match IndexOfKey(kargoListesi, takipNo)
      case Some(i) =>
        if UniqueKeys(kargoListesi) {
          RemoveKeepsUnique(kargoListesi, i);
        }
        kargoListesi := kargoListesi[..i] + kargoListesi[i + 1..];
        removed := true;
      case None =>
        removed := false;
    }

    /**
     * KargoDurumuKontrolEt itself, on a client: it issues exactly the GET of
     * RequestFor, and what it returns is CheckStatus over the client's pages.
     */
    method KargoDurumuKontrolEt(web: WebClient, firma: string, takipNo: string) returns (durum: KargoDurumSonucu)
      modifies web
      ensures durum == CheckStatus(firma, takipNo, web.pages)
      ensures web.requests == old(web.requests) + match RequestFor(firma, takipNo)
        case None => []
        case Some(url) => [url]
    {
      if firma == "UPS" {
        var page := web.GetString(UpsTrackingUrl + takipNo);
        match page
        case Failed =>
          durum := NotDelivered;
        case Body(text) =>
          durum := ReadPage(text);
      } else {
        durum := NotDelivered;
      }
    }
  }

  // ---------------------------------------------------------------------------
  // The status check (KargoDurumuKontrolEt)

  const UpsTrackingUrl := "https://www.ups.com.tr/WaybillSorgu.aspx?Waybill="
  const DeliveredPhrase := "Paketiniz teslim edilmiştir"

  /** What HttpClient.GetStringAsync gave back: the page body, or an exception. */
  datatype Fetched = Body(text: string) | Failed

  /**
   * The HTTP client: `pages` stands for what the web answers to a GET of each
   * URL, and `requests` records every GET issued, in order.
   */
  class WebClient {
    const pages: string -> Fetched
    var requests: seq<string>

    constructor (pages: string -> Fetched)
      ensures this.pages == pages && requests == []
    {
      this.pages := pages;
      requests := [];
    }

    /** GetStringAsync: one GET of `url`. */
    method GetString(url: string) returns (r: Fetched)
      modifies this
      ensures r == pages(url)
      ensures requests == old(requests) + [url]
    {
      r := pages(url);
      requests := requests + [url];
    }
  }

  /** The page the status check fetches, if any: only the carrier "UPS" is looked up. */
  function RequestFor(firma: string, takipNo: string): (url: Option<string>)
    ensures url.Some? <==> firma == "UPS"
    ensures url.Some? ==> |url.value| == |UpsTrackingUrl| + |takipNo|
    ensures url.Some? ==> url.value[..|UpsTrackingUrl|] == UpsTrackingUrl
    ensures url.Some? ==> url.value[|UpsTrackingUrl|..] == takipNo
  {
    if firma == "UPS" then Some(UpsTrackingUrl + takipNo) else None
  }

  /** The captured estimate trimmed, stripped of `<…>` runs and trimmed again (lines 48-49). */
  function CleanEstimate(captured: string): (v: string)
    ensures v == Trim(StripTags(Trim(captured)))
    ensures IsTrimmed(v) && NoTag(v)
    ensures StripTags(v) == v && Trim(v) == v
  {
    var stripped := StripTags(Trim(captured));
    var v := Trim(stripped);
    StripNoTag(Trim(captured));
    NoTagTrim(stripped);
    StripIdentity(v);
    assert StripsTo(v, 0, v);
    TrimUnique(v, 0, v);
    v
  }

  /** Captured text that is already trimmed and tag-free is taken over unchanged. */
  lemma CleanEstimateOfPlainText(captured: string)
    requires IsTrimmed(captured) && NoTag(captured)
    ensures CleanEstimate(captured) == captured
  {
    assert StripsTo(captured, 0, captured);
    TrimUnique(captured, 0, captured);
    StripIdentity(captured);
  }

  /** The estimated-delivery text of a page: null unless the landmark matches. */
  function Estimate(body: string): (r: Option<string>)
    ensures r.Some? <==> FindLandmark(body).Some?
    ensures r.Some? ==> r.value == CleanEstimate(FindLandmark(body).value)
  {
    match FindLandmark(body)
    case None => None
    case Some(captured) => Some(CleanEstimate(captured))
  }

  /**
   * A page whose leftmost landmark captures body[e..f] has as its estimate
   * that capture, cleaned.
   */
  lemma EstimateOfLeftmost(body: string, p: nat, e: nat, f: nat)
    requires PatternAt(body, p, e, f) && NoPatternBefore(body, p)
    ensures e <= f <= |body|
    ensures Estimate(body) == Some(CleanEstimate(body[e..f]))
  {
    LeftmostPatternFound(body, p, e, f);
  }

  /** Reading a fetched page: the delivered flag and the estimate. */
  function ReadPage(body: string): (r: KargoDurumSonucu)
    ensures r.teslimEdildi <==> exists k: nat :: OccursIgnoreCaseAt(body, k, DeliveredPhrase)
    ensures r.ongorulenTeslimat == Estimate(body)
  {
    KargoDurumSonucu(ContainsIgnoreCase(body, DeliveredPhrase), Estimate(body))
  }

  /**
   * KargoDurumuKontrolEt with the network taken out: `fetch` stands for the
   * GET of a URL. Carriers other than "UPS" and failed fetches give
   * "not delivered, no estimate".
   */
  function CheckStatus(firma: string, takipNo: string, fetch: string -> Fetched): (r: KargoDurumSonucu)
    ensures firma != "UPS" ==> r == NotDelivered
    ensures firma == "UPS" && fetch(UpsTrackingUrl + takipNo).Failed? ==> r == NotDelivered
    ensures firma == "UPS" && fetch(UpsTrackingUrl + takipNo).Body? ==>
      r == ReadPage(fetch(UpsTrackingUrl + takipNo).text)
    ensures r.teslimEdildi <==>
      && firma == "UPS"
      && fetch(UpsTrackingUrl + takipNo).Body?
      && exists k: nat :: OccursIgnoreCaseAt(fetch(UpsTrackingUrl + takipNo).text, k, DeliveredPhrase)
    ensures r.ongorulenTeslimat.Some? ==>
      && firma == "UPS"
      && fetch(UpsTrackingUrl + takipNo).Body?
      && FindLandmark(fetch(UpsTrackingUrl + takipNo).text).Some?
      && IsTrimmed(r.ongorulenTeslimat.value)
      && NoTag(r.ongorulenTeslimat.value)
  {
    match RequestFor(firma, takipNo)
    case None => NotDelivered
    case Some(url) =>
      match fetch(url)
      case Failed => NotDelivered
      case Body(text) => ReadPage(text)
  }
}
