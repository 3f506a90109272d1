/**
 * `components/PlaceRow.tsx`: a list row that supports both the legacy
 * snake_case fields and the newer `Place` shape. Its links and picture are
 * `??` chains, so only a missing value (null or undefined) falls through;
 * an empty string is kept. Its open badge is the daily evaluator, guarded
 * for missing times.
 */
module PlaceRow {
  import opened Optional
  import opened Text
  import Clock
  import DailyHours
  import PlaceCardRow

  /** `place.links` of the `Place` shape. */
  datatype LinkSet = LinkSet(google: Option<string>, yelp: Option<string>, tiktokSearch: Option<string>)

  /**
   * The fields a row reads. `imageUrlLegacy`, `googleUrl` and `yelpUrl` are
   * the snake_case fields `image_url`, `google_url` and `yelp_url`.
   */
  datatype Place = Place(
    name: string,
    address: Option<string>,
    opensAt: Option<string>,
    closesAt: Option<string>,
    imageUrlLegacy: Option<string>,
    imageUrl: Option<string>,
    googleUrl: Option<string>,
    yelpUrl: Option<string>,
    links: Option<LinkSet>)

  /** What a row shows. */
  datatype Row = Row(openNow: bool, image: string, google: string, yelp: string, tiktok: string)

  const Placeholder := "/placeholder.png"
  const DefaultCityState := "Detroit, MI"

  /** `a ?? b`. */
  function Coalesce<T>(a: Option<T>, b: T): (r: T)
    ensures a.Some? ==> r == a.value
    ensures a.None? ==> r == b
  {
    a.OrElse(b)
  }

  /** `links?.google`, `links?.yelp` and `links?.tiktokSearch`. */
  function LinkGoogle(links: Option<LinkSet>): Option<string> {
    if links.Some? then links.value.google else None
  }

  function LinkYelp(links: Option<LinkSet>): Option<string> {
    if links.Some? then links.value.yelp else None
  }

  function LinkTikTok(links: Option<LinkSet>): Option<string> {
    if links.Some? then links.value.tiktokSearch else None
  }

  /** `toGoogleMapsUrl` builds the same link as the card's `toMaps`. */
  function ToGoogleMapsUrl(enc: string -> string, name: string, address: Option<string>): string {
    PlaceCardRow.ToMaps(enc, name, address)
  }

  /** `toYelpUrl`: the city and state are a parameter that defaults to Detroit. */
  function ToYelpUrl(enc: string -> string, name: string, cityState: string := DefaultCityState): (r: string)
    ensures PlaceCardRow.IsWebLink(r)
  {
    PlaceCardRow.YelpLink(enc, name, cityState)
  }

  /** Two row Yelp links are equal exactly when their names and city/state texts are. */
  lemma YelpUrlReadsBack(enc: string -> string, name1: string, cityState1: string, name2: string, cityState2: string)
    requires PlaceCardRow.Injective(enc) && PlaceCardRow.AmpFree(enc)
    ensures ToYelpUrl(enc, name1, cityState1) == ToYelpUrl(enc, name2, cityState2)
            <==> name1 == name2 && cityState1 == cityState2
  {
    PlaceCardRow.YelpLinkReadsBack(enc, name1, cityState1, name2, cityState2);
  }

  /**
   * The row's own `toTikTok`: it splits `address || ""` instead of
   * returning early on a missing address.
   */
  function ToTikTok(enc: string -> string, name: string, address: Option<string>): string {
    var parts := PlaceCardRow.AddressParts(if Truthy(address) then address.value else "");
    var cs := PlaceCardRow.CityStateOfParts(parts);
    PlaceCardRow.TikTokSearch + enc(name + " " + cs.city + " " + cs.state)
  }

  /** The row's TikTok link agrees with the card's on every address, missing or empty included. */
  lemma TikTokAgrees(enc: string -> string, name: string, address: Option<string>)
    ensures ToTikTok(enc, name, address) == PlaceCardRow.ToTikTok(enc, name, address)
  {
    if !Truthy(address) {
      assert PlaceCardRow.AddressParts("") == [""];
      assert !PlaceCardRow.StateAt("", 0);
    }
  }

  /** The Yelp link without a location is the card's Yelp link for a place with no address. */
  lemma YelpDefaultIsDetroit(enc: string -> string, name: string)
    ensures ToYelpUrl(enc, name) == PlaceCardRow.ToYelp(enc, name, None)
  {
    assert PlaceCardRow.DefaultCity + ", " + PlaceCardRow.DefaultState == DefaultCityState;
  }

  /** The guarded `openNow`: both times must be strings before the daily evaluator runs. */
  function OpenNow(opensAt: Option<string>, closesAt: Option<string>, now: Clock.Instant): (r: bool)
    ensures r ==> opensAt.Some? && closesAt.Some?
    ensures opensAt.Some? && closesAt.Some? ==> r == DailyHours.IsOpenNow(opensAt, closesAt, now)
  {
    if opensAt.Some? && closesAt.Some? then DailyHours.IsOpenNow(opensAt, closesAt, now) else false
  }

  /** The guard changes nothing: the evaluator itself already refuses a missing time. */
  lemma GuardIsRedundant(opensAt: Option<string>, closesAt: Option<string>, now: Clock.Instant)
    ensures OpenNow(opensAt, closesAt, now) == DailyHours.IsOpenNow(opensAt, closesAt, now)
  {
  }

  /** Everything the row derives from a place. */
  function RowOf(enc: string -> string, p: Place, now: Clock.Instant): (r: Row)
    ensures r.openNow == OpenNow(p.opensAt, p.closesAt, now)
    // the picture: image_url, then imageUrl, then the placeholder; "" is kept
    ensures p.imageUrlLegacy.Some? ==> r.image == p.imageUrlLegacy.value
    ensures p.imageUrlLegacy.None? && p.imageUrl.Some? ==> r.image == p.imageUrl.value
    ensures p.imageUrlLegacy.None? && p.imageUrl.None? ==> r.image == Placeholder
    // Google: google_url, then links.google, then a Maps search
    ensures p.googleUrl.Some? ==> r.google == p.googleUrl.value
    ensures p.googleUrl.None? && LinkGoogle(p.links).Some? ==> r.google == LinkGoogle(p.links).value
    ensures p.googleUrl.None? && LinkGoogle(p.links).None? ==>
      r.google == PlaceCardRow.ToMaps(enc, p.name, p.address)
    // Yelp: yelp_url, then links.yelp, then a Yelp search around Detroit
    ensures p.yelpUrl.Some? ==> r.yelp == p.yelpUrl.value
    ensures p.yelpUrl.None? && LinkYelp(p.links).Some? ==> r.yelp == LinkYelp(p.links).value
    ensures p.yelpUrl.None? && LinkYelp(p.links).None? ==> r.yelp == PlaceCardRow.ToYelp(enc, p.name, None)
    // TikTok: links.tiktokSearch, then the card's TikTok search
    ensures LinkTikTok(p.links).Some? ==> r.tiktok == LinkTikTok(p.links).value
    ensures LinkTikTok(p.links).None? ==> r.tiktok == PlaceCardRow.ToTikTok(enc, p.name, p.address)
  {
    TikTokAgrees(enc, p.name, p.address);
    YelpDefaultIsDetroit(enc, p.name);
    Row(
      OpenNow(p.opensAt, p.closesAt, now),
      Coalesce(p.imageUrlLegacy, Coalesce(p.imageUrl, Placeholder)),
      Coalesce(p.googleUrl, Coalesce(LinkGoogle(p.links), ToGoogleMapsUrl(enc, p.name, p.address))),
      Coalesce(p.yelpUrl, Coalesce(LinkYelp(p.links), ToYelpUrl(enc, p.name))),
      Coalesce(LinkTikTok(p.links), ToTikTok(enc, p.name, p.address)))
  }

  /** An empty legacy `image_url` is shown as it is: `??` only skips a missing value. */
  lemma EmptyImageUrlKept(enc: string -> string, p: Place, now: Clock.Instant)
    requires p.imageUrlLegacy == Some("")
    ensures RowOf(enc, p, now).image == ""
  {
  }
}
