/**
 * The pure helpers of `components/PlaceCardRow.tsx`: a stable 32-bit string
 * hash into a pool of fallback pictures, the image priority chain, the
 * city/state guess from a comma-separated address, and the Maps, Yelp and
 * TikTok search links. `encodeURIComponent` is the parameter `enc`.
 */
module PlaceCardRow {
  import opened Optional
  import opened Text

  /** The local fallback pool, in source order. */
  const Fallbacks: seq<string> := [
    "/media/dogs/fallback1.jpg",
    "/media/dogs/fallback2.jpg",
    "/media/dogs/fallback3.jpg",
    "/media/dogs/fallback4.jpg",
    "/media/dogs/fallback5.jpg",
    "/media/dogs/fallback6.jpg",
    "/media/dogs/fallback7.jpg",
    "/media/dogs/fallback8.jpg",
    "/media/dogs/fallback9.jpg",
    "/media/dogs/fallback10.jpg",
    "/media/dogs/dog_bday.jpg",
    "/media/dogs/dog_chillin.jpg",
    "/media/dogs/dog_coffee.jpg",
    "/media/dogs/dog_hammock.jpg",
    "/media/dogs/dog_shades.jpg",
    "/media/dogs/dog_tongue.jpg",
    "/media/dogs/happy_dogs.jpg"
  ]

  /** 2^32: `>>> 0` keeps a number modulo this. */
  const Word: nat := 0x1_0000_0000

  // ---------------------------------------------------------------
  // The hash
  // ---------------------------------------------------------------

  /** The unbounded polynomial hash: sum of us[k] * 31^(n-1-k), by Horner's rule. */
  function PolyHash(us: seq<int>): int {
    if |us| == 0 then 0 else PolyHash(us[..|us| - 1]) * 31 + us[|us| - 1]
  }

  /** The index `stableIndex` returns for a key: the hash taken modulo 2^32, then modulo the pool. */
  function FallbackIndex(key: string): (i: nat)
    ensures i < |Fallbacks|
  {
    (PolyHash(CodeUnits(key)) % Word) % |Fallbacks|
  }

  lemma ShiftByMultiple(x: int, q: int)
    ensures (x + q * Word) % Word == x % Word
  {
  }

  /** Reducing before a step gives the same residue as reducing after it. */
  lemma WrapStep(a: int, u: int)
    ensures ((a % Word) * 31 + u) % Word == (a * 31 + u) % Word
  {
    var q := a / Word;
    assert a == q * Word + a % Word;
    assert a * 31 + u == ((a % Word) * 31 + u) + (q * 31) * Word;
    ShiftByMultiple((a % Word) * 31 + u, q * 31);
  }

  /**
   * `stableIndex`: h starts at 0 and becomes (h * 31 + unit) >>> 0 for each
   * code unit; the result is h modulo the pool size.
   */
  method StableIndex(key: string) returns (idx: nat)
    ensures idx < |Fallbacks|
    ensures idx == FallbackIndex(key)
  {
    var units := CodeUnits(key);
    var h := 0;
    var i := 0;
    while i < |units|
      invariant 0 <= i <= |units|
      invariant 0 <= h < Word
      invariant h == PolyHash(units[..i]) % Word
    {
      assert units[..i + 1][..i] == units[..i];
      WrapStep(PolyHash(units[..i]), units[i]);
      h := (h * 31 + units[i]) % Word;
      i := i + 1;
    }
    assert units[..|units|] == units;
    idx := h % |Fallbacks|;
  }

  // ---------------------------------------------------------------
  // Image choice
  // ---------------------------------------------------------------

  /** A custom image that merely points into the generic pool. */
  predicate IsGenericFallback(image: Option<string>) {
    Truthy(image) && Contains(Lower(image.value), "fallback")
  }

  /** `pickImage`: custom image, then remote image, then the pool picture of `id ?? name`. */
  function PickImage(id: Option<string>, name: string, image: Option<string>, imageUrl: Option<string>): (r: string)
    ensures Truthy(image) && !IsGenericFallback(image) ==> r == image.value
    ensures (!Truthy(image) || IsGenericFallback(image)) && Truthy(imageUrl) ==> r == imageUrl.value
    ensures (!Truthy(image) || IsGenericFallback(image)) && !Truthy(imageUrl) ==>
      r in Fallbacks &&
      (id.Some? ==> r == Fallbacks[FallbackIndex(id.value)]) &&
      (id.None? ==> r == Fallbacks[FallbackIndex(name)])
  {
    var generic := IsGenericFallback(image);
    if Truthy(image) && !generic then image.value
    else if Truthy(imageUrl) then imageUrl.value
    else Fallbacks[FallbackIndex(id.OrElse(name))]
  }

  /** The picture is never an empty source. */
  lemma PickImageNonEmpty(id: Option<string>, name: string, image: Option<string>, imageUrl: Option<string>)
    ensures |PickImage(id, name, image, imageUrl)| > 0
  {
    assert forall k :: 0 <= k < |Fallbacks| ==> |Fallbacks[k]| > 0;
  }

  /** When an id is present the name plays no part, even an empty id. */
  lemma IdOverridesName(id: string, name1: string, name2: string, image: Option<string>, imageUrl: Option<string>)
    ensures PickImage(Some(id), name1, image, imageUrl) == PickImage(Some(id), name2, image, imageUrl)
  {
  }

  // ---------------------------------------------------------------
  // City and state
  // ---------------------------------------------------------------

  datatype CityState = CityState(city: string, state: string)

  const DefaultCity := "Detroit"
  const DefaultState := "MI"

  function TrimAll(parts: seq<string>): (r: seq<string>)
    ensures |r| == |parts|
    ensures forall k :: 0 <= k < |parts| ==> r[k] == Trim(parts[k])
  {
    seq(|parts|, k requires 0 <= k < |parts| => Trim(parts[k]))
  }

  /** `address.split(",").map((p) => p.trim())`. */
  function AddressParts(address: string): (parts: seq<string>)
    ensures |parts| >= 1
  {
    TrimAll(Split(address, ','))
  }

  /** `/\b[A-Z]{2}\b/` matches at `i`: two capitals with no word character on either side. */
  predicate StateAt(s: string, i: int) {
    0 <= i && i + 2 <= |s| && IsUpper(s[i]) && IsUpper(s[i + 1]) &&
    (i == 0 || !IsWordChar(s[i - 1])) &&
    (i + 2 == |s| || !IsWordChar(s[i + 2]))
  }

  /** The leftmost match at or after `i`. */
  function FirstStateFrom(s: string, i: nat): (r: Option<nat>)
    requires i <= |s|
    ensures r.Some? ==> i <= r.value && StateAt(s, r.value)
    ensures r.Some? ==> forall j :: i <= j < r.value ==> !StateAt(s, j)
    ensures r.None? ==> forall j :: i <= j <= |s| ==> !StateAt(s, j)
    decreases |s| - i
  {
    if i + 2 > |s| then None
    else if StateAt(s, i) then Some(i)
    else FirstStateFrom(s, i + 1)
  }

  /** `s.match(/\b[A-Z]{2}\b/)?.[0] || "MI"`. */
  function StateOf(s: string): (state: string)
    ensures |state| == 2 && IsUpper(state[0]) && IsUpper(state[1])
    ensures (exists i :: StateAt(s, i)) ==>
      exists i :: StateAt(s, i) && state == s[i..i + 2] && forall j :: 0 <= j < i ==> !StateAt(s, j)
    ensures (forall i :: !StateAt(s, i)) ==> state == DefaultState
  {
    match FirstStateFrom(s, 0)
    case Some(i) => s[i..i + 2]
    case None => DefaultState
  }

  /** The city and state of already split and trimmed parts. */
  function CityStateOfParts(parts: seq<string>): (r: CityState)
    requires |parts| >= 1
    ensures |parts| >= 2 ==> r.city == parts[|parts| - 2]
    ensures |parts| < 2 ==> r.city == DefaultCity
    ensures r.state == StateOf(parts[|parts| - 1])
  {
    var city := if |parts| >= 2 then parts[|parts| - 2] else DefaultCity;
    CityState(city, StateOf(parts[|parts| - 1]))
  }

  /** `parseCityState`. */
  function ParseCityState(address: Option<string>): (r: CityState)
    ensures !Truthy(address) ==> r == CityState(DefaultCity, DefaultState)
    ensures Truthy(address) ==> r == CityStateOfParts(AddressParts(address.value))
  {
    if !Truthy(address) then CityState(DefaultCity, DefaultState)
    else CityStateOfParts(AddressParts(address.value))
  }

  /** Two capitals standing alone are their own state. */
  lemma StateAlone(a: char, b: char)
    requires IsUpper(a) && IsUpper(b)
    ensures StateOf([a, b]) == [a, b]
  {
    assert StateAt([a, b], 0);
  }

  lemma TrimLeadingSpace(s: string)
    requires Trim(s) == s
    ensures Trim(" " + s) == s
  {
    assert (" " + s)[1..] == s;
  }

  lemma {:induction false} SplitThree(p: string, q: string, t: string)
    requires ',' !in p && ',' !in q && ',' !in t
    ensures Split(p + [','] + q + [','] + t, ',') == [p, q, t]
  {
    assert p + [','] + q + [','] + t == p + [','] + (q + [','] + t);
    SplitAfterPart(p, ',', q + [','] + t);
    SplitAfterPart(q, ',', t);
    SplitWithoutSeparator(t, ',');
  }

  /** The address a street, a city and a state are written as. */
  function FormatAddress(street: string, city: string, state: string): string {
    street + ", " + city + ", " + state
  }

  lemma AddressShape(street: string, city: string, state: string)
    ensures FormatAddress(street, city, state) == street + [','] + (" " + city) + [','] + (" " + state)
  {
  }

  lemma {:induction false} PartsOfFormatted(street: string, city: string, state: string)
    requires ',' !in street && ',' !in city && ',' !in state
    ensures AddressParts(FormatAddress(street, city, state)) == [Trim(street), Trim(" " + city), Trim(" " + state)]
  {
    AddressShape(street, city, state);
    SplitThree(street, " " + city, " " + state);
  }

  lemma TwoCapitalsTrimmed(a: char, b: char)
    requires IsUpper(a) && IsUpper(b)
    ensures Trim(" " + [a, b]) == [a, b]
  {
    var st: string := [a, b];
    assert SpaceFree(st[1..][1..]);
    assert SpaceFree(st);
    TrimNoSpace(st);
    TrimLeadingSpace(st);
  }

  /**
   * Reading back a formatted address: "street, city, ST" gives the city
   * and the state it was written with.
   */
  lemma {:induction false} CityStateRoundTrip(street: string, city: string, a: char, b: char)
    requires ',' !in street && ',' !in city
    requires Trim(city) == city
    requires IsUpper(a) && IsUpper(b)
    ensures ParseCityState(Some(FormatAddress(street, city, [a, b]))) == CityState(city, [a, b])
  {
    PartsOfFormatted(street, city, [a, b]);
    TrimLeadingSpace(city);
    TwoCapitalsTrimmed(a, b);
    StateAlone(a, b);
  }

  // ---------------------------------------------------------------
  // Search links
  // ---------------------------------------------------------------

  /** What a usable link starts with. */
  const Http := "http"

  const MapsSearch := Http + "s://www.google.com/maps/search/?api=1&query="
  const YelpSearch := Http + "s://www.yelp.com/search?find_desc="
  const YelpLocation := "&find_loc="
  const TikTokSearch := Http + "s://www.tiktok.com/search?q="

  predicate IsWebLink(s: string) { StartsWith(s, Http) }

  lemma WebPrefix(rest: string, x: string)
    ensures IsWebLink(Http + rest + x)
  {
    assert (Http + rest + x)[..|Http|] == Http;
  }

  lemma SearchLinksAreWebLinks(x: string)
    ensures IsWebLink(MapsSearch + x) && IsWebLink(YelpSearch + x) && IsWebLink(TikTokSearch + x)
  {
    WebPrefix(MapsSearch[|Http|..], x);
    WebPrefix(YelpSearch[|Http|..], x);
    WebPrefix(TikTokSearch[|Http|..], x);
  }

  /** Distinct texts encode to distinct texts, as `encodeURIComponent` does. */
  ghost predicate Injective(enc: string -> string) {
    forall x, y :: enc(x) == enc(y) ==> x == y
  }

  /** No encoded text holds a '&', as `encodeURIComponent` writes it "%26". */
  ghost predicate AmpFree(enc: string -> string) {
    forall x :: '&' !in enc(x)
  }

  /** `toMaps`: the name and address, trimmed, as the Maps query. */
  function ToMaps(enc: string -> string, name: string, address: Option<string>): (r: string)
    ensures IsWebLink(r)
  {
    var query := enc(Trim(name + " " + address.OrElse("")));
    SearchLinksAreWebLinks(query);
    MapsSearch + query
  }

  /** A Yelp search for `name` around `location`. */
  function YelpLink(enc: string -> string, name: string, location: string): (r: string)
    ensures IsWebLink(r)
  {
    var rest := enc(name) + YelpLocation + enc(location);
    SearchLinksAreWebLinks(rest);
    YelpSearch + rest
  }

  /** `toYelp`: the name as the query and "city, state" as the location. */
  function ToYelp(enc: string -> string, name: string, address: Option<string>): (r: string)
    ensures IsWebLink(r)
  {
    var cs := ParseCityState(address);
    YelpLink(enc, name, cs.city + ", " + cs.state)
  }

  /** `toTikTok`: "name city state" as the query. */
  function ToTikTok(enc: string -> string, name: string, address: Option<string>): (r: string)
    ensures IsWebLink(r)
  {
    var cs := ParseCityState(address);
    var query := enc(name + " " + cs.city + " " + cs.state);
    SearchLinksAreWebLinks(query);
    TikTokSearch + query
  }

  /** What follows a fixed prefix determines the text. */
  lemma DropPrefix(p: string, x: string, y: string)
    requires p + x == p + y
    ensures x == y
  {
    assert x == (p + x)[|p|..];
    assert y == (p + y)[|p|..];
  }

  /** The first `m` of `b + [m] + y` is not before the end of an `m`-free prefix `a`. */
  lemma MarkerNotBefore(a: string, x: string, b: string, y: string, m: char)
    requires m !in b
    requires a + [m] + x == b + [m] + y
    ensures |b| <= |a|
  {
    var t := b + [m] + y;
    assert t[|a|] == m;
    assert forall i :: 0 <= i < |b| ==> t[i] == b[i] && b[i] != m;
  }

  /** A text split at the first `m` of both sides splits the same way. */
  lemma SplitAtMarker(a: string, x: string, b: string, y: string, m: char)
    requires m !in a && m !in b
    requires a + [m] + x == b + [m] + y
    ensures a == b && x == y
  {
    MarkerNotBefore(a, x, b, y, m);
    MarkerNotBefore(b, y, a, x, m);
    var s := a + [m] + x;
    assert a == s[..|a|];
    assert b == (b + [m] + y)[..|b|];
    assert x == s[|a| + 1..];
    assert y == (b + [m] + y)[|b| + 1..];
  }

  /** A Yelp link is the prefix, the encoded name, a '&' and the rest of the location part. */
  lemma YelpLinkShape(enc: string -> string, name: string, location: string)
    ensures YelpLink(enc, name, location) == YelpSearch + (enc(name) + ['&'] + (YelpLocation[1..] + enc(location)))
  {
    assert YelpLocation == ['&'] + YelpLocation[1..];
  }

  /** Two Maps links are equal exactly when their trimmed "name address" texts are. */
  lemma MapsLinkReadsBack(enc: string -> string, name1: string, address1: Option<string>, name2: string, address2: Option<string>)
    requires Injective(enc)
    ensures ToMaps(enc, name1, address1) == ToMaps(enc, name2, address2)
            <==> Trim(name1 + " " + address1.OrElse("")) == Trim(name2 + " " + address2.OrElse(""))
  {
    var q1, q2 := Trim(name1 + " " + address1.OrElse("")), Trim(name2 + " " + address2.OrElse(""));
    if ToMaps(enc, name1, address1) == ToMaps(enc, name2, address2) {
      DropPrefix(MapsSearch, enc(q1), enc(q2));
    }
  }

  /**
   * A Yelp link gives back its name and location: the first '&' after the
   * prefix starts the location part, since no encoded text holds one.
   */
  lemma YelpLinkReadsBack(enc: string -> string, name1: string, location1: string, name2: string, location2: string)
    requires Injective(enc) && AmpFree(enc)
    ensures YelpLink(enc, name1, location1) == YelpLink(enc, name2, location2)
            <==> name1 == name2 && location1 == location2
  {
    if YelpLink(enc, name1, location1) == YelpLink(enc, name2, location2) {
      var tail := YelpLocation[1..];
      var x1, x2 := tail + enc(location1), tail + enc(location2);
      YelpLinkShape(enc, name1, location1);
      YelpLinkShape(enc, name2, location2);
      DropPrefix(YelpSearch, enc(name1) + ['&'] + x1, enc(name2) + ['&'] + x2);
      SplitAtMarker(enc(name1), x1, enc(name2), x2, '&');
      DropPrefix(tail, enc(location1), enc(location2));
    }
  }

  /** For "street, city, ST" the Yelp link searches around "city, ST", whatever the street. */
  lemma YelpOfFormattedAddress(enc: string -> string, name: string, street: string, city: string, a: char, b: char)
    requires ',' !in street && ',' !in city
    requires Trim(city) == city
    requires IsUpper(a) && IsUpper(b)
    ensures ToYelp(enc, name, Some(FormatAddress(street, city, [a, b]))) == YelpLink(enc, name, city + ", " + [a, b])
  {
    CityStateRoundTrip(street, city, a, b);
  }

  /** For "street, city, ST" the TikTok link searches "name city ST", whatever the street. */
  lemma TikTokOfFormattedAddress(enc: string -> string, name: string, street: string, city: string, a: char, b: char)
    requires ',' !in street && ',' !in city
    requires Trim(city) == city
    requires IsUpper(a) && IsUpper(b)
    ensures ToTikTok(enc, name, Some(FormatAddress(street, city, [a, b]))) == TikTokSearch + enc(name + " " + city + " " + [a, b])
  {
    CityStateRoundTrip(street, city, a, b);
  }

  /** Without an address both searches are around Detroit, MI. */
  lemma SearchWithoutAddress(enc: string -> string, name: string, address: Option<string>)
    requires !Truthy(address)
    ensures ToYelp(enc, name, address) == YelpLink(enc, name, "Detroit, MI")
    ensures ToTikTok(enc, name, address) == TikTokSearch + enc(name + " Detroit MI")
  {
    assert DefaultCity + ", " + DefaultState == "Detroit, MI";
    assert name + " " + DefaultCity + " " + DefaultState == name + " Detroit MI";
  }

  /** A supplied link is kept only when it starts with "http", so the choice always is a web link. */
  function PreferWebLink(supplied: Option<string>, built: string): (r: string)
    requires IsWebLink(built)
    ensures IsWebLink(r)
    ensures Truthy(supplied) && IsWebLink(supplied.value) ==> r == supplied.value
    ensures !(Truthy(supplied) && IsWebLink(supplied.value)) ==> r == built
  {
    if Truthy(supplied) && IsWebLink(supplied.value) then supplied.value else built
  }

  /** `mapsHref`: a supplied Maps link that starts with "http", else the built search. */
  function MapsHref(enc: string -> string, googleMapsUrl: Option<string>, name: string, address: Option<string>): (r: string)
    ensures IsWebLink(r)
    ensures Truthy(googleMapsUrl) && IsWebLink(googleMapsUrl.value) ==> r == googleMapsUrl.value
    ensures !(Truthy(googleMapsUrl) && IsWebLink(googleMapsUrl.value)) ==> r == ToMaps(enc, name, address)
  {
    PreferWebLink(googleMapsUrl, ToMaps(enc, name, address))
  }

  /** `yelpHref`: a supplied Yelp link that starts with "http", else the built search. */
  function YelpHref(enc: string -> string, yelpUrl: Option<string>, name: string, address: Option<string>): (r: string)
    ensures IsWebLink(r)
    ensures Truthy(yelpUrl) && IsWebLink(yelpUrl.value) ==> r == yelpUrl.value
    ensures !(Truthy(yelpUrl) && IsWebLink(yelpUrl.value)) ==> r == ToYelp(enc, name, address)
  {
    PreferWebLink(yelpUrl, ToYelp(enc, name, address))
  }
}
