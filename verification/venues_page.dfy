/**
 * `restored/pages/venues.tsx`, `getStaticProps`: every entry of the media
 * map becomes one card. The map's entry order (what `Object.entries`
 * yields for the parsed JSON) is a parameter.
 */
module VenuesPage {
  import opened Optional
  import opened Text
  import opened Lists
  import opened MediaDb

  /** A card; `None` stands for `null`. */
  datatype Card = Card(slug: string, title: string, imageUrl: Option<string>, category: Option<string>, tags: seq<string>)

  /** `m.hero_image_url ?? (m.gallery_urls?.[0] ?? null)`. */
  function CardImage(m: MediaRecord): (url: Option<string>)
    ensures m.hero.Some? ==> url == m.hero
    ensures m.hero.None? && m.gallery.Some? && |m.gallery.value| > 0 ==> url == Some(m.gallery.value[0])
    ensures url.None? <==> m.hero.None? && (m.gallery.None? || |m.gallery.value| == 0)
  {
    if m.hero.Some? then m.hero
    else if m.gallery.Some? && |m.gallery.value| > 0 then Some(m.gallery.value[0])
    else None
  }

  /** A shown picture is the record's hero or one of its gallery pictures. */
  lemma CardImageFromRecord(m: MediaRecord)
    ensures CardImage(m).Some? ==>
      (m.hero.Some? && CardImage(m).value == m.hero.value) ||
      (m.gallery.Some? && CardImage(m).value in m.gallery.value)
  {
  }

  /** The card for one entry. */
  function CardOf(slug: string, m: MediaRecord): (c: Card)
    ensures c.slug == slug
    ensures |c.title| == |slug| && '_' !in c.title
    ensures forall i :: 0 <= i < |slug| && slug[i] != '_' ==> c.title[i] == slug[i]
    ensures forall i :: 0 <= i < |slug| && slug[i] == '_' ==> c.title[i] == ' '
    ensures c.imageUrl == CardImage(m)
    ensures c.category.None? && c.tags == []
  {
    Card(slug, ReplaceAll(slug, '_', ' '), CardImage(m), None, [])
  }

  /** A slug without spaces can be read back from its title. */
  lemma TitleGivesBackSlug(slug: string, m: MediaRecord)
    requires ' ' !in slug
    ensures ReplaceAll(CardOf(slug, m).title, ' ', '_') == slug
  {
  }

  /** `Object.entries(db).map(...)` for entries in the order `keys`. */
  function Cards(db: Db, keys: seq<string>): (cards: seq<Card>)
    requires Distinct(keys)
    requires forall k :: k in keys <==> k in db
    // the cards follow the entry order
    ensures |cards| == |keys|
    ensures forall i :: 0 <= i < |keys| ==> cards[i].slug == keys[i]
  {
    seq(|keys|, i requires 0 <= i < |keys| => CardOf(keys[i], db[keys[i]]))
  }

  /** Exactly one card per entry, carrying the entry's key as its slug. */
  lemma OneCardPerEntry(db: Db, keys: seq<string>)
    requires Distinct(keys)
    requires forall k :: k in keys <==> k in db
    ensures var cards := Cards(db, keys);
      |cards| == |db| &&
      (forall k :: k in db ==> exists i :: 0 <= i < |cards| && cards[i].slug == k && cards[i] == CardOf(k, db[k])) &&
      (forall i, j :: 0 <= i < j < |cards| ==> cards[i].slug != cards[j].slug)
  {
    DistinctKeysCount(keys, db.Keys);
    var cards := Cards(db, keys);
    forall k | k in db
      ensures exists i :: 0 <= i < |cards| && cards[i].slug == k && cards[i] == CardOf(k, db[k])
    {
      var i :| 0 <= i < |keys| && keys[i] == k;
      assert cards[i].slug == k;
    }
  }

  /** A sequence without repeats has as many elements as the set it lists. */
  lemma {:induction false} DistinctKeysCount(keys: seq<string>, s: set<string>)
    requires Distinct(keys)
    requires forall k :: k in keys <==> k in s
    ensures |keys| == |s|
    decreases |keys|
  {
    if |keys| > 0 {
      var last := keys[|keys| - 1];
      var init := keys[..|keys| - 1];
      assert forall k :: k in init <==> k in s - {last} by {
        forall k
          ensures k in init <==> k in s - {last}
        {
          if k in init {
            var i :| 0 <= i < |init| && init[i] == k;
            assert keys[i] == k;
          }
          if k in s - {last} {
            assert k in keys;
            var i :| 0 <= i < |keys| && keys[i] == k;
            assert i != |keys| - 1;
            assert init[i] == k;
          }
        }
      }
      DistinctKeysCount(init, s - {last});
    } else {
      assert forall k :: k !in s;
      assert s == {};
    }
  }
}
