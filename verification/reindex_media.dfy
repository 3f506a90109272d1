/**
 * `scripts/reindexMedia.cjs`: rebuild one venue's media record from the
 * files already in its media folder. Pictures are grouped by stem (the file
 * name without its extension and without a trailing `_1200` or `_800`);
 * the hero comes from the first stem in sorted order and the gallery holds
 * one thumbnail per stem. The folder listing, the comparator behind
 * `localeCompare` and the timestamp are parameters.
 */
module ReindexMedia {
  import opened Optional
  import opened Text
  import opened Lists
  import opened MediaDb

  // ---------------------------------------------------------------
  // Names
  // ---------------------------------------------------------------

  /** `/suffix$/i` for a lower-case suffix. */
  predicate EndsWithAnyCase(s: string, suffix: string): (b: bool)
    ensures b ==> |suffix| <= |s|
    decreases |suffix|
  {
    |suffix| == 0 ||
    (|s| > 0 && LowerChar(s[|s| - 1]) == suffix[|suffix| - 1] && EndsWithAnyCase(s[..|s| - 1], suffix[..|suffix| - 1]))
  }

  /** For a suffix without letters, case-insensitive matching is plain matching. */
  lemma {:induction false} EndsWithAnyCaseCaseless(s: string, t: string)
    requires forall i :: 0 <= i < |t| ==> !IsLower(t[i]) && !IsUpper(t[i])
    ensures EndsWithAnyCase(s, t) <==> EndsWith(s, t)
    decreases |t|
  {
    if |t| > 0 && |s| > 0 {
      var s', t' := s[..|s| - 1], t[..|t| - 1];
      EndsWithAnyCaseCaseless(s', t');
      if |t'| <= |s'| {
        assert s[|s| - |t|..] == s'[|s'| - |t'|..] + [s[|s| - 1]];
        assert t == t' + [t[|t| - 1]];
      }
    }
  }

  /** `stripSizeSuffix`: `/_(1200|800)$/i` replaced by nothing. */
  function StripSizeSuffix(name: string): string {
    if EndsWithAnyCase(name, "_1200") then name[..|name| - 5]
    else if EndsWithAnyCase(name, "_800") then name[..|name| - 4]
    else name
  }

  /** Only a trailing `_1200` or `_800` goes; anything else is left alone. */
  lemma StripSizeSuffixMeaning(name: string)
    ensures EndsWith(name, "_1200") ==> StripSizeSuffix(name) == name[..|name| - 5]
    ensures !EndsWith(name, "_1200") && EndsWith(name, "_800") ==> StripSizeSuffix(name) == name[..|name| - 4]
    ensures !EndsWith(name, "_1200") && !EndsWith(name, "_800") ==> StripSizeSuffix(name) == name
  {
    EndsWithAnyCaseCaseless(name, "_1200");
    EndsWithAnyCaseCaseless(name, "_800");
  }

  lemma NotBothSizes(name: string)
    ensures !(EndsWith(name, "_1200") && EndsWith(name, "_800"))
  {
    if EndsWith(name, "_1200") {
      assert name[|name| - 3] == "_1200"[2];
    }
  }

  /** Stripping undoes the size suffix the import script appends. */
  lemma StripSizeSuffixUndoesSize(stem: string)
    ensures StripSizeSuffix(stem + "_1200") == stem
    ensures StripSizeSuffix(stem + "_800") == stem
  {
    assert EndsWith(stem + "_1200", "_1200") by {
      assert (stem + "_1200")[|stem|..] == "_1200";
    }
    StripSizeSuffixMeaning(stem + "_1200");
    assert (stem + "_1200")[..|stem|] == stem;
    assert EndsWith(stem + "_800", "_800") by {
      assert (stem + "_800")[|stem|..] == "_800";
    }
    NotBothSizes(stem + "_800");
    StripSizeSuffixMeaning(stem + "_800");
    assert (stem + "_800")[..|stem|] == stem;
  }

  /** The image filter: `.jpg`, `.jpeg` or `.webp` in any case, and no `.png`. */
  predicate IsIndexedImage(f: string) {
    EndsWithAnyCase(f, ".jpg") || EndsWithAnyCase(f, ".jpeg") || EndsWithAnyCase(f, ".webp")
  }

  /** `f.replace(/\.(jpe?g|webp)$/i, '')`. */
  function DropImageExtension(f: string): string {
    if EndsWithAnyCase(f, ".jpeg") || EndsWithAnyCase(f, ".webp") then f[..|f| - 5]
    else if EndsWithAnyCase(f, ".jpg") then f[..|f| - 4]
    else f
  }

  /** The group key of a file. */
  function StemOf(f: string): string {
    StripSizeSuffix(DropImageExtension(f))
  }

  // ---------------------------------------------------------------
  // Hero and thumbnail choice
  // ---------------------------------------------------------------

  predicate IsJpg1200(f: string) { EndsWithAnyCase(f, "_1200.jpg") || EndsWithAnyCase(f, "_1200.jpeg") }
  predicate IsWebp1200(f: string) { EndsWithAnyCase(f, "_1200.webp") }
  predicate IsAny1200(f: string) { Contains(Lower(f), "_1200.") }
  predicate IsJpg800(f: string) { EndsWithAnyCase(f, "_800.jpg") || EndsWithAnyCase(f, "_800.jpeg") }
  predicate IsWebp800(f: string) { EndsWithAnyCase(f, "_800.webp") }

  /** How much a file is wanted as the hero: lower is better. */
  function HeroRank(f: string): nat {
    if IsJpg1200(f) then 0 else if IsWebp1200(f) then 1 else if IsAny1200(f) then 2 else 3
  }

  /** How much a file is wanted as a thumbnail: lower is better. */
  function ThumbRank(f: string): nat {
    if IsJpg800(f) then 0 else if IsWebp800(f) then 1 else 2
  }

  /** `files[i]` has the best rank, and no earlier file has it too. */
  predicate FirstBest(files: seq<string>, i: int, rank: string -> nat) {
    0 <= i < |files| &&
    forall j :: 0 <= j < |files| ==>
      rank(files[i]) <= rank(files[j]) && (j < i ==> rank(files[i]) < rank(files[j]))
  }

  /** The index `pickHero` takes its file from. */
  function PickHeroIndex(files: seq<string>): (i: nat)
    requires |files| > 0
    ensures FirstBest(files, i, HeroRank)
  {
    match Find(files, IsJpg1200)
    case Some(i) => i
    case None =>
      match Find(files, IsWebp1200)
      case Some(i) => i
      case None =>
        match Find(files, IsAny1200)
        case Some(i) => i
        case None => 0
  }

  /** `pickHero`. */
  function PickHero(files: seq<string>): (f: string)
    requires |files| > 0
    ensures exists i :: FirstBest(files, i, HeroRank) && f == files[i]
  {
    files[PickHeroIndex(files)]
  }

  /** The index `pickThumb` takes its file from. */
  function PickThumbIndex(files: seq<string>): (i: nat)
    requires |files| > 0
    ensures FirstBest(files, i, ThumbRank)
  {
    match Find(files, IsJpg800)
    case Some(i) => i
    case None =>
      match Find(files, IsWebp800)
      case Some(i) => i
      case None => 0
  }

  /** `pickThumb`. */
  function PickThumb(files: seq<string>): (f: string)
    requires |files| > 0
    ensures exists i :: FirstBest(files, i, ThumbRank) && f == files[i]
  {
    files[PickThumbIndex(files)]
  }

  /** A file that alone has the best rank is chosen, wherever it stands. */
  lemma OnlyBestIsChosen(files: seq<string>, x: string, rank: string -> nat)
    requires x in files
    requires forall f :: f in files && f != x ==> rank(x) < rank(f)
    ensures forall i :: FirstBest(files, i, rank) ==> files[i] == x
  {
    forall i | FirstBest(files, i, rank)
      ensures files[i] == x
    {
      var k :| 0 <= k < |files| && files[k] == x;
      assert rank(files[i]) <= rank(files[k]);
    }
  }

  // ---------------------------------------------------------------
  // Grouping
  // ---------------------------------------------------------------

  /**
   * The `for (const f of images)` loop that fills the `groups` map: a key
   * is added the first time its stem is seen, and each file is pushed onto
   * its stem's list. `stemOf` is the key function; the script's is `StemOf`.
   */
  method GroupByStem(images: seq<string>, stemOf: string -> string)
    returns (keys: seq<string>, groups: map<string, seq<string>>)
    ensures keys == GroupKeys(images, stemOf)
    ensures forall k :: k in groups <==> k in keys
    ensures forall k :: k in groups ==> groups[k] == GroupOf(images, stemOf, k)
  {
    keys := [];
    groups := map[];
    var i := 0;
    while i < |images|
      invariant 0 <= i <= |images|
      invariant keys == Dedup(KeyList(images[..i], stemOf))
      invariant forall k :: k in groups <==> k in keys
      invariant GroupsOf(groups, images[..i], stemOf)
    {
      var f := images[i];
      var stem := stemOf(f);
      TakeOneMore(images, i);
      KeyListSnoc(images[..i], stemOf, f);
      if stem !in groups {
        GroupOfAbsent(images[..i], stemOf, stem);
      }
      PushKeepsGroups(groups, images[..i], stemOf, f);
      if stem !in groups {
        keys := keys + [stem];
      }
      groups := Push(groups, stem, f);
      i := i + 1;
    }
    assert images[..i] == images;
  }

  // ---------------------------------------------------------------
  // The record
  // ---------------------------------------------------------------

  /** The pictures of a listing that get indexed. */
  function Images(listing: seq<string>): (images: seq<string>)
    ensures forall f :: f in images <==> f in listing && IsIndexedImage(f)
  {
    Filter(listing, IsIndexedImage)
  }

  /** The pictures stay in listing order: a listing filters part by part, one file at a time. */
  lemma ImagesKeepOrder(front: seq<string>, back: seq<string>, f: string)
    ensures Images(front + back) == Images(front) + Images(back)
    ensures Images([f]) == if IsIndexedImage(f) then [f] else []
  {
    FilterAppend(front, back, IsIndexedImage);
    FilterSingle(f, IsIndexedImage);
  }

  /** `stems`: the group keys sorted with the comparator. */
  function SortedStems(images: seq<string>, stemOf: string -> string, before: (string, string) -> bool): (stems: seq<string>)
    ensures Distinct(stems)
    ensures forall k :: k in stems <==> exists f :: f in images && stemOf(f) == k
    ensures StrictOrder(before) ==> Sorted(stems, before)
  {
    var keys := GroupKeys(images, stemOf);
    SortByKeepsElements(keys, before);
    SortByKeepsDistinct(keys, before);
    SortedUnderStrictOrder(keys, before);
    SortBy(keys, before)
  }

  /** `groups.get(stem).sort()`: one group in the default order. */
  function SortedGroup(images: seq<string>, stemOf: string -> string, k: string): (g: seq<string>)
    ensures forall f :: f in g <==> f in images && stemOf(f) == k
    ensures Sorted(g, CodeUnitBefore)
  {
    SortByKeepsElements(GroupOf(images, stemOf, k), CodeUnitBefore);
    CodeUnitOrderIsStrict();
    SortBySorted(GroupOf(images, stemOf, k), CodeUnitBefore);
    SortBy(GroupOf(images, stemOf, k), CodeUnitBefore)
  }

  /** `url` is the media URL of one of the pictures with stem `k`. */
  predicate PictureOfStem(url: string, slug: string, images: seq<string>, stemOf: string -> string, k: string) {
    exists f :: f in images && stemOf(f) == k && url == MediaUrl(slug, f)
  }

  /** `url` is the media URL of the first file of `group` with the best `rank`. */
  predicate BestOf(url: string, slug: string, group: seq<string>, rank: string -> nat) {
    exists j :: 0 <= j < |group| && FirstBest(group, j, rank) && url == MediaUrl(slug, group[j])
  }

  /**
   * One gallery entry per stem, in stem order: the best thumbnail of the
   * stem's group in code-unit order, so a picture of that stem.
   */
  predicate GalleryFor(g: seq<string>, slug: string, images: seq<string>, stemOf: string -> string, stems: seq<string>) {
    |g| == |stems| &&
    forall i :: 0 <= i < |stems| ==>
      && PictureOfStem(g[i], slug, images, stemOf, stems[i])
      && BestOf(g[i], slug, SortedGroup(images, stemOf, stems[i]), ThumbRank)
  }

  /** `galleryUrls`: the best thumbnail of each stem's sorted group, stem by stem. */
  function Gallery(slug: string, images: seq<string>, stemOf: string -> string, stems: seq<string>): (g: seq<string>)
    requires forall i :: 0 <= i < |stems| ==> stems[i] in GroupKeys(images, stemOf)
    ensures GalleryFor(g, slug, images, stemOf, stems)
  {
    seq(|stems|, i requires 0 <= i < |stems| =>
      GroupNonEmpty(images, stemOf, stems[i]);
      MediaUrl(slug, PickThumb(SortedGroup(images, stemOf, stems[i]))))
  }

  /** The hero: the best hero file of the first stem's group, in listing order. */
  function Hero(slug: string, images: seq<string>, stemOf: string -> string, first: string): (h: string)
    requires first in GroupKeys(images, stemOf)
    ensures PictureOfStem(h, slug, images, stemOf, first)
    ensures BestOf(h, slug, GroupOf(images, stemOf, first), HeroRank)
  {
    GroupNonEmpty(images, stemOf, first);
    MediaUrl(slug, PickHero(GroupOf(images, stemOf, first)))
  }

  /** What a run leaves for a venue whose pictures are `images`, grouped by `stemOf`. */
  predicate IndexedRecord(r: MediaRecord, slug: string, images: seq<string>, stemOf: string -> string,
                          stamp: string, before: (string, string) -> bool)
  {
    var stems := SortedStems(images, stemOf, before);
    |stems| > 0 &&
    r.hero.Some? && r.gallery.Some? &&
    // the hero is the best hero file of the first stem's group, in listing order
    PictureOfStem(r.hero.value, slug, images, stemOf, stems[0]) &&
    BestOf(r.hero.value, slug, GroupOf(images, stemOf, stems[0]), HeroRank) &&
    // one gallery entry per stem, in stem order
    GalleryFor(r.gallery.value, slug, images, stemOf, stems) &&
    r.updated == Some(stamp) &&
    // the record is written whole: nothing else survives
    r.extra == map[]
  }

  /** The record for a non-empty set of pictures. */
  function Record(slug: string, images: seq<string>, stemOf: string -> string, stamp: string,
                  before: (string, string) -> bool): (r: MediaRecord)
    requires |images| > 0
    ensures IndexedRecord(r, slug, images, stemOf, stamp, before)
  {
    var stems := SortedStems(images, stemOf, before);
    assert images[0] in images;
    assert stemOf(images[0]) in stems;
    assert forall i :: 0 <= i < |stems| ==> stems[i] in GroupKeys(images, stemOf) by {
      forall i | 0 <= i < |stems|
        ensures stems[i] in GroupKeys(images, stemOf)
      {
        assert stems[i] in stems;
      }
    }
    var hero := Hero(slug, images, stemOf, stems[0]);
    var gallery := Gallery(slug, images, stemOf, stems);
    MediaRecord(Some(hero), Some(gallery), Some(stamp), map[])
  }

  /** The map after a run that found `images` under `slug`: only that entry changes. */
  function Replaced(db: Db, slug: string, images: seq<string>, stemOf: string -> string, stamp: string,
                    before: (string, string) -> bool): (db': Db)
    requires |images| > 0
    ensures ReplacesOnly(db, db', slug)
    ensures IndexedRecord(db'[slug], slug, images, stemOf, stamp, before)
  {
    db[slug := Record(slug, images, stemOf, stamp, before)]
  }

  /**
   * The whole script: a slug argument, the folder listing, the current map,
   * the timestamp and the comparator in; the new map or the reason for
   * exit code 1 out.
   */
  function Reindex(slug: Option<string>, listing: seq<string>, db: Db, stamp: string,
                   before: (string, string) -> bool): (r: Outcome)
    ensures !Truthy(slug) ==> r == Failed(Usage)
    ensures Truthy(slug) && (forall f :: f in listing ==> !IsIndexedImage(f)) ==> r == Failed(NoImages)
    ensures Truthy(slug) && (exists f :: f in listing && IsIndexedImage(f)) ==>
      |Images(listing)| > 0 && r == Updated(Replaced(db, slug.value, Images(listing), StemOf, stamp, before))
  {
    if !Truthy(slug) then Failed(Usage)
    else
      var images := Images(listing);
      if |images| == 0 then Failed(NoImages)
      else Updated(Replaced(db, slug.value, images, StemOf, stamp, before))
  }
}
