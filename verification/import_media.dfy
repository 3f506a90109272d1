/**
 * `scripts/importMedia.cjs`: copy a venue's pictures into its media folder
 * as `stem_1200` and `stem_800` in JPEG and WebP, and point the venue's
 * record at them. The command line is a token list; the directory walk,
 * the comparator behind `localeCompare` and the timestamp are parameters.
 */
module ImportMedia {
  import opened Optional
  import opened Text
  import opened Lists
  import opened MediaDb
  import opened ReindexMedia

  // ---------------------------------------------------------------
  // Arguments
  // ---------------------------------------------------------------

  /** What `parseArgs` collects; an absent field is `undefined`. */
  datatype Args = Args(imagesZip: Option<string>, imagesDir: Option<string>, venue: Option<string>)

  const NoArgs := Args(None, None, None)

  const ZipFlag := "--imagesZip"
  const DirFlag := "--imagesDir"
  const VenueFlag := "--venue"

  predicate IsFlag(t: string) { t == ZipFlag || t == DirFlag || t == VenueFlag }

  /** `a[++i]`: the token after position `i`, or `undefined` past the end. */
  function ValueAfter(a: seq<string>, i: nat): (v: Option<string>)
    ensures v.Some? <==> i + 1 < |a|
    ensures v.Some? ==> v.value == a[i + 1]
  {
    if i + 1 < |a| then Some(a[i + 1]) else None
  }

  /** Record one flag's value in `args`. */
  function SetFlag(args: Args, flag: string, v: Option<string>): Args
    requires IsFlag(flag)
  {
    if flag == ZipFlag then args.(imagesZip := v)
    else if flag == DirFlag then args.(imagesDir := v)
    else args.(venue := v)
  }

  /** The `for` loop of `parseArgs` from position `i` on: a flag consumes the next token. */
  function ParseFrom(a: seq<string>, i: nat, args: Args): Args
    decreases |a| - i
  {
    if i >= |a| then args
    else if IsFlag(a[i]) then ParseFrom(a, i + 2, SetFlag(args, a[i], ValueAfter(a, i)))
    else ParseFrom(a, i + 1, args)
  }

  /** `parseArgs` over the tokens after the script name. */
  function ParseArgs(a: seq<string>): Args {
    ParseFrom(a, 0, NoArgs)
  }

  /** Where the loop leaves `i`: `|a|`, or one past it when the last token is a flag. */
  function ScanEnd(a: seq<string>, i: nat): (e: nat)
    ensures e >= i
    decreases |a| - i
  {
    if i >= |a| then i
    else if IsFlag(a[i]) then ScanEnd(a, i + 2)
    else ScanEnd(a, i + 1)
  }

  /** The loop reads `a` to its end without a flag left hanging. */
  predicate Aligned(a: seq<string>) { ScanEnd(a, 0) == |a| }

  /** Tokens after a prefix are read as if the prefix were not there. */
  lemma {:induction false} ParseShift(c: seq<string>, b: seq<string>, j: nat, args: Args)
    ensures ParseFrom(c + b, |c| + j, args) == ParseFrom(b, j, args)
    decreases |b| - j
  {
    if j < |b| {
      assert (c + b)[|c| + j] == b[j];
      if IsFlag(b[j]) {
        assert ValueAfter(c + b, |c| + j) == ValueAfter(b, j);
        ParseShift(c, b, j + 2, SetFlag(args, b[j], ValueAfter(b, j)));
      } else {
        ParseShift(c, b, j + 1, args);
      }
    }
  }

  /** Reading an aligned prefix, then the rest, is reading the whole. */
  lemma {:induction false} ParseSplit(a: seq<string>, b: seq<string>, i: nat, args: Args)
    requires i <= |a|
    requires ScanEnd(a, i) == |a|
    ensures ParseFrom(a + b, i, args) == ParseFrom(b, 0, ParseFrom(a, i, args))
    decreases |a| - i
  {
    if i == |a| {
      ParseShift(a, b, 0, args);
    } else {
      assert (a + b)[i] == a[i];
      if IsFlag(a[i]) {
        assert ValueAfter(a + b, i) == ValueAfter(a, i);
        ParseSplit(a, b, i + 2, SetFlag(args, a[i], ValueAfter(a, i)));
      } else {
        ParseSplit(a, b, i + 1, args);
      }
    }
  }

  /** A flag followed by a value sets exactly that field, whatever came before. */
  lemma LaterOverrides(a: seq<string>, flag: string, v: string)
    requires Aligned(a)
    requires IsFlag(flag)
    ensures ParseArgs(a + [flag, v]) == SetFlag(ParseArgs(a), flag, Some(v))
  {
    ParseSplit(a, [flag, v], 0, NoArgs);
  }

  /** A flag as the last token sets its field to `undefined`. */
  lemma DanglingFlag(a: seq<string>, flag: string)
    requires Aligned(a)
    requires IsFlag(flag)
    ensures ParseArgs(a + [flag]) == SetFlag(ParseArgs(a), flag, None)
  {
    ParseSplit(a, [flag], 0, NoArgs);
  }

  /** A token that is not a flag, read where a flag could stand, changes nothing. */
  lemma IgnoresOther(a: seq<string>, t: string, b: seq<string>)
    requires Aligned(a)
    requires !IsFlag(t)
    ensures ParseArgs(a + [t] + b) == ParseArgs(a + b)
  {
    ParseSplit(a, [t] + b, 0, NoArgs);
    ParseShift([t], b, 0, ParseArgs(a));
    assert ParseFrom([t] + b, 0, ParseArgs(a)) == ParseFrom([t] + b, 1, ParseArgs(a));
    ParseSplit(a, b, 0, NoArgs);
    assert a + [t] + b == a + ([t] + b);
  }

  /** Every flag takes the next token as its value, even when it looks like a flag. */
  lemma FlagTakesNextToken(flag: string, v: string, b: seq<string>)
    requires IsFlag(flag)
    ensures ParseArgs([flag, v] + b) == ParseFrom(b, 0, SetFlag(NoArgs, flag, Some(v)))
  {
    ParseShift([flag, v], b, 0, SetFlag(NoArgs, flag, Some(v)));
    assert ([flag, v] + b)[0] == flag;
    assert ([flag, v] + b)[1] == v;
  }

  // ---------------------------------------------------------------
  // Names
  // ---------------------------------------------------------------

  /** `/\.(jpe?g|png|webp)$/i`: the paths the walk collects. */
  predicate IsImportable(p: string) {
    EndsWithAnyCase(p, ".jpg") || EndsWithAnyCase(p, ".jpeg") || EndsWithAnyCase(p, ".png") || EndsWithAnyCase(p, ".webp")
  }

  /** Every picture the reindex script indexes is one this script collects. */
  lemma IndexedIsImportable(p: string)
    requires IsIndexedImage(p)
    ensures IsImportable(p)
  {
  }

  /** The last segment of a path. */
  function BaseName(p: string): (b: string)
    ensures '/' !in b
    ensures EndsWith(p, b)
  {
    match LastIndexOf(p, '/')
    case None => p
    case Some(k) => p[k + 1..]
  }

  /** `path.parse(p).name`: the base name without its last extension; a leading dot starts no extension. */
  function ParsedName(p: string): (name: string)
    ensures '/' !in name
  {
    var base := BaseName(p);
    match LastIndexOf(base, '.')
    case Some(k) => if k == 0 then base else base[..k]
    case None => base
  }

  /** What one character contributes to `s.replace(/\s+/g, '_')` when `inRun` tells whether a white-space run is already open. */
  function Piece(c: char, inRun: bool): string {
    if !IsSpace(c) then [c] else if inRun then "" else "_"
  }

  /** `s.replace(/\s+/g, '_')` read from `inRun` on. */
  function Collapse(s: string, inRun: bool): (r: string)
    ensures |r| <= |s|
  {
    if |s| == 0 then "" else Piece(s[0], inRun) + Collapse(s[1..], IsSpace(s[0]))
  }

  /** No white space is left after the replacement. */
  lemma {:induction false} CollapseSpaceFree(s: string, inRun: bool)
    ensures SpaceFree(Collapse(s, inRun))
    decreases |s|
  {
    if |s| > 0 {
      CollapseSpaceFree(s[1..], IsSpace(s[0]));
      var rest := Collapse(s[1..], IsSpace(s[0]));
      var r := Collapse(s, inRun);
      if |Piece(s[0], inRun)| == 1 {
        assert r[1..] == rest;
      } else {
        assert r == rest;
      }
    }
  }

  function CollapseSpaces(s: string): string {
    Collapse(s, false)
  }

  /** Whether a run is open after reading `a`. */
  function RunOpenAfter(a: string, inRun: bool): bool {
    if |a| == 0 then inRun else IsSpace(a[|a| - 1])
  }

  /** Reading past the first character does not change whether a run is open at the end. */
  lemma RunOpenAfterTail(a: string, inRun: bool)
    requires |a| > 0
    ensures RunOpenAfter(a[1..], IsSpace(a[0])) == RunOpenAfter(a, inRun)
  {
    if |a| > 1 {
      assert a[1..][|a| - 2] == a[|a| - 1];
    }
  }

  /** The first character of `a + b` is that of `a`, and the rest is the rest of `a`, then `b`. */
  lemma HeadAndTail(a: string, b: string)
    requires |a| > 0
    ensures (a + b)[0] == a[0] && (a + b)[1..] == a[1..] + b
  {
  }

  /** The step of `CollapseAppend`: from the tail's case to the whole. */
  lemma CollapseAppendStep(a: string, b: string, inRun: bool)
    requires |a| > 0
    requires Collapse(a[1..] + b, IsSpace(a[0]))
             == Collapse(a[1..], IsSpace(a[0])) + Collapse(b, RunOpenAfter(a[1..], IsSpace(a[0])))
    ensures Collapse(a + b, inRun) == Collapse(a, inRun) + Collapse(b, RunOpenAfter(a, inRun))
  {
    var head, rest, tail := Piece(a[0], inRun), Collapse(a[1..], IsSpace(a[0])), Collapse(b, RunOpenAfter(a, inRun));
    HeadAndTail(a, b);
    RunOpenAfterTail(a, inRun);
    assert Collapse(a + b, inRun) == head + (rest + tail);
    assert Collapse(a, inRun) == head + rest;
    AppendAssociates(head, rest, tail);
  }

  lemma AppendAssociates(x: string, y: string, z: string)
    ensures x + (y + z) == (x + y) + z
  {
  }

  lemma {:induction false} CollapseAppend(a: string, b: string, inRun: bool)
    ensures Collapse(a + b, inRun) == Collapse(a, inRun) + Collapse(b, RunOpenAfter(a, inRun))
    decreases |a|
  {
    if |a| > 0 {
      CollapseAppend(a[1..], b, IsSpace(a[0]));
      CollapseAppendStep(a, b, inRun);
    } else {
      assert a + b == b;
    }
  }

  /** Text without white space is left as it is. */
  lemma {:induction false} CollapseKeepsSpaceFree(s: string, inRun: bool)
    requires SpaceFree(s)
    ensures Collapse(s, inRun) == s
    decreases |s|
  {
    if |s| > 0 {
      CollapseKeepsSpaceFree(s[1..], false);
    }
  }

  /** A run of white space, however long, becomes one underscore. */
  lemma {:induction false} RunBecomesOneUnderscore(w: string, inRun: bool)
    requires |w| > 0
    requires forall i :: 0 <= i < |w| ==> IsSpace(w[i])
    ensures Collapse(w, inRun) == (if inRun then "" else "_")
    decreases |w|
  {
    if |w| > 1 {
      RunBecomesOneUnderscore(w[1..], true);
    }
  }

  /** Each maximal white-space run between two words turns into a single `_`. */
  lemma CollapseRun(a: string, w: string, b: string)
    requires |a| > 0 && !IsSpace(a[|a| - 1])
    requires |w| > 0 && forall i :: 0 <= i < |w| ==> IsSpace(w[i])
    requires |b| > 0 && !IsSpace(b[0])
    ensures CollapseSpaces(a + w + b) == CollapseSpaces(a) + "_" + CollapseSpaces(b)
  {
    assert a + w + b == a + (w + b);
    CollapseAppend(a, w + b, false);
    assert !RunOpenAfter(a, false);
    CollapseAppend(w, b, false);
    RunBecomesOneUnderscore(w, false);
    assert RunOpenAfter(w, false);
    CollapseAfterWord(b);
    AppendAssociates(CollapseSpaces(a), "_", CollapseSpaces(b));
  }

  /** A text that starts with a word collapses the same whether or not a run was open before it. */
  lemma CollapseAfterWord(b: string)
    requires |b| > 0 && !IsSpace(b[0])
    ensures Collapse(b, true) == Collapse(b, false)
  {
    assert Piece(b[0], true) == Piece(b[0], false);
  }

  /** `base.replace(/\s+/g, '_').toLowerCase()`. */
  function Stem(p: string): string {
    Lower(CollapseSpaces(ParsedName(p)))
  }

  /** A stem has no white space and no capital letter. */
  lemma StemShape(p: string)
    ensures SpaceFree(Stem(p))
    ensures forall i :: 0 <= i < |Stem(p)| ==> !IsUpper(Stem(p)[i])
  {
    var collapsed := CollapseSpaces(ParsedName(p));
    CollapseSpaceFree(ParsedName(p), false);
    SpaceFreeAt(collapsed);
    LowerSpaceFree(collapsed);
    LowerHasNoCapital(collapsed);
  }

  /** Lower-casing leaves no ASCII capital. */
  lemma LowerHasNoCapital(s: string)
    ensures forall i :: 0 <= i < |Lower(s)| ==> !IsUpper(Lower(s)[i])
  {
    forall i | 0 <= i < |Lower(s)|
      ensures !IsUpper(Lower(s)[i])
    {
      assert Lower(s)[i] == LowerChar(s[i]);
    }
  }

  /** The last `c` of `a + [c] + b` is the one after `a` when `b` holds none. */
  lemma {:induction false} LastSeparator(a: string, b: string, c: char)
    requires c !in b
    ensures LastIndexOf(a + [c] + b, c) == Some(|a|)
    decreases |b|
  {
    var s := a + [c] + b;
    if |b| > 0 {
      assert s[|s| - 1] == b[|b| - 1];
      assert s[..|s| - 1] == a + [c] + b[..|b| - 1];
      LastSeparator(a, b[..|b| - 1], c);
    }
  }

  /**
   * The stem of "dir/name.ext" is the name alone, its white-space runs
   * collapsed and lower-cased: the directory and the extension play no part.
   */
  lemma StemOfFile(dir: string, name: string, ext: string)
    requires |name| > 0 && '/' !in name && '.' !in name
    requires '/' !in ext && '.' !in ext
    ensures Stem(dir + "/" + name + "." + ext) == Lower(CollapseSpaces(name))
  {
    var file := name + "." + ext;
    assert file == name + ['.'] + ext;
    assert dir + "/" + name + "." + ext == dir + ['/'] + file;
    LastSeparator(dir, file, '/');
    assert BaseName(dir + "/" + name + "." + ext) == file;
    LastSeparator(name, ext, '.');
    assert file[..|name|] == name;
  }

  lemma LowerSpaceFree(s: string)
    requires forall i :: 0 <= i < |s| ==> !IsSpace(s[i])
    ensures SpaceFree(Lower(s))
  {
    var r := Lower(s);
    assert forall i :: 0 <= i < |r| ==> !IsSpace(r[i]);
    SpaceFreeFromAll(r);
  }

  lemma {:induction false} SpaceFreeFromAll(s: string)
    requires forall i :: 0 <= i < |s| ==> !IsSpace(s[i])
    ensures SpaceFree(s)
    decreases |s|
  {
    if |s| > 0 {
      assert forall i :: 0 <= i < |s[1..]| ==> s[1..][i] == s[i + 1];
      SpaceFreeFromAll(s[1..]);
    }
  }

  // ---------------------------------------------------------------
  // Outputs, read back by the reindex script
  // ---------------------------------------------------------------

  function HeroFile(stem: string): string { stem + "_1200.jpg" }
  function ThumbFile(stem: string): string { stem + "_800.jpg" }

  /** The four files written for one source: both widths, JPEG then WebP. */
  function Outputs(stem: string): (outs: seq<string>)
    ensures |outs| == 4 && outs[0] == HeroFile(stem) && outs[2] == ThumbFile(stem)
  {
    [stem + "_1200.jpg", stem + "_1200.webp", stem + "_800.jpg", stem + "_800.webp"]
  }

  /** A name that ends with a lower-case literal matches it in any case. */
  lemma {:induction false} EndsWithOwnSuffix(s: string, t: string)
    requires forall i :: 0 <= i < |t| ==> LowerChar(t[i]) == t[i]
    ensures EndsWithAnyCase(s + t, t)
    decreases |t|
  {
    if |t| > 0 {
      var t' := t[..|t| - 1];
      assert (s + t)[..|s + t| - 1] == s + t';
      EndsWithOwnSuffix(s, t');
    }
  }

  /** Whether a name ends with `suffix` is decided by its last `|suffix|` characters. */
  lemma {:induction false} EndsWithAnyCaseTail(s: string, t: string, suffix: string)
    requires |suffix| <= |t|
    ensures EndsWithAnyCase(s + t, suffix) == EndsWithAnyCase(t, suffix)
    decreases |suffix|
  {
    if |suffix| > 0 {
      assert (s + t)[|s + t| - 1] == t[|t| - 1];
      assert (s + t)[..|s + t| - 1] == s + t[..|t| - 1];
      EndsWithAnyCaseTail(s, t[..|t| - 1], suffix[..|suffix| - 1]);
    }
  }

  /** A name that ends with `suffix` ends with every tail of it. */
  lemma {:induction false} EndsWithShorter(s: string, suffix: string, k: nat)
    requires k <= |suffix|
    ensures EndsWithAnyCase(s, suffix) ==> EndsWithAnyCase(s, suffix[k..])
    decreases |suffix|
  {
    if k < |suffix| && EndsWithAnyCase(s, suffix) {
      var s', u := s[..|s| - 1], suffix[..|suffix| - 1];
      EndsWithShorter(s', u, k);
      assert suffix[k..][..|suffix[k..]| - 1] == u[k..];
      assert suffix[k..][|suffix[k..]| - 1] == suffix[|suffix| - 1];
    }
  }

  /** The reindex script indexes each output and files it under the stem it came from. */
  lemma OutputsIndexedUnderStem(stem: string)
    ensures forall o :: o in Outputs(stem) ==> IsIndexedImage(o) && StemOf(o) == stem
  {
    EndsWithOwnSuffix(stem + "_1200", ".jpg");
    EndsWithOwnSuffix(stem + "_1200", ".webp");
    EndsWithOwnSuffix(stem + "_800", ".jpg");
    EndsWithOwnSuffix(stem + "_800", ".webp");
    EndsWithAnyCaseTail(stem + "_1200", ".jpg", ".jpg");
    assert !EndsWithAnyCase(".jpg", ".jpeg");
    assert !EndsWithAnyCase(".jpg", ".webp");
    assert !EndsWithAnyCase(".webp", ".jpeg");
    StripSizeSuffixUndoesSize(stem);
    assert stem + "_1200.jpg" == (stem + "_1200") + ".jpg";
    assert stem + "_1200.webp" == (stem + "_1200") + ".webp";
    assert stem + "_800.jpg" == (stem + "_800") + ".jpg";
    assert stem + "_800.webp" == (stem + "_800") + ".webp";
    ExtensionDropped(stem + "_1200", ".jpg");
    ExtensionDropped(stem + "_1200", ".webp");
    ExtensionDropped(stem + "_800", ".jpg");
    ExtensionDropped(stem + "_800", ".webp");
  }

  /** `DropImageExtension` removes exactly the `.jpg` or `.webp` the script appended. */
  lemma ExtensionDropped(name: string, ext: string)
    requires ext == ".jpg" || ext == ".webp"
    ensures DropImageExtension(name + ext) == name
  {
    EndsWithOwnSuffix(name, ext);
    EndsWithAnyCaseTail(name, ext, ext);
    if ext == ".jpg" {
      EndsWithShorter(name + ext, ".jpeg", 1);
      EndsWithAnyCaseTail(name, ext, ".jpeg"[1..]);
    } else {
      EndsWithAnyCaseTail(name, ext, ".jpeg");
    }
    assert (name + ext)[..|name + ext| - |ext|] == name;
  }

  /** One differing character, `j` places from the end, rules a suffix out. */
  lemma {:induction false} Mismatch(s: string, suffix: string, j: nat)
    requires j < |suffix| && j < |s|
    requires LowerChar(s[|s| - 1 - j]) != suffix[|suffix| - 1 - j]
    ensures !EndsWithAnyCase(s, suffix)
    decreases j
  {
    if j > 0 {
      Mismatch(s[..|s| - 1], suffix[..|suffix| - 1], j - 1);
    }
  }

  /** Of the four outputs only the `_1200.jpg` is a preferred hero. */
  lemma OnlyHeroIsJpg1200(stem: string)
    ensures IsJpg1200(stem + "_1200.jpg")
    ensures !IsJpg1200(stem + "_1200.webp") && !IsJpg1200(stem + "_800.jpg") && !IsJpg1200(stem + "_800.webp")
  {
    EndsWithOwnSuffix(stem, "_1200.jpg");
    Mismatch(stem + "_1200.webp", "_1200.jpg", 0);
    Mismatch(stem + "_1200.webp", "_1200.jpeg", 0);
    Mismatch(stem + "_800.jpg", "_1200.jpg", 6);
    Mismatch(stem + "_800.jpg", "_1200.jpeg", 1);
    Mismatch(stem + "_800.webp", "_1200.jpg", 0);
    Mismatch(stem + "_800.webp", "_1200.jpeg", 0);
  }

  /** Of the four outputs only the `_800.jpg` is a preferred thumbnail. */
  lemma OnlyThumbIsJpg800(stem: string)
    ensures IsJpg800(stem + "_800.jpg")
    ensures !IsJpg800(stem + "_1200.jpg") && !IsJpg800(stem + "_1200.webp") && !IsJpg800(stem + "_800.webp")
  {
    EndsWithOwnSuffix(stem, "_800.jpg");
    Mismatch(stem + "_1200.jpg", "_800.jpg", 6);
    Mismatch(stem + "_1200.jpg", "_800.jpeg", 1);
    Mismatch(stem + "_1200.webp", "_800.jpg", 0);
    Mismatch(stem + "_1200.webp", "_800.jpeg", 0);
    Mismatch(stem + "_800.webp", "_800.jpg", 0);
    Mismatch(stem + "_800.webp", "_800.jpeg", 0);
  }

  /**
   * Reindexing a folder that holds one source's outputs, in any order,
   * picks back the `_1200.jpg` as hero and the `_800.jpg` as thumbnail.
   */
  lemma ReindexPicksImported(stem: string, files: seq<string>)
    requires forall f :: f in files <==> f in Outputs(stem)
    ensures |files| > 0 && PickHero(files) == HeroFile(stem)
    ensures |files| > 0 && PickThumb(files) == ThumbFile(stem)
  {
    assert HeroFile(stem) in files;
    OnlyHeroIsJpg1200(stem);
    OnlyThumbIsJpg800(stem);
    OnlyBestIsChosen(files, HeroFile(stem), HeroRank);
    OnlyBestIsChosen(files, ThumbFile(stem), ThumbRank);
  }

  // ---------------------------------------------------------------
  // The run
  // ---------------------------------------------------------------

  /** Where the pictures come from; the zip archive wins when both are given. */
  datatype Source = Zip(archive: string) | Dir(folder: string)

  function ChosenSource(args: Args): (src: Option<Source>)
    ensures Truthy(args.imagesZip) ==> src == Some(Zip(args.imagesZip.value))
    ensures !Truthy(args.imagesZip) && Truthy(args.imagesDir) ==> src == Some(Dir(args.imagesDir.value))
    ensures src.None? <==> !Truthy(args.imagesZip) && !Truthy(args.imagesDir)
  {
    if Truthy(args.imagesZip) then Some(Zip(args.imagesZip.value))
    else if Truthy(args.imagesDir) then Some(Dir(args.imagesDir.value))
    else None
  }

  /** `collectImagesFromDir`: the walked paths that pass the extension test, in walk order. */
  function Collected(walked: seq<string>): (paths: seq<string>)
    ensures forall p :: p in paths <==> p in walked && IsImportable(p)
  {
    Filter(walked, IsImportable)
  }

  /** Thumbnail URLs for `order`, one per source. */
  predicate ThumbsOf(g: seq<string>, dir: string, order: seq<string>) {
    |g| == |order| &&
    forall i :: 0 <= i < |order| ==> g[i] == MediaUrl(dir, ThumbFile(Stem(order[i])))
  }

  /** `optimizeAndCopyImages`: the hero and gallery for sources already in copy order. */
  function HeroAndGallery(dir: string, order: seq<string>): (string, seq<string>)
    requires |order| > 0
  {
    var gallery := seq(|order|, i requires 0 <= i < |order| => MediaUrl(dir, ThumbFile(Stem(order[i]))));
    (MediaUrl(dir, HeroFile(Stem(order[0]))), gallery)
  }

  /** The closed form's gallery is one thumbnail per source, in order. */
  lemma HeroAndGalleryThumbs(dir: string, order: seq<string>)
    requires |order| > 0
    ensures ThumbsOf(HeroAndGallery(dir, order).1, dir, order)
  {
  }

  /** One more source adds its thumbnail at the end. */
  lemma ThumbsOfSnoc(g: seq<string>, dir: string, order: seq<string>, i: nat)
    requires i < |order| && ThumbsOf(g, dir, order[..i])
    ensures ThumbsOf(g + [MediaUrl(dir, ThumbFile(Stem(order[i])))], dir, order[..i + 1])
  {
    var g' := g + [MediaUrl(dir, ThumbFile(Stem(order[i])))];
    forall j | 0 <= j < i + 1
      ensures g'[j] == MediaUrl(dir, ThumbFile(Stem(order[..i + 1][j])))
    {
      if j < i {
        assert order[..i + 1][j] == order[..i][j];
      }
    }
  }

  /** The gallery of an order is determined by it. */
  lemma ThumbsOfUnique(g1: seq<string>, g2: seq<string>, dir: string, order: seq<string>)
    requires ThumbsOf(g1, dir, order) && ThumbsOf(g2, dir, order)
    ensures g1 == g2
  {
    assert forall i :: 0 <= i < |g1| ==> g1[i] == g2[i];
  }

  /**
   * The loop of `optimizeAndCopyImages` over the sorted sources: the hero is
   * set on the first pass only (a URL is never empty, so `!hero` holds only
   * before it is set), and every source adds its thumbnail.
   */
  method OptimizeAndCopy(dir: string, order: seq<string>) returns (hero: Option<string>, gallery: seq<string>)
    ensures |order| == 0 ==> hero.None?
    ensures |order| > 0 ==> hero == Some(MediaUrl(dir, HeroFile(Stem(order[0]))))
    ensures ThumbsOf(gallery, dir, order)
    ensures |order| > 0 ==> (hero.value, gallery) == HeroAndGallery(dir, order)
  {
    hero := None;
    gallery := [];
    for i := 0 to |order|
      invariant i == 0 ==> hero.None?
      invariant i > 0 ==> hero == Some(MediaUrl(dir, HeroFile(Stem(order[0]))))
      invariant ThumbsOf(gallery, dir, order[..i])
    {
      var stem := Stem(order[i]);
      if hero.None? {
        hero := Some(MediaUrl(dir, HeroFile(stem)));
      }
      ThumbsOfSnoc(gallery, dir, order, i);
      gallery := gallery + [MediaUrl(dir, ThumbFile(stem))];
    }
    assert order[..|order|] == order;
    if |order| > 0 {
      HeroAndGalleryThumbs(dir, order);
      ThumbsOfUnique(gallery, HeroAndGallery(dir, order).1, dir, order);
    }
  }

  /** The hero and the first gallery picture are the two widths of the same source. */
  lemma HeroPairsFirstThumb(dir: string, order: seq<string>)
    requires |order| > 0
    ensures var hg := HeroAndGallery(dir, order);
      exists stem :: hg.0 == MediaUrl(dir, HeroFile(stem)) && hg.1[0] == MediaUrl(dir, ThumbFile(stem))
  {
    var stem := Stem(order[0]);
    assert HeroAndGallery(dir, order).1[0] == MediaUrl(dir, ThumbFile(stem));
  }

  /** `db[venue] ??= {}` and the three assignments: the venue's other fields survive. */
  function Merged(db: Db, venue: string, hero: string, gallery: seq<string>, stamp: string): (db': Db)
    ensures ReplacesOnly(db, db', venue)
    ensures db'[venue].hero == Some(hero) && db'[venue].gallery == Some(gallery) && db'[venue].updated == Some(stamp)
    ensures db'[venue].extra == (if venue in db then db[venue].extra else map[])
  {
    var existing := if venue in db then db[venue] else EmptyRecord;
    db[venue := existing.(hero := Some(hero), gallery := Some(gallery), updated := Some(stamp))]
  }

  /** What the run leaves under `venue` when `sources` were found. */
  ghost predicate ImportedRecord(r: MediaRecord, before: Option<MediaRecord>, dir: string, sources: seq<string>,
                           stamp: string, order: (string, string) -> bool)
  {
    exists copyOrder: seq<string> ::
      // the sources, each once, sorted by the comparator
      multiset(copyOrder) == multiset(sources) &&
      (StrictOrder(order) ==> Sorted(copyOrder, order)) &&
      |copyOrder| > 0 &&
      r.hero == Some(MediaUrl(dir, HeroFile(Stem(copyOrder[0])))) &&
      r.gallery.Some? && ThumbsOf(r.gallery.value, dir, copyOrder) &&
      r.updated == Some(stamp) &&
      r.extra == (if before.Some? then before.value.extra else map[])
  }

  /**
   * The whole script: command-line tokens, the walk of whichever source is
   * used, the current map, the timestamp and the comparator in; the new map
   * or the reason for exit code 1 out.
   */
  function Import(tokens: seq<string>, walk: Source -> seq<string>, db: Db, stamp: string,
                  order: (string, string) -> bool): (r: Outcome)
    ensures !Truthy(ParseArgs(tokens).venue) ==> r == Failed(MissingVenue)
    ensures Truthy(ParseArgs(tokens).venue) && ChosenSource(ParseArgs(tokens)).None? ==> r == Failed(MissingSource)
    ensures Truthy(ParseArgs(tokens).venue) && ChosenSource(ParseArgs(tokens)).Some? ==>
      var sources := Collected(walk(ChosenSource(ParseArgs(tokens)).value));
      (|sources| == 0 ==> r == Failed(NoImages)) &&
      (|sources| > 0 ==>
        (r.Updated? &&
         var venue := ParseArgs(tokens).venue.value;
         ReplacesOnly(db, r.db, venue) &&
         ImportedRecord(r.db[venue], if venue in db then Some(db[venue]) else None,
                        BaseName(venue), sources, stamp, order)))
  {
    var args := ParseArgs(tokens);
    if !Truthy(args.venue) then Failed(MissingVenue)
    else match ChosenSource(args)
      case None => Failed(MissingSource)
      case Some(src) =>
        var sources := Collected(walk(src));
        if |sources| == 0 then Failed(NoImages)
        else
          var venue := args.venue.value;
          var copyOrder := SortBy(sources, order);
          SortedUnderStrictOrder(sources, order);
          var hg := HeroAndGallery(BaseName(venue), copyOrder);
          HeroAndGalleryThumbs(BaseName(venue), copyOrder);
          var db' := Merged(db, venue, hg.0, hg.1, stamp);
          assert ImportedRecord(db'[venue], if venue in db then Some(db[venue]) else None,
                                BaseName(venue), sources, stamp, order) by {
            assert multiset(copyOrder) == multiset(sources);
          }
          Updated(db')
  }
}
