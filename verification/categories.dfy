/**
 * `normalizeCategory` of `lib/categories.ts`: any raw category text is
 * folded to one of three core categories by searching it, lower-cased, for
 * keywords. Cafe keywords are tried first, then bar keywords; matching is
 * by substring, with no word boundaries.
 */
module Categories {
  import opened Optional
  import opened Text

  datatype CoreCat = Restaurant | Bar | Cafe

  const CafeWords: seq<string> :=
    ["cafe", "coffee", "tea", "espresso", "roast", "bakery", "bagel", "donut"]

  const BarWords: seq<string> :=
    ["bar", "brew", "tap", "pub", "distill", "cocktail", "speakeasy", "tavern", "club"]

  /** Some word of `words` occurs somewhere in `s`. */
  predicate MentionsAny(s: string, words: seq<string>) {
    exists k, i | 0 <= k < |words| && 0 <= i <= |s| :: OccursAt(s, words[k], i)
  }

  /** Some alternative from index `k` on occurs at position `i`. */
  function AlternativeAt(s: string, words: seq<string>, i: nat, k: nat): (found: bool)
    requires k <= |words|
    ensures found <==> exists k' | k <= k' < |words| :: OccursAt(s, words[k'], i)
    decreases |words| - k
  {
    if k == |words| then false
    else OccursAt(s, words[k], i) || AlternativeAt(s, words, i, k + 1)
  }

  /** A regular-expression search for `(w1|w2|...)`: every start position from `i` on. */
  function SearchFrom(s: string, words: seq<string>, i: nat): (found: bool)
    requires i <= |s|
    ensures found <==> exists k, j | 0 <= k < |words| && i <= j <= |s| :: OccursAt(s, words[k], j)
    decreases |s| - i
  {
    AlternativeAt(s, words, i, 0) || (i < |s| && SearchFrom(s, words, i + 1))
  }

  /** The text `normalizeCategory` searches: `(raw || "").toLowerCase()`. */
  function Folded(raw: Option<string>): string {
    Lower(raw.OrElse(""))
  }

  function NormalizeCategory(raw: Option<string>): (r: CoreCat)
    // null, undefined and "" are restaurants
    ensures !Truthy(raw) ==> r == Restaurant
    // any cafe keyword wins, even beside a bar keyword
    ensures r == Cafe <==> MentionsAny(Folded(raw), CafeWords)
    // a bar keyword without a cafe keyword is a bar
    ensures r == Bar <==> !MentionsAny(Folded(raw), CafeWords) && MentionsAny(Folded(raw), BarWords)
    // no keyword at all is a restaurant
    ensures r == Restaurant <==> !MentionsAny(Folded(raw), CafeWords) && !MentionsAny(Folded(raw), BarWords)
  {
    var s := Folded(raw);
    if SearchFrom(s, CafeWords, 0) then Cafe
    else if SearchFrom(s, BarWords, 0) then Bar
    else Restaurant
  }

  /** Case does not matter: a text and its lower-case form get the same category. */
  lemma IgnoresCase(raw: string)
    ensures NormalizeCategory(Some(raw)) == NormalizeCategory(Some(Lower(raw)))
  {
    LowerIdempotent(raw);
  }

  predicate LowerCaseWord(w: string) {
    forall i :: 0 <= i < |w| ==> !IsUpper(w[i])
  }

  lemma KeywordsAreLowerCase()
    ensures forall k :: 0 <= k < |CafeWords| ==> Lower(CafeWords[k]) == CafeWords[k]
    ensures forall k :: 0 <= k < |BarWords| ==> Lower(BarWords[k]) == BarWords[k]
  {
  }

  /** An occurrence in `s` is still an occurrence after anything is added on either side. */
  lemma MentionSurvivesContext(a: string, s: string, b: string, words: seq<string>)
    requires MentionsAny(s, words)
    ensures MentionsAny(a + s + b, words)
  {
    var k, i :| 0 <= k < |words| && 0 <= i <= |s| && OccursAt(s, words[k], i);
    var t := a + s + b;
    assert t[|a| + i..|a| + i + |words[k]|] == s[i..i + |words[k]|];
    assert OccursAt(t, words[k], |a| + i);
  }

  /** A cafe keyword anywhere, in any case context, makes a cafe: "Steakhouse" holds "tea". */
  lemma CafeKeywordAnywhere(a: string, k: nat, b: string)
    requires k < |CafeWords|
    ensures NormalizeCategory(Some(a + CafeWords[k] + b)) == Cafe
  {
    var w := CafeWords[k];
    KeywordsAreLowerCase();
    LowerConcat(a + w, b);
    LowerConcat(a, w);
    assert OccursAt(w, w, 0);
    MentionSurvivesContext(Lower(a), w, Lower(b), CafeWords);
  }

  /** Adding text never takes a cafe away: the cafe keyword is still there. */
  lemma CafeIsStable(s: string, a: string, b: string)
    requires NormalizeCategory(Some(s)) == Cafe
    ensures NormalizeCategory(Some(a + s + b)) == Cafe
  {
    LowerConcat(a + s, b);
    LowerConcat(a, s);
    MentionSurvivesContext(Lower(a), Lower(s), Lower(b), CafeWords);
  }
}
