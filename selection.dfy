/**
 * The per-family decision of main(): pick the largest variant as the upscale
 * source, derive the base image name from it, and decide whether to ask for
 * an upscale.
 */
module Selection {
  import opened Filenames
  import opened Grouping

  /**
   * `max(items, key=key)` as an index: Python's max keeps the current best
   * unless a later element is strictly larger, so the result is the first
   * element of maximal key.
   */
  function LargestIndex<T>(items: seq<T>, key: T -> nat): (i: nat)
    requires |items| > 0
    ensures i < |items|
    ensures forall j | 0 <= j < |items| :: key(items[j]) <= key(items[i])
    ensures forall j | 0 <= j < i :: key(items[j]) < key(items[i])
  {
    if |items| == 1 then 0
    else
      var init := items[..|items| - 1];
      var best := LargestIndex(init, key);
      var last := |items| - 1;
      assert forall j | 0 <= j < last :: items[j] == init[j];
      if key(items[last]) > key(init[best]) then last else best
  }

  /** What main() does with one family. */
  datatype Choice =
    | NoVariants                           // `variants_without_base` is empty
    | BaseListed(source: string, name: string)   // the derived base name is already a variant
    | Unranked(source: string)             // the largest variant has area 0
    | Upscale(source: string, name: string)      // upscale_image(source, name) is called

  /** The base image name: the family name followed by the extension of the chosen source. */
  function BaseImageName(base: string, source: string): string
  {
    base + Extension(source)
  }

  /** The body of the family loop of main(), up to the call of upscale_image. */
  function ChooseSource(base: string, variants: seq<string>): Choice
  {
    var candidates := WithBase(variants, base);
    if candidates == [] then NoVariants
    else
      var largest := candidates[LargestIndex(candidates, ImageArea)];
      var name := BaseImageName(base, largest);
      if name in variants then BaseListed(largest, name)
      else if ImageArea(largest) == 0 then Unranked(largest)
      else Upscale(largest, name)
  }

  /** The source is the first of the candidates with maximal area. */
  predicate IsFirstLargest(candidates: seq<string>, source: string)
  {
    && (forall v | v in candidates :: ImageArea(v) <= ImageArea(source))
    && exists i | 0 <= i < |candidates| ::
         candidates[i] == source && forall j | 0 <= j < i :: ImageArea(candidates[j]) < ImageArea(source)
  }

  /** No choice is made exactly when no variant carries the family name. */
  lemma ChooseNoVariants(base: string, variants: seq<string>)
    ensures ChooseSource(base, variants).NoVariants? <==> forall v | v in variants :: Basename(v) != base
  {
    WithBaseEmpty(variants, base);
  }

  /**
   * Otherwise the source is the first variant of maximal area among those
   * that carry the family name.
   */
  lemma ChooseFirstLargest(base: string, variants: seq<string>)
    requires !ChooseSource(base, variants).NoVariants?
    ensures ChooseSource(base, variants).source in variants
    ensures Basename(ChooseSource(base, variants).source) == base
    ensures IsFirstLargest(WithBase(variants, base), ChooseSource(base, variants).source)
  {
    hide ImageArea, Extension;
    WithBaseMembers(variants, base);
    var c := WithBase(variants, base);
    var i := LargestIndex(c, ImageArea);
    var src := c[i];
    assert src == ChooseSource(base, variants).source;
    assert forall j | 0 <= j < |c| :: ImageArea(c[j]) <= ImageArea(src);
    assert forall j | 0 <= j < i :: ImageArea(c[j]) < ImageArea(src);
  }

  /**
   * An upscale is requested exactly when the derived base name is not
   * already a variant and the source has a non-zero area; it is requested
   * under that derived name.
   */
  lemma ChooseUpscale(base: string, variants: seq<string>)
    requires !ChooseSource(base, variants).NoVariants?
    ensures ChooseSource(base, variants).Upscale? <==>
      && BaseImageName(base, ChooseSource(base, variants).source) !in variants
      && ImageArea(ChooseSource(base, variants).source) != 0
    ensures ChooseSource(base, variants).Upscale? ==>
      ChooseSource(base, variants).name == BaseImageName(base, ChooseSource(base, variants).source)
  {
    var c := WithBase(variants, base);
    var largest := c[LargestIndex(c, ImageArea)];
    var name := BaseImageName(base, largest);
    var choice := ChooseSource(base, variants);
    if name in variants {
      assert choice == BaseListed(largest, name);
    } else if ImageArea(largest) == 0 {
      assert choice == Unranked(largest);
    } else {
      assert choice == Upscale(largest, name);
    }
  }

  /**
   * In a family built by the grouping, the derived base name can only be one
   * of the variants when the source has no extension: every variant has base
   * name `base`, and `base + ext` with `ext` starting with '.' does not.
   */
  lemma BaseListedOnlyWithoutExtension(keys: seq<string>, base: string)
    requires ChooseSource(base, Family(keys, base)).BaseListed?
    ensures Extension(ChooseSource(base, Family(keys, base)).source) == []
    ensures ChooseSource(base, Family(keys, base)).name == base
  {
    var choice := ChooseSource(base, Family(keys, base));
    var ext := Extension(choice.source);
    FamilyMembers(keys, base);
    assert Basename(base + ext) == base;
    BasenameOfExtended(base, ext);
    assert base + ext == base;
  }
}
