/**
 * The first half of main(): keep the listed keys that look like JPEG images
 * and group them by base name, in listing order, into `images_data`.
 */
module Grouping {
  import opened Filenames

  /** The variants of family `b`: the image keys whose base name is `b`, in listing order. */
  function Family(keys: seq<string>, b: string): seq<string>
  {
    if keys == [] then []
    else
      var k := keys[|keys| - 1];
      Family(keys[..|keys| - 1], b) + (if IsImageKey(k) && Basename(k) == b then [k] else [])
  }

  /** The family names in the order a Python dict gives them: order of first appearance. */
  function Bases(keys: seq<string>): seq<string>
  {
    if keys == [] then []
    else
      var k := keys[|keys| - 1];
      var earlier := Bases(keys[..|keys| - 1]);
      if IsImageKey(k) && Basename(k) !in earlier then earlier + [Basename(k)] else earlier
  }

  /** Every variant of family `b` is a listed image key whose base name is `b`. */
  lemma {:induction false} FamilyMembers(keys: seq<string>, b: string)
    ensures forall v | v in Family(keys, b) :: v in keys && IsImageKey(v) && Basename(v) == b
  {
    if keys != [] {
      FamilyMembers(keys[..|keys| - 1], b);
    }
  }

  /** Every listed image key lands in the family named by its base name. */
  lemma {:induction false} FamilyComplete(keys: seq<string>, k: string)
    requires k in keys && IsImageKey(k)
    ensures k in Family(keys, Basename(k))
  {
    var init := keys[..|keys| - 1];
    if keys[|keys| - 1] != k {
      assert keys == init + [keys[|keys| - 1]];
      FamilyComplete(init, k);
    }
  }

  /** Grouping distributes over concatenation of listings: order within a family is listing order. */
  lemma {:induction false} FamilyAppend(keys1: seq<string>, keys2: seq<string>, b: string)
    ensures Family(keys1 + keys2, b) == Family(keys1, b) + Family(keys2, b)
  {
    if keys2 == [] {
      assert keys1 + keys2 == keys1;
    } else {
      var init2 := keys2[..|keys2| - 1];
      assert (keys1 + keys2)[..|keys1 + keys2| - 1] == keys1 + init2;
      FamilyAppend(keys1, init2, b);
    }
  }

  /** A family name is recorded exactly when its family has a variant. */
  lemma {:induction false} BasesAreNonEmptyFamilies(keys: seq<string>, b: string)
    ensures b in Bases(keys) <==> Family(keys, b) != []
  {
    if keys != [] {
      BasesAreNonEmptyFamilies(keys[..|keys| - 1], b);
    }
  }

  /** No family name is recorded twice. */
  lemma {:induction false} BasesDistinct(keys: seq<string>)
    ensures forall i, j | 0 <= i < j < |Bases(keys)| :: Bases(keys)[i] != Bases(keys)[j]
  {
    if keys != [] {
      BasesDistinct(keys[..|keys| - 1]);
    }
  }

  /** `[x for x in variants if get_basename(x) == base]`. */
  function WithBase(variants: seq<string>, b: string): seq<string>
  {
    if variants == [] then []
    else
      var v := variants[|variants| - 1];
      WithBase(variants[..|variants| - 1], b) + (if Basename(v) == b then [v] else [])
  }

  /** The re-filter keeps variants with base name `b`, in order. */
  lemma {:induction false} WithBaseMembers(variants: seq<string>, b: string)
    ensures forall v | v in WithBase(variants, b) :: v in variants && Basename(v) == b
  {
    if variants != [] {
      var init := variants[..|variants| - 1];
      WithBaseMembers(init, b);
      assert variants == init + [variants[|variants| - 1]];
    }
  }

  /** The re-filter leaves nothing exactly when no variant has base name `b`. */
  lemma {:induction false} WithBaseEmpty(variants: seq<string>, b: string)
    ensures WithBase(variants, b) == [] <==> forall v | v in variants :: Basename(v) != b
  {
    if variants != [] {
      var init := variants[..|variants| - 1];
      WithBaseEmpty(init, b);
      assert variants == init + [variants[|variants| - 1]];
    }
  }

  /** The defensive re-filter of main.py keeps every variant of a family. */
  lemma {:induction false} WithBaseKeepsFamily(keys: seq<string>, b: string)
    ensures WithBase(Family(keys, b), b) == Family(keys, b)
  {
    if keys != [] {
      var init := keys[..|keys| - 1];
      var k := keys[|keys| - 1];
      WithBaseKeepsFamily(init, b);
      var fam := Family(keys, b);
      if IsImageKey(k) && Basename(k) == b {
        assert fam[..|fam| - 1] == Family(init, b);
        assert fam[|fam| - 1] == k;
      } else {
        assert fam == Family(init, b);
      }
    }
  }

  /** Appending one key to the listing extends at most its own family and the list of names. */
  lemma GroupStep(keys: seq<string>, i: nat)
    requires i < |keys|
    ensures var k := keys[i];
      Bases(keys[..i + 1]) ==
        if IsImageKey(k) && Basename(k) !in Bases(keys[..i]) then Bases(keys[..i]) + [Basename(k)] else Bases(keys[..i])
    ensures var k := keys[i];
      forall b :: Family(keys[..i + 1], b) == Family(keys[..i], b) + (if IsImageKey(k) && Basename(k) == b then [k] else [])
  {
    assert keys[..i + 1][..i] == keys[..i];
  }

  /**
   * The grouping loop of main(): `order` lists the keys of `images_data` in
   * insertion order and `families` maps each to its list of variants.
   */
  method GroupImages(keys: seq<string>) returns (order: seq<string>, families: map<string, seq<string>>)
    ensures order == Bases(keys)
    ensures families.Keys == set b | b in order
    ensures forall b | b in families :: families[b] == Family(keys, b)
  {
    hide IsImageKey, Basename;
    order, families := [], map[];
    for i := 0 to |keys|
      invariant order == Bases(keys[..i])
      invariant families.Keys == set b | b in order
      invariant forall b | b in families :: families[b] == Family(keys[..i], b)
    {
      var key := keys[i];
      GroupStep(keys, i);
      if IsImageKey(key) {
        var basename := Basename(key);
        if basename in families {
          families := families[basename := families[basename] + [key]];
        } else {
          BasesAreNonEmptyFamilies(keys[..i], basename);
          families := families[basename := [key]];
          order := order + [basename];
        }
      }
    }
    assert keys[..|keys|] == keys;
  }
}
