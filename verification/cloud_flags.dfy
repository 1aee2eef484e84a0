/** The pixel categories of the cloud-shadow flag band and their bit layout. */
module CloudFlags {
  import opened Wrappers

  /** The seven categories a pixel of the flag band can be in. */
  datatype Category = Water | Land | Cloud | Haze | CloudShadow | MountainShadow | Invalid

  /** The `F_*` category codes, which are also the bit indices of the flag coding. */
  function Code(c: Category): (i: nat)
    ensures i < 7
  {
    match c
    case Water => 0
    case Land => 1
    case Cloud => 2
    case Haze => 3
    case CloudShadow => 4
    case MountainShadow => 5
    case Invalid => 6
  }

  /** The category a code stands for, if any. */
  function CategoryOf(i: int): (r: Option<Category>)
    ensures r.Some? <==> 0 <= i < 7
  {
    if i == 0 then Some(Water)
    else if i == 1 then Some(Land)
    else if i == 2 then Some(Cloud)
    else if i == 3 then Some(Haze)
    else if i == 4 then Some(CloudShadow)
    else if i == 5 then Some(MountainShadow)
    else if i == 6 then Some(Invalid)
    else None
  }

  /** The codes are distinct: decoding a category's code gives back that category, and only it. */
  lemma CodeRoundTrip(c: Category, i: int)
    ensures CategoryOf(Code(c)) == Some(c)
    ensures CategoryOf(i) == Some(c) <==> i == Code(c)
  {
  }

  /** `BitSetter.setFlag(flags, bitIndex)`: the flags with one more bit set. */
  function SetFlag(flags: bv32, bitIndex: nat): bv32
    requires bitIndex < 32
  {
    flags | (1 << bitIndex)
  }

  /** The mask `setFlag(0, F_x)` the flag coding registers for a category. */
  function Mask(c: Category): (m: bv32)
    ensures m != 0 && m & (m - 1) == 0
  {
    SetFlag(0, Code(c))
  }

  /** The mask of a category sets exactly the bit whose index is the category's code. */
  lemma MaskBit(c: Category, i: nat)
    requires i < 32
    ensures (Mask(c) & (1 << i) != 0) <==> i == Code(c)
  {
  }

  /** Distinct categories have disjoint masks. */
  lemma MasksDisjoint(c1: Category, c2: Category)
    ensures c1 != c2 <==> Mask(c1) & Mask(c2) == 0
  {
  }

  /** The flag coding of the band: name and mask of each category, in the order they are added. */
  function FlagCoding(): (coding: seq<(string, Category)>)
    ensures |coding| == 7
    ensures forall i :: 0 <= i < |coding| ==> Code(coding[i].1) == i
  {
    [("water", Water), ("land", Land), ("cloud", Cloud), ("pot_haze", Haze),
     ("cloudShadow", CloudShadow), ("mountain_shadow", MountainShadow), ("invalid", Invalid)]
  }

  /** Each category is registered exactly once, under its own name and a bit no other entry uses. */
  lemma FlagCodingOnePerCategory(c: Category)
    ensures FlagCoding()[Code(c)].1 == c
    ensures forall i, j :: 0 <= i < j < |FlagCoding()| ==>
              && FlagCoding()[i].0 != FlagCoding()[j].0
              && Mask(FlagCoding()[i].1) & Mask(FlagCoding()[j].1) == 0
  {
    var coding := FlagCoding();
    forall i, j | 0 <= i < j < |coding|
      ensures coding[i].0 != coding[j].0 && Mask(coding[i].1) & Mask(coding[j].1) == 0
    {
      MasksDisjoint(coding[i].1, coding[j].1);
    }
  }
}
