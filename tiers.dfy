/** The rarity mapping of `callback_roll_rarity`: a roll in [0, 99] falls in
    one of five bands, Common (0), Uncommon (1), Rare (2), Epic (3) and
    Legendary (4). */
module Tiers {
  import opened Bytes

  const Common: u8 := 0
  const Uncommon: u8 := 1
  const Rare: u8 := 2
  const Epic: u8 := 3
  const Legendary: u8 := 4

  /** The band table: band t holds the rolls from BandStart[t] up to, but
      not including, BandStart[t + 1] (100 for the last band). */
  const BandStart: seq<int> := [0, 50, 80, 95, 99, 100]

  /** The share, in percent, of each band. */
  const BandSize: seq<int> := [50, 30, 15, 4, 1]

  /** The if/else chain on the roll. Rolls above 99, which the range
      reduction never produces, fall through to Legendary as in the code. */
  function Classify(roll: u8): (tier: u8)
    ensures tier <= Legendary
    ensures BandStart[tier] <= roll as int
    ensures roll <= 99 ==> roll as int < BandStart[tier + 1]
  {
    if roll <= 49 then Common
    else if roll <= 79 then Uncommon
    else if roll <= 94 then Rare
    else if roll <= 98 then Epic
    else Legendary
  }

  /** The band table fixes the tier: any tier whose band contains the roll
      is the one Classify returns. */
  lemma ClassifyIsBand(roll: u8, t: u8)
    requires roll <= 99 && t <= Legendary
    ensures Classify(roll) == t <==> BandStart[t] <= roll as int < BandStart[t + 1]
  {
  }

  lemma ClassifyBoundaries()
    ensures Classify(0) == Common && Classify(49) == Common
    ensures Classify(50) == Uncommon && Classify(79) == Uncommon
    ensures Classify(80) == Rare && Classify(94) == Rare
    ensures Classify(95) == Epic && Classify(98) == Epic
    ensures Classify(99) == Legendary
  {
  }

  /** A higher roll never gives a lower tier. */
  lemma ClassifyMonotone(r1: u8, r2: u8)
    requires r1 <= r2
    ensures Classify(r1) <= Classify(r2)
  {
  }

  /** The number of rolls in [lo, hi) that Classify maps to tier t. */
  function CountTier(t: u8, lo: nat, hi: nat): (c: nat)
    requires hi <= 0x100
    ensures c <= if lo <= hi then hi - lo else 0
    decreases hi - lo
  {
    if lo >= hi then 0
    else (if Classify(lo as u8) == t then 1 else 0) + CountTier(t, lo + 1, hi)
  }

  /** A range on which Classify is constant contributes its whole length to
      that tier and nothing to the others. */
  lemma {:induction false} CountTierOnBand(t: u8, c: u8, lo: nat, hi: nat)
    requires lo <= hi <= 0x100
    requires forall r: u8 :: lo <= r as int < hi ==> Classify(r) == c
    ensures CountTier(t, lo, hi) == if t == c then hi - lo else 0
    decreases hi - lo
  {
    if lo < hi {
      assert Classify(lo as u8) == c;
      CountTierOnBand(t, c, lo + 1, hi);
    }
  }

  /** Counting over adjacent ranges adds up. */
  lemma {:induction false} CountTierSplit(t: u8, lo: nat, mid: nat, hi: nat)
    requires lo <= mid <= hi <= 0x100
    ensures CountTier(t, lo, hi) == CountTier(t, lo, mid) + CountTier(t, mid, hi)
    decreases mid - lo
  {
    if lo < mid {
      CountTierSplit(t, lo + 1, mid, hi);
    }
  }

  /** The rolls of band b count towards tier b only, BandSize[b] of them. */
  lemma BandCount(t: u8, b: u8)
    requires b <= Legendary
    ensures CountTier(t, BandStart[b], BandStart[b + 1]) == if t == b then BandSize[b] else 0
  {
    forall r: u8 | BandStart[b] <= r as int < BandStart[b + 1]
      ensures Classify(r) == b
    {
      ClassifyIsBand(r, b);
    }
    CountTierOnBand(t, b, BandStart[b], BandStart[b + 1]);
  }

  /** The count over all 100 rolls is the sum of the counts over the five bands. */
  lemma CountTierByBands(t: u8)
    ensures CountTier(t, 0, 100)
         == CountTier(t, 0, 50) + CountTier(t, 50, 80) + CountTier(t, 80, 95)
          + CountTier(t, 95, 99) + CountTier(t, 99, 100)
  {
    CountTierSplit(t, 95, 99, 100);
    CountTierSplit(t, 80, 95, 100);
    CountTierSplit(t, 50, 80, 100);
    CountTierSplit(t, 0, 50, 100);
  }

  /** The five bands together give each tier its share. */
  lemma BandCountsAddUp(t: u8)
    ensures CountTier(t, 0, 50) + CountTier(t, 50, 80) + CountTier(t, 80, 95)
          + CountTier(t, 95, 99) + CountTier(t, 99, 100)
         == if t <= Legendary then BandSize[t] else 0
  {
    BandCount(t, Common);
    BandCount(t, Uncommon);
    BandCount(t, Rare);
    BandCount(t, Epic);
    BandCount(t, Legendary);
  }

  /** Of the 100 rolls the range reduction yields, exactly BandSize[t] land
      in tier t (50/30/15/4/1), and none land outside the five tiers. */
  lemma BandSizes(t: u8)
    ensures CountTier(t, 0, 100) == if t <= Legendary then BandSize[t] else 0
  {
    CountTierByBands(t);
    BandCountsAddUp(t);
  }
}
