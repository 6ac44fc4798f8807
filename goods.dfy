/** A tradable good at one station, with the supply and value figures derived
    from its stored columns. */
module Catalog {

  /** The stored columns of a `Goods` row. Supplies and price are integers; the
      station link is not modelled. `minSupply <= maxSupply` is expected of the
      data but not checked. */
  datatype Goods = Goods(name: string, maxCap: int, minSupply: int, maxSupply: int, price: int)
  {
    /** `expected_supply`: the midpoint of the supply bounds under Python's
        floor division `// 2`, so an odd sum rounds down; with ordered bounds it
        lies between them. */
    function ExpectedSupply(): (e: int)
      ensures 2 * e <= minSupply + maxSupply < 2 * e + 2
      ensures minSupply <= maxSupply ==> minSupply <= e <= maxSupply
    {
      (minSupply + maxSupply) / 2
    }

    /** `min_value`: what the smallest expected supply costs; never negative
        for a non-negative price and supply. */
    function MinValue(): (v: int)
      ensures 0 <= price && 0 <= minSupply ==> 0 <= v
    {
      price * minSupply
    }

    /** `max_value`: what the largest expected supply costs. It exceeds the
        minimum value by the price of the supply spread. */
    function MaxValue(): (v: int)
      ensures v - MinValue() == price * (maxSupply - minSupply)
    {
      price * maxSupply
    }

    /** `expected_value`: what the expected supply costs. With a non-negative
        price and ordered bounds it lies between the minimum and maximum value. */
    function ExpectedValue(): (v: int)
      ensures 0 <= price && minSupply <= maxSupply ==> MinValue() <= v <= MaxValue()
    {
      MulLeftMonotone(price, minSupply, ExpectedSupply());
      MulLeftMonotone(price, ExpectedSupply(), maxSupply);
      price * ExpectedSupply()
    }
  }

  /** The expected supply is the floor of the midpoint, not the rounded
      midpoint: when the bounds sum to an odd number it is the lower of the two
      nearest integers. */
  lemma ExpectedSupplyRoundsDown(g: Goods)
    ensures (g.minSupply + g.maxSupply) % 2 == 0 ==> 2 * g.ExpectedSupply() == g.minSupply + g.maxSupply
    ensures (g.minSupply + g.maxSupply) % 2 == 1 ==> 2 * g.ExpectedSupply() + 1 == g.minSupply + g.maxSupply
  {
  }

  lemma MulLeftMonotone(p: int, a: int, b: int)
    ensures 0 <= p && a <= b ==> p * a <= p * b
  {
    assert p * b - p * a == p * (b - a);
  }

  /** The floor in `expected_supply` costs at most half a unit's price: twice the
      expected value falls short of the sum of the minimum and maximum values by
      the price when the supply bounds sum to an odd number, and by nothing
      otherwise. */
  lemma ExpectedValueMidpoint(g: Goods)
    ensures g.MinValue() + g.MaxValue()
            == 2 * g.ExpectedValue() + (if (g.minSupply + g.maxSupply) % 2 == 1 then g.price else 0)
  {
    var e := g.ExpectedSupply();
    var odd := (g.minSupply + g.maxSupply) % 2;
    assert g.minSupply + g.maxSupply == 2 * e + odd;
    calc {
      g.MinValue() + g.MaxValue();
      g.price * (g.minSupply + g.maxSupply);
      g.price * (2 * e + odd);
      2 * (g.price * e) + g.price * odd;
    }
  }
}
