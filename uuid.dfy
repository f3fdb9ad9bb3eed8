/**
 * The UUID generator behind `uuid.generate`. Only one property of UUIDs
 * matters to the model: no two generated identifiers are equal. The
 * generator is a counter and its n-th identifier is the numeral of n.
 */
module Uuid {
  import RubyLib

  /** The identifier handed out when n identifiers have been handed out before. */
  function Mint(n: nat): string
  {
    RubyLib.Decimal(n)
  }

  /** Identifiers handed out at different times differ. */
  lemma MintDistinct(a: nat, b: nat)
    requires a != b
    ensures Mint(a) != Mint(b)
  {
    if Mint(a) == Mint(b) {
      RubyLib.DecimalInjective(a, b);
    }
  }

  class Generator {
    /** How many identifiers this generator has handed out. */
    var count: nat

    constructor ()
      ensures count == 0
    {
      count := 0;
    }

    /** uuid.generate.to_s */
    method Generate() returns (id: string)
      modifies this
      ensures id == Mint(old(count))
      ensures count == old(count) + 1
    {
      id := Mint(count);
      count := count + 1;
    }
  }
}
