/** The shape `(keyword).*?(amount)\s*(currency)` that the fee and the
    insurance patterns share: the match with its groups, and the end of the
    pattern from the amount group on. */
module Amounts {
  import opened Text
  import opened Regex

  /** A match of a pattern of the shape `(keyword).*?(amount)\s*(currency)`:
      it starts at `start`, group 2 is `t[amountStart..amountEnd]` and group 3
      is `t[currencyStart..end]`, where the match ends. */
  datatype Hit = Hit(start: nat, amountStart: nat, amountEnd: nat, currencyStart: nat, end: nat)

  /** The match that ends a `(keyword).*?(amount)\s*(currency)` pattern once
      the currency group has matched `t[c..e]`. */
  function Finish(i: nat, a: nat, b: nat, c: nat): Cont<Hit>
  {
    (e: nat) => Some(Hit(i, a, b, c, e))
  }

  /** The currency group `(cur0|cur1|...)` at each position, once the amount
      group is `t[a..b]`. */
  function Currency(t: string, currencies: seq<string>, i: nat, a: nat, b: nat): Cont<Hit>
  {
    (c: nat) => Alt(t, c, currencies, Finish(i, a, b, c))
  }

  /** `\s*` and the currency group, wherever the amount group ends. */
  function Spaces(t: string, currencies: seq<string>, i: nat, a: nat): Cont<Hit>
  {
    (b: nat) => Star(t, b, IsSpace, 0, |t|, Currency(t, currencies, i, a, b))
  }
}
