/** The word of presence bits that generated messages keep, as the set of the positions
    that are set; bit i belongs to field i. */
module PresenceBits {

  type Word = set<nat>

  predicate Has(h: Word, i: nat) { i in h }

  function SetBit(h: Word, i: nat): Word { h + {i} }

  function ClearBit(h: Word, i: nat): Word { h - {i} }

  /** The grouped test: is any of the eight bits from `first` on set? */
  predicate AnyOfEight(h: Word, first: nat) {
    exists i :: first <= i < first + 8 && Has(h, i)
  }
}
