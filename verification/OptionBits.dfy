/** pgify's options word: three bits set one after the other. */
module OptionBits {
  function WithSwitches(w: bv32, debug: bool, escape: bool, lowercase: bool): bv32 {
    var a := if debug then w | 1 else w;
    var b := if escape then a | 2 else a;
    if lowercase then b | 4 else b
  }

  /** Bit 1 stands for debug, bit 2 for escape and bit 4 for lower-case; a bit that was set and all others stay. */
  predicate HasBits(before: bv32, after: bv32, debug: bool, escape: bool, lowercase: bool) {
    && (after & 1 != 0 <==> before & 1 != 0 || debug)
    && (after & 2 != 0 <==> before & 2 != 0 || escape)
    && (after & 4 != 0 <==> before & 4 != 0 || lowercase)
    && after & 0xFFFF_FFF8 == before & 0xFFFF_FFF8
  }

  lemma EachItsBit(w: bv32, debug: bool, escape: bool, lowercase: bool)
    ensures HasBits(w, WithSwitches(w, debug, escape, lowercase), debug, escape, lowercase)
  {
  }
}
