/**
 * The XDP verdict word of the ICSSG receive path.
 *
 * `ICSSG_XDP_PASS` is 0; CONSUMED, TX and REDIR are the single bits 0, 1
 * and 2. A word holding several verdicts is their bitwise OR, so a word is
 * read as the set of non-pass outcomes it carries, PASS being the empty set.
 */
module XdpVerdict {
  import opened Common

  const ICSSG_XDP_PASS: bv32 := 0
  const ICSSG_XDP_CONSUMED: bv32 := 1 << 0
  const ICSSG_XDP_TX: bv32 := 1 << 1
  const ICSSG_XDP_REDIR: bv32 := 1 << 2

  /** Every bit a verdict word may carry. */
  const XDP_VERDICT_BITS: bv32 := ICSSG_XDP_CONSUMED | ICSSG_XDP_TX | ICSSG_XDP_REDIR

  /** The outcomes other than PASS. */
  datatype XdpOutcome = Consumed | Tx | Redir

  /** The bit of an outcome. */
  function OutcomeBit(o: XdpOutcome): (b: bv32)
    ensures IsSingleBit(b)
    ensures b & XDP_VERDICT_BITS == b
    ensures b & XDP_VERDICT_BITS != ICSSG_XDP_PASS
  {
    match o
    case Consumed => ICSSG_XDP_CONSUMED
    case Tx => ICSSG_XDP_TX
    case Redir => ICSSG_XDP_REDIR
  }

  /** The word for a set of outcomes: the OR of their bits. */
  function Encode(s: set<XdpOutcome>): (w: bv32)
    ensures w & !XDP_VERDICT_BITS == 0
    ensures forall o :: o in s <==> w & OutcomeBit(o) != 0
  {
    (if Consumed in s then ICSSG_XDP_CONSUMED else 0)
    | (if Tx in s then ICSSG_XDP_TX else 0)
    | (if Redir in s then ICSSG_XDP_REDIR else 0)
  }

  /** The outcomes a word carries. */
  function Decode(w: bv32): (s: set<XdpOutcome>)
    ensures forall o :: o in s <==> w & OutcomeBit(o) != 0
    ensures s == {} <==> w & XDP_VERDICT_BITS == ICSSG_XDP_PASS
  {
    (if w & ICSSG_XDP_CONSUMED != 0 then {Consumed} else {})
    + (if w & ICSSG_XDP_TX != 0 then {Tx} else {})
    + (if w & ICSSG_XDP_REDIR != 0 then {Redir} else {})
  }

  /** PASS is the word of the empty set of outcomes, and of nothing else. */
  lemma PassIsEmptySet(s: set<XdpOutcome>)
    ensures Encode(s) == ICSSG_XDP_PASS <==> s == {}
  {
    if s != {} {
      var o :| o in s;
      assert Encode(s) & OutcomeBit(o) != 0;
    }
  }

  /** Distinct outcomes have disjoint bits. */
  lemma OutcomeBitsDisjoint(o: XdpOutcome, p: XdpOutcome)
    ensures o != p <==> OutcomeBit(o) & OutcomeBit(p) == 0
  {
  }

  /** Decoding recovers exactly the outcomes that were OR-ed. */
  lemma DecodeEncode(s: set<XdpOutcome>)
    ensures Decode(Encode(s)) == s
  {
    var w := Encode(s);
    forall o ensures o in Decode(w) <==> o in s { }
  }

  /** Every word within the verdict bits is the encoding of the set it decodes to. */
  lemma EncodeDecode(w: bv32)
    requires w & !XDP_VERDICT_BITS == 0
    ensures Encode(Decode(w)) == w
  {
  }

  /** OR-ing two verdict words is the union of their outcomes. */
  lemma EncodeUnion(s: set<XdpOutcome>, t: set<XdpOutcome>)
    ensures Encode(s + t) == Encode(s) | Encode(t)
    ensures Decode(Encode(s) | Encode(t)) == s + t
  {
    DecodeEncode(s + t);
  }
}
