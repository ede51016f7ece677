/**
 * Firmware handshake words of the ICSSG driver.
 *
 * A firmware status word is either `ICSS_HS_FW_READY` or `ICSS_HS_FW_DEAD`
 * with a 16-bit error code in its low half. A command word carries the
 * single-bit flags BUSY, DONE and CANCEL.
 */
module Handshake {
  import opened Common

  const ICSS_HS_FW_READY: bv32 := 0x5555_5555
  const ICSS_HS_FW_DEAD: bv32 := 0xDEAD_0000

  const ICSS_HS_CMD_BUSY: bv32 := 0x4000_0000
  const ICSS_HS_CMD_DONE: bv32 := 0x8000_0000
  const ICSS_HS_CMD_CANCEL: bv32 := 0x1000_0000

  /** The half of a status word that holds the error code of a dead firmware. */
  const ERROR_CODE_MASK: bv32 := 0x0000_FFFF

  /** Every bit a command-flag word may carry. */
  const CMD_FLAG_BITS: bv32 := ICSS_HS_CMD_BUSY | ICSS_HS_CMD_DONE | ICSS_HS_CMD_CANCEL

  // ---------------------------------------------------------------------
  // Firmware status

  datatype FwStatus = FwReady | FwDead(code: bv16)

  /** The word the firmware writes for a status: `ICSS_HS_FW_DEAD | code` when dead. */
  function EncodeStatus(s: FwStatus): (w: bv32)
    ensures w == ICSS_HS_FW_READY <==> s == FwReady
    ensures s.FwDead? ==> w & !ERROR_CODE_MASK == ICSS_HS_FW_DEAD
    ensures s.FwDead? ==> (w & ERROR_CODE_MASK) as bv16 == s.code
  {
    match s
    case FwReady => ICSS_HS_FW_READY
    case FwDead(code) => ICSS_HS_FW_DEAD | code as bv32
  }

  /** Reads a status word; `None` for a word that is neither READY nor DEAD. */
  function DecodeStatus(w: bv32): (r: Option<FwStatus>)
    ensures r == Some(FwReady) <==> w == ICSS_HS_FW_READY
    ensures r.Some? && r.value.FwDead? <==> w & !ERROR_CODE_MASK == ICSS_HS_FW_DEAD
    ensures r.Some? && r.value.FwDead? ==> r.value.code as bv32 == w & ERROR_CODE_MASK
  {
    if w == ICSS_HS_FW_READY then Some(FwReady)
    else if w & !ERROR_CODE_MASK == ICSS_HS_FW_DEAD then Some(FwDead((w & ERROR_CODE_MASK) as bv16))
    else None
  }

  /** A status survives being written and read back. */
  lemma StatusRoundTrip(s: FwStatus)
    ensures DecodeStatus(EncodeStatus(s)) == Some(s)
  {
  }

  /** A word read as a status is exactly the word of that status: decoding is unambiguous. */
  lemma StatusDecodeUnique(w: bv32)
    requires DecodeStatus(w).Some?
    ensures EncodeStatus(DecodeStatus(w).value) == w
  {
  }

  /** Distinct statuses have distinct words; in particular no DEAD word reads as READY. */
  lemma StatusEncodeInjective(s: FwStatus, t: FwStatus)
    ensures EncodeStatus(s) == EncodeStatus(t) <==> s == t
    ensures s.FwDead? ==> EncodeStatus(s) != ICSS_HS_FW_READY
  {
    StatusRoundTrip(s);
    StatusRoundTrip(t);
  }

  // ---------------------------------------------------------------------
  // Command flags

  datatype CmdFlag = Busy | Done | Cancel

  function FlagBit(f: CmdFlag): (b: bv32)
    ensures IsSingleBit(b)
    ensures b & CMD_FLAG_BITS == b
  {
    match f
    case Busy => ICSS_HS_CMD_BUSY
    case Done => ICSS_HS_CMD_DONE
    case Cancel => ICSS_HS_CMD_CANCEL
  }

  /** The OR of the flags in a set. */
  function EncodeFlags(s: set<CmdFlag>): (w: bv32)
    ensures w & !CMD_FLAG_BITS == 0
    ensures forall f :: f in s <==> w & FlagBit(f) != 0
  {
    (if Busy in s then ICSS_HS_CMD_BUSY else 0)
    | (if Done in s then ICSS_HS_CMD_DONE else 0)
    | (if Cancel in s then ICSS_HS_CMD_CANCEL else 0)
  }

  /** The flags a word has set. */
  function DecodeFlags(w: bv32): (s: set<CmdFlag>)
    ensures forall f :: f in s <==> w & FlagBit(f) != 0
  {
    (if w & ICSS_HS_CMD_BUSY != 0 then {Busy} else {})
    + (if w & ICSS_HS_CMD_DONE != 0 then {Done} else {})
    + (if w & ICSS_HS_CMD_CANCEL != 0 then {Cancel} else {})
  }

  /** BUSY, DONE and CANCEL are pairwise disjoint bits. */
  lemma FlagBitsDisjoint(f: CmdFlag, g: CmdFlag)
    ensures f != g <==> FlagBit(f) & FlagBit(g) == 0
  {
  }

  /** Reading back the flags of a word gives exactly the flags that were set. */
  lemma FlagsRoundTrip(s: set<CmdFlag>)
    ensures DecodeFlags(EncodeFlags(s)) == s
  {
    forall f ensures f in DecodeFlags(EncodeFlags(s)) <==> f in s { }
  }

  /** A word with only flag bits is the word of the flags it decodes to. */
  lemma FlagsDecodeUnique(w: bv32)
    requires w & !CMD_FLAG_BITS == 0
    ensures EncodeFlags(DecodeFlags(w)) == w
  {
  }

  /**
   * The status words overlap the flag bits: READY has BUSY and CANCEL set and
   * every DEAD word has all three flags set. A status word and a command-flag
   * word are therefore only told apart by where they are read, not by value.
   */
  lemma StatusWordsCarryFlagBits(code: bv16)
    ensures DecodeFlags(EncodeStatus(FwReady)) == {Busy, Cancel}
    ensures DecodeFlags(EncodeStatus(FwDead(code))) == {Busy, Done, Cancel}
  {
    var ready := DecodeFlags(EncodeStatus(FwReady));
    assert Busy in ready && Cancel in ready && Done !in ready;
    assert forall f :: f in ready <==> f == Busy || f == Cancel;
    var dead := DecodeFlags(EncodeStatus(FwDead(code)));
    assert Busy in dead && Cancel in dead && Done in dead;
  }
}
