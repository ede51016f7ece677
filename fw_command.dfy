/**
 * Firmware command codes of the ICSSG driver.
 *
 * The header gives each command a numeric code; `ICSS_CMD_GET_FDB_SLOT` and
 * `ICSS_CMD_ENABLE_VLAN` share the value 0x5, so the code alone does not
 * say which command was meant: the enclosing command type has to be kept.
 */
module FwCommand {

  const ICSS_CMD_SPAD: nat := 0x20
  const ICSS_CMD_RXTX: nat := 0x10
  const ICSS_CMD_ADD_FDB: nat := 0x1
  const ICSS_CMD_DEL_FDB: nat := 0x2
  const ICSS_CMD_ERASE_FDB: nat := 0x3
  const ICSS_CMD_SET_RUN: nat := 0x4
  const ICSS_CMD_GET_FDB_SLOT: nat := 0x5
  const ICSS_CMD_ENABLE_VLAN: nat := 0x5
  const ICSS_CMD_DISABLE_VLAN: nat := 0x6
  const ICSS_CMD_ADD_FILTER: nat := 0x7
  const ICSS_CMD_ADD_MAC: nat := 0x8

  datatype Command =
    | Spad | RxTx | AddFdb | DelFdb | EraseFdb | SetRun
    | GetFdbSlot | EnableVlan | DisableVlan | AddFilter | AddMac

  const AllCommands: set<Command> :=
    {Spad, RxTx, AddFdb, DelFdb, EraseFdb, SetRun, GetFdbSlot, EnableVlan, DisableVlan, AddFilter, AddMac}

  lemma AllCommandsComplete()
    ensures forall c :: c in AllCommands
  {
    forall c ensures c in AllCommands {
      match c
      case Spad =>
      case RxTx =>
      case AddFdb =>
      case DelFdb =>
      case EraseFdb =>
      case SetRun =>
      case GetFdbSlot =>
      case EnableVlan =>
      case DisableVlan =>
      case AddFilter =>
      case AddMac =>
    }
  }

  /** The numeric code of a command. */
  function Code(c: Command): (k: nat)
    ensures 0x1 <= k <= 0x8 || k == 0x10 || k == 0x20
  {
    match c
    case Spad => ICSS_CMD_SPAD
    case RxTx => ICSS_CMD_RXTX
    case AddFdb => ICSS_CMD_ADD_FDB
    case DelFdb => ICSS_CMD_DEL_FDB
    case EraseFdb => ICSS_CMD_ERASE_FDB
    case SetRun => ICSS_CMD_SET_RUN
    case GetFdbSlot => ICSS_CMD_GET_FDB_SLOT
    case EnableVlan => ICSS_CMD_ENABLE_VLAN
    case DisableVlan => ICSS_CMD_DISABLE_VLAN
    case AddFilter => ICSS_CMD_ADD_FILTER
    case AddMac => ICSS_CMD_ADD_MAC
  }

  /** The commands a received code could stand for. */
  function CommandsWithCode(k: nat): (s: set<Command>)
    ensures forall c :: c in s <==> Code(c) == k
  {
    AllCommandsComplete();
    set c | c in AllCommands && Code(c) == k
  }

  /** The encoding is not injective: two distinct commands share the code 0x5. */
  lemma CodeNotInjective()
    ensures GetFdbSlot != EnableVlan && Code(GetFdbSlot) == Code(EnableVlan) == 0x5
  {
  }

  /** That is the only clash: any two distinct commands with one code are GET_FDB_SLOT and ENABLE_VLAN. */
  lemma OnlyClashIsFive(c: Command, d: Command)
    requires c != d && Code(c) == Code(d)
    ensures {c, d} == {GetFdbSlot, EnableVlan}
  {
  }

  /** Every code but 0x5 names at most one command; 0x5 names exactly two. */
  lemma DecodingAmbiguousOnlyAtFive(k: nat)
    ensures k != 0x5 ==> |CommandsWithCode(k)| <= 1
    ensures |CommandsWithCode(0x5)| == 2
  {
    assert CommandsWithCode(0x5) == {GetFdbSlot, EnableVlan};
    if k != 0x5 && |CommandsWithCode(k)| > 1 {
      var c :| c in CommandsWithCode(k);
      assert |CommandsWithCode(k) - {c}| >= 1;
      var d :| d in CommandsWithCode(k) - {c};
      OnlyClashIsFive(c, d);
      assert false;
    }
  }

  /** Codes 0x1 to 0x8 and the two variant codes are all used. */
  lemma EveryCodeUsed(k: nat)
    requires 0x1 <= k <= 0x8 || k == 0x10 || k == 0x20
    ensures CommandsWithCode(k) != {}
  {
    var c := if k == 0x1 then AddFdb else if k == 0x2 then DelFdb else if k == 0x3 then EraseFdb
      else if k == 0x4 then SetRun else if k == 0x5 then GetFdbSlot else if k == 0x6 then DisableVlan
      else if k == 0x7 then AddFilter else if k == 0x8 then AddMac else if k == 0x10 then RxTx else Spad;
    assert c in CommandsWithCode(k);
  }
}
