/**
 * The software descriptor attached to each DMA descriptor (`prueth_swdata`).
 *
 * In the header it is a C struct holding a `prueth_swdata_type` tag, a union
 * of an skb pointer, a page pointer, a 32-bit command word and an xdp_frame
 * pointer, and a back-reference to the receive channel. Here the tag and the
 * union become one sum type, so the populated member always matches the tag;
 * the C layout is kept as a raw record with encode and decode functions.
 * Kernel pointers are addresses, 0 being NULL.
 */
module SwData {
  import opened Common

  /**
   * A kernel pointer (skb, page, xdp_frame, rx channel) as its address; the
   * address 0 is NULL, for every pointer field alike.
   */
  type Handle = nat

  const NULL: Handle := 0


  /** `enum prueth_swdata_type`. */
  datatype SwDataType = SwInvalid | SwSkb | SwPage | SwCmd | SwXdpf

  /** The enumerator values, INVALID being 0. */
  function TypeValue(t: SwDataType): (v: nat)
    ensures v < 5
    ensures v == 0 <==> t == SwInvalid
  {
    match t
    case SwInvalid => 0
    case SwSkb => 1
    case SwPage => 2
    case SwCmd => 3
    case SwXdpf => 4
  }

  function TypeOfValue(v: nat): (t: Option<SwDataType>)
    ensures t.Some? <==> v < 5
    ensures t.Some? ==> TypeValue(t.value) == v
  {
    if v == 0 then Some(SwInvalid)
    else if v == 1 then Some(SwSkb)
    else if v == 2 then Some(SwPage)
    else if v == 3 then Some(SwCmd)
    else if v == 4 then Some(SwXdpf)
    else None
  }

  /** A type read back from its value is the same type. */
  lemma TypeValueRoundTrip(t: SwDataType)
    ensures TypeOfValue(TypeValue(t)) == Some(t)
  {
  }

  /** The tagged union `union prueth_data` with its tag. */
  datatype Payload =
    | NoData
    | Skb(skb: Handle)
    | Page(page: Handle)
    | Cmd(cmd: u32)
    | Xdpf(xdpf: Handle)

  /** `struct prueth_swdata`. */
  datatype SwDesc = SwDesc(data: Payload, rxChn: Handle)

  /** The tag that goes with a payload. */
  function TypeOf(p: Payload): (t: SwDataType)
    ensures t == SwInvalid <==> p.NoData?
    ensures t == SwSkb <==> p.Skb?
    ensures t == SwPage <==> p.Page?
    ensures t == SwCmd <==> p.Cmd?
    ensures t == SwXdpf <==> p.Xdpf?
  {
    match p
    case NoData => SwInvalid
    case Skb(_) => SwSkb
    case Page(_) => SwPage
    case Cmd(_) => SwCmd
    case Xdpf(_) => SwXdpf
  }

  /**
   * The C layout: the union as one machine word, the rx channel pointer
   * and the tag value.
   */
  datatype RawSwData = RawSwData(word: nat, rxChn: nat, tag: nat)

  /** Lays a descriptor out as the C struct; an INVALID union is left NULL. */
  function ToRaw(d: SwDesc): (r: RawSwData)
    ensures r.tag == TypeValue(TypeOf(d.data))
    ensures r.rxChn == d.rxChn
  {
    var word := match d.data
      case NoData => NULL
      case Skb(h) => h
      case Page(h) => h
      case Cmd(c) => c as int
      case Xdpf(h) => h;
    RawSwData(word, d.rxChn, TypeValue(TypeOf(d.data)))
  }

  /**
   * Dispatches on the tag before touching the union; `None` for an unknown
   * tag. A command descriptor reads the low 32 bits of the union.
   */
  function FromRaw(r: RawSwData): (d: Option<SwDesc>)
    ensures d.Some? <==> r.tag < 5
    ensures d.Some? ==> TypeValue(TypeOf(d.value.data)) == r.tag
    ensures d.Some? ==> d.value.rxChn == r.rxChn
  {
    match TypeOfValue(r.tag)
    case None => None
    case Some(t) =>
      var data := match t
        case SwInvalid => NoData
        case SwSkb => Skb(r.word)
        case SwPage => Page(r.word)
        case SwCmd => Cmd((r.word % TWO_POW_32) as u32)
        case SwXdpf => Xdpf(r.word);
      Some(SwDesc(data, r.rxChn))
  }

  /** Every descriptor survives being laid out and read back. */
  lemma RawRoundTrip(d: SwDesc)
    ensures FromRaw(ToRaw(d)) == Some(d)
  {
    match d.data
    case Cmd(c) =>
      assert (c as int) % TWO_POW_32 == c as int;
    case _ =>
  }

  /**
   * Reading a well-formed raw descriptor and laying it out again gives it
   * back: the union word is meaningful only for the tag it is read under.
   */
  lemma RawDecodeUnique(r: RawSwData)
    requires r.tag < 5
    requires r.tag == 0 ==> r.word == 0
    requires r.tag == 3 ==> r.word < TWO_POW_32
    ensures FromRaw(r).Some? && ToRaw(FromRaw(r).value) == r
  {
  }

  /** Two descriptors with the same payload tag hold the same kind of object. */
  lemma TagDeterminesVariant(p: Payload, q: Payload)
    requires TypeValue(TypeOf(p)) == TypeValue(TypeOf(q))
    ensures p.NoData? == q.NoData? && p.Skb? == q.Skb? && p.Page? == q.Page?
    ensures p.Cmd? == q.Cmd? && p.Xdpf? == q.Xdpf?
  {
  }
}
