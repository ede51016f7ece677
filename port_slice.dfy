/**
 * Which PRUSS slice serves an EMAC port (`prueth_emac_slice`).
 *
 * The `prueth_port` enum names the host-side port and the two physical
 * RG/SG MII ports; only the physical ports run on a slice. `EINVAL` comes
 * from the kernel's errno header and is a positive parameter here.
 */
module PortSlice {
  import opened Common

  const ICSS_SLICE0: int := 0
  const ICSS_SLICE1: int := 1

  /** `enum prueth_port`. */
  datatype PruethPort = PortHost | PortMii0 | PortMii1

  /** The enumerator values: HOST = 0, MII0 = 1, MII1 = 2. */
  function PortValue(p: PruethPort): (v: nat)
    ensures v < 3
  {
    match p
    case PortHost => 0
    case PortMii0 => 1
    case PortMii1 => 2
  }

  /** Reading an enumerator back from its value. */
  function PortOfValue(v: int): (p: Option<PruethPort>)
    ensures p.Some? <==> 0 <= v < 3
    ensures p.Some? ==> PortValue(p.value) == v
  {
    if v == 0 then Some(PortHost)
    else if v == 1 then Some(PortMii0)
    else if v == 2 then Some(PortMii1)
    else None
  }

  /** The physical ports, the ones backed by a slice. */
  predicate IsPhysical(p: PruethPort) {
    p != PortHost
  }

  /** `prueth_emac_slice`: the slice of a port, `-EINVAL` for any other port. */
  function EmacSlice(p: PruethPort, einval: int): (r: int)
    requires einval > 0
    ensures r == ICSS_SLICE0 <==> p == PortMii0
    ensures r == ICSS_SLICE1 <==> p == PortMii1
    ensures r == -einval <==> !IsPhysical(p)
    ensures r < 0 <==> !IsPhysical(p)
  {
    match p
    case PortMii0 => ICSS_SLICE0
    case PortMii1 => ICSS_SLICE1
    case _ => -einval
  }

  /**
   * `prueth_emac_slice` on the raw `port_id` value the `switch` reads: any
   * value other than the MII0 and MII1 enumerators takes the default branch.
   */
  function EmacSliceOfValue(v: int, einval: int): (r: int)
    requires einval > 0
    ensures r == ICSS_SLICE0 <==> v == PortValue(PortMii0)
    ensures r == ICSS_SLICE1 <==> v == PortValue(PortMii1)
    ensures r == -einval <==> !(v == PortValue(PortMii0) || v == PortValue(PortMii1))
  {
    match PortOfValue(v)
    case None => -einval
    case Some(p) => EmacSlice(p, einval)
  }

  /** The port that runs on a slice; the partner of `EmacSlice`. */
  function SlicePort(slice: int): (p: Option<PruethPort>)
    ensures p.Some? <==> slice == ICSS_SLICE0 || slice == ICSS_SLICE1
    ensures p.Some? ==> IsPhysical(p.value)
  {
    if slice == ICSS_SLICE0 then Some(PortMii0)
    else if slice == ICSS_SLICE1 then Some(PortMii1)
    else None
  }

  /** An enumerator read back from its value is the same enumerator. */
  lemma PortValueRoundTrip(p: PruethPort)
    ensures PortOfValue(PortValue(p)) == Some(p)
  {
  }

  /** On an enumerator's value the raw switch agrees with the switch on the port. */
  lemma EmacSliceOfValueAgrees(p: PruethPort, einval: int)
    requires einval > 0
    ensures EmacSliceOfValue(PortValue(p), einval) == EmacSlice(p, einval)
  {
    PortValueRoundTrip(p);
  }

  /** Every result of `prueth_emac_slice` is slice 0, slice 1 or `-EINVAL`. */
  lemma EmacSliceRange(p: PruethPort, einval: int)
    requires einval > 0
    ensures EmacSlice(p, einval) in {ICSS_SLICE0, ICSS_SLICE1, -einval}
  {
  }

  /** The two physical ports run on distinct slices. */
  lemma EmacSliceInjective(p: PruethPort, q: PruethPort, einval: int)
    requires einval > 0 && IsPhysical(p) && IsPhysical(q)
    ensures EmacSlice(p, einval) == EmacSlice(q, einval) <==> p == q
  {
  }

  /** Slice lookup and port lookup are inverse on the physical ports. */
  lemma SliceRoundTrip(p: PruethPort, einval: int)
    requires einval > 0
    ensures IsPhysical(p) ==> SlicePort(EmacSlice(p, einval)) == Some(p)
    ensures !IsPhysical(p) ==> SlicePort(EmacSlice(p, einval)) == None
  {
  }

  /** A slice found for a port maps back to the port that asked. */
  lemma PortRoundTrip(slice: int, einval: int)
    requires einval > 0
    ensures SlicePort(slice).Some? ==> EmacSlice(SlicePort(slice).value, einval) == slice
  {
  }
}
