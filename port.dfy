/** The default port of `_unique_port`: a seed derived from the salt's SHA-1
    digest and the user id, reduced into the dynamic (private) port range.
    The digest and the user id are inputs here. */
module Port {

  const DynamicMin: nat := 49152
  const DynamicMax: nat := 65535

  /** `min_ + seed % (max_ - min_ + 1)` with `seed = uid + digest`. */
  function UniquePort(digest: nat, uid: nat): (port: nat)
    ensures DynamicMin <= port <= DynamicMax
    ensures (port - DynamicMin) % (DynamicMax - DynamicMin + 1) == (uid + digest) % (DynamicMax - DynamicMin + 1)
  {
    var seed := uid + digest;
    DynamicMin + seed % (DynamicMax - DynamicMin + 1)
  }

  /** Every port of the range is the default for some seed, and seeds that
      differ by a multiple of the range size share their port. */
  lemma {:induction false} PortCoversRange(port: nat, k: nat)
    requires DynamicMin <= port <= DynamicMax
    ensures UniquePort(port - DynamicMin, 0) == port
    ensures UniquePort(port - DynamicMin + k * (DynamicMax - DynamicMin + 1), 0) == port
  {
  }
}
