/** The device's report of its local-memory kind, as printed by the host. */
module DeviceInfo {

  /** `info::local_mem_type` as queried from the device; `Unlisted` stands for
      any value outside the three enumerators, which the switch's `default`
      branch receives. */
  datatype LocalMemType = None | Local | Global | Unlisted(raw: int)

  /** `local_memory_type`: "local" and "global" name the two kinds of local
      memory; everything else, `none` included, reads "none". */
  function LocalMemoryTypeName(t: LocalMemType): (s: string)
    ensures s == "local" <==> t.Local?
    ensures s == "global" <==> t.Global?
    ensures s == "none" <==> !(t.Local? || t.Global?)
  {
    match t
    case Local => "local"
    case Global => "global"
    case None => "none"
    case Unlisted(_) => "none"
  }
}
