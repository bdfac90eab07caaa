/** The three zones a block lives in, their wire names and their precedence. */
module Zones {
  import opened Wrappers
  import opened Strings

  datatype Zone = Permanent | Stable | Working

  /** The upper-case string the store and the client use for a zone. */
  function ZoneName(z: Zone): string {
    match z
    case Permanent => "PERMANENT"
    case Stable => "STABLE"
    case Working => "WORKING"
  }

  /** Reads a zone name back; only the three exact upper-case spellings are zones. */
  function ParseZone(s: string): (r: Option<Zone>)
    ensures forall z :: r == Some(z) <==> s == ZoneName(z)
  {
    if s == "PERMANENT" then Some(Permanent)
    else if s == "STABLE" then Some(Stable)
    else if s == "WORKING" then Some(Working)
    else None
  }

  /** Assembly precedence: PERMANENT, then STABLE, then WORKING. */
  function Rank(z: Zone): nat {
    match z
    case Permanent => 0
    case Stable => 1
    case Working => 2
  }

  lemma RankInjective(a: Zone, b: Zone)
    ensures Rank(a) == Rank(b) ==> a == b
  {
  }

  /** The lower-case directory name of a zone in an exported package. */
  function DirName(z: Zone): (r: string)
    ensures r == ToLower(ZoneName(z))
  {
    match z
    case Permanent => "permanent"
    case Stable => "stable"
    case Working => "working"
  }
}
