/**
 * The MMIO region table's types and lookup (device/map.h). The table itself,
 * `maps[NR_MAP]` and `nr_map`, lives in the bus (module Mmio); the lookup takes
 * it explicitly. The backing store and the callback are opaque handles here.
 */
module DeviceMap {
  import opened Machine

  /** NR_MAP: the table has room for 16 regions. */
  const NrMap: nat := 16

  /** An IOMap entry: a named closed interval [low, high] with its backing store and callback. */
  datatype IOMap = IOMap(name: string, low: Word, high: Word, space: nat, callback: nat)

  /** map_inside: `addr` lies in the closed interval [low, high]. */
  predicate MapInside(m: IOMap, addr: Word)
    ensures MapInside(m, addr) ==> m.low <= m.high
  {
    m.low <= addr <= m.high
  }

  /** Two regions share no address, as the registration's overlap test guarantees. */
  predicate Disjoint(a: IOMap, b: IOMap)
  {
    a.high < b.low || b.high < a.low
  }

  /** Every two registered regions are disjoint. */
  predicate PairwiseDisjoint(ms: seq<IOMap>)
  {
    forall i, j :: 0 <= i < j < |ms| ==> Disjoint(ms[i], ms[j])
  }

  lemma DisjointNoCommonAddress(a: IOMap, b: IOMap, addr: Word)
    requires Disjoint(a, b)
    ensures !(MapInside(a, addr) && MapInside(b, addr))
  {
  }

  /** In a pairwise-disjoint table at most one region contains any address. */
  lemma {:induction false} UniqueContainer(ms: seq<IOMap>, addr: Word, i: nat, j: nat)
    requires PairwiseDisjoint(ms)
    requires i < |ms| && j < |ms| && MapInside(ms[i], addr) && MapInside(ms[j], addr)
    ensures i == j
  {
    if i < j {
      DisjointNoCommonAddress(ms[i], ms[j], addr);
    } else if j < i {
      DisjointNoCommonAddress(ms[j], ms[i], addr);
    }
  }

  /**
   * find_mapid_by_addr: a first-match linear scan of the first `nrMap` entries.
   * `skipRef` says whether difftest_skip_ref was called, which happens on a hit.
   */
  method FindMapId(maps: array<IOMap>, nrMap: nat, addr: Word) returns (id: int, skipRef: bool)
    requires nrMap <= maps.Length
    ensures id == -1 <==> forall i :: 0 <= i < nrMap ==> !MapInside(maps[i], addr)
    ensures id != -1 ==> 0 <= id < nrMap && MapInside(maps[id], addr)
    ensures id != -1 ==> forall j :: 0 <= j < id ==> !MapInside(maps[j], addr)
    ensures skipRef <==> id != -1
  {
    var i := 0;
    while i < nrMap
      invariant 0 <= i <= nrMap
      invariant forall j :: 0 <= j < i ==> !MapInside(maps[j], addr)
    {
      if MapInside(maps[i], addr) {
        return i, true;
      }
      i := i + 1;
    }
    return -1, false;
  }

  /** When the table is pairwise disjoint, a hit is the only region containing the address. */
  lemma FoundIsUnique(maps: seq<IOMap>, nrMap: nat, addr: Word, id: nat)
    requires nrMap <= |maps| && PairwiseDisjoint(maps[..nrMap])
    requires id < nrMap && MapInside(maps[id], addr)
    ensures forall j :: 0 <= j < nrMap && MapInside(maps[j], addr) ==> j == id
  {
    forall j | 0 <= j < nrMap && MapInside(maps[j], addr) ensures j == id {
      UniqueContainer(maps[..nrMap], addr, id, j);
    }
  }
}
