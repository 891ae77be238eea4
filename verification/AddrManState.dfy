/**
  The state of the address manager as a value, and its consistency invariant.

  A bucket table is a partial map from slots (bucket, position) to ids; a slot holding -1 in
  the program is a slot missing from the map. Hashing is a parameter: `Hashing` gives the
  bucket and position numbers, already reduced to their range, of what the program hashes.
 */
module AddrManState {

  const TRIED_BUCKET_COUNT := 256
  const NEW_BUCKET_COUNT := 1024
  const BUCKET_SIZE := 64
  const NEW_BUCKETS_PER_ADDRESS := 8
  const HORIZON_DAYS := 30
  const RETRIES := 3
  const MAX_FAILURES := 10
  const MIN_FAIL_DAYS := 7
  const REPLACEMENT_HOURS := 4
  const GETADDR_MAX_PCT := 100
  const GETADDR_MAX := 2500
  const TRIED_COLLISION_SIZE := 10

  type TriedBucketNo = b: nat | b < TRIED_BUCKET_COUNT
  type NewBucketNo = b: nat | b < NEW_BUCKET_COUNT
  type Position = p: nat | p < BUCKET_SIZE

  datatype NetAddr = NetAddr(ip: nat)
  datatype Service = Service(net: NetAddr, port: nat)

  // The address a peer announces (CAddress). Service bits are the set of bit numbers.
  datatype Address = Address(service: Service, nServices: set<nat>, nTime: int)

  // CAddrInfo: an Address with its statistics and its places in the manager's tables.
  datatype AddrInfo = AddrInfo(
    service: Service,
    nServices: set<nat>,
    nTime: int,
    source: NetAddr,
    nLastTry: int,
    nLastCountAttempt: int,
    nLastSuccess: int,
    nAttempts: int,
    nRefCount: int,
    fInTried: bool,
    nRandomPos: int)
  {
    predicate IsTerrible(now: int) {
      if nLastTry != 0 && nLastTry >= now - 60 then false
      else if nTime > now + 10 * 60 then true
      else if nTime == 0 || now - nTime > HORIZON_DAYS * 24 * 60 * 60 then true
      else if nLastSuccess == 0 && nAttempts >= RETRIES then true
      else now - nLastSuccess > MIN_FAIL_DAYS * 24 * 60 * 60 && nAttempts >= MAX_FAILURES
    }
  }

  // The keyed hashes behind the bucket functions, and the address predicates.
  datatype Hashing = Hashing(
    triedBucket: Service -> TriedBucketNo,
    newBucket: (NetAddr, NetAddr) -> NewBucketNo,
    position: (bool, nat, Service) -> Position,
    isRoutable: NetAddr -> bool,
    isValid: NetAddr -> bool,
    nullKey: bool)
  {
    function TriedSlot(s: Service): Slot {
      Slot(triedBucket(s), position(false, triedBucket(s), s))
    }

    // The one slot of a new bucket that can hold s.
    function NewSlotIn(bucket: nat, s: Service): Slot {
      Slot(bucket, position(true, bucket, s))
    }

    function NewSlot(s: Service, source: NetAddr): Slot {
      NewSlotIn(newBucket(s.net, source), s)
    }
  }

  datatype Slot = Slot(bucket: nat, pos: nat)
  type Table = map<Slot, int>
  type Infos = map<int, AddrInfo>

  datatype State = State(
    nIdCount: int,
    mapInfo: Infos,
    mapAddr: map<NetAddr, int>,
    vRandom: seq<int>,
    nTried: int,
    vvTried: Table,
    nNew: int,
    vvNew: Table,
    nLastGood: int,
    collisions: set<int>)

  // The slots of the new table that hold id.
  function Refs(vvNew: Table, id: int): set<Slot> {
    set k | k in vvNew && vvNew[k] == id
  }

  function TriedIds(m: Infos): set<int> {
    set id | id in m && m[id].fInTried
  }

  function NewIds(m: Infos): set<int> {
    set id | id in m && !m[id].fInTried
  }

  // mapAddr and mapInfo index each other.
  ghost predicate AddrIndex(m: Infos, mapAddr: map<NetAddr, int>) {
    && (forall id :: id in m ==> m[id].service.net in mapAddr && mapAddr[m[id].service.net] == id)
    && (forall a :: a in mapAddr ==> mapAddr[a] in m && m[mapAddr[a]].service.net == a)
  }

  // vRandom lists every id exactly once, at the position its entry records.
  ghost predicate RandomIndex(m: Infos, vRandom: seq<int>) {
    && (forall id :: id in m ==> 0 <= m[id].nRandomPos < |vRandom| && vRandom[m[id].nRandomPos] == id)
    && (forall i :: 0 <= i < |vRandom| ==> vRandom[i] in m && m[vRandom[i]].nRandomPos == i)
  }

  ghost predicate TriedSlotOk(h: Hashing, m: Infos, k: Slot, id: int) {
    id in m && m[id].fInTried && k == h.TriedSlot(m[id].service)
  }

  // The tried table holds exactly the tried entries, each in its own slot.
  ghost predicate TriedTable(h: Hashing, m: Infos, vvTried: Table) {
    && (forall k :: k in vvTried ==> TriedSlotOk(h, m, k, vvTried[k]))
    && (forall id :: id in m && m[id].fInTried ==>
          h.TriedSlot(m[id].service) in vvTried && vvTried[h.TriedSlot(m[id].service)] == id)
  }

  ghost predicate NewSlotOk(h: Hashing, m: Infos, k: Slot, id: int) {
    id in m && !m[id].fInTried && k.bucket < NEW_BUCKET_COUNT && k == h.NewSlotIn(k.bucket, m[id].service)
  }

  // The new table holds non-tried entries at their own positions, and reference counts count slots.
  ghost predicate NewTable(h: Hashing, m: Infos, vvNew: Table) {
    && (forall k :: k in vvNew ==> NewSlotOk(h, m, k, vvNew[k]))
    && (forall id :: id in m ==> m[id].nRefCount == |Refs(vvNew, id)|)
  }

  // Every entry outside `loose` is tried, or referenced between 1 and 8 times.
  ghost predicate RefBounds(m: Infos, loose: set<int>) {
    forall id :: id in m && !m[id].fInTried ==>
      m[id].nRefCount <= NEW_BUCKETS_PER_ADDRESS && (id in loose || m[id].nRefCount >= 1)
  }

  ghost predicate StatsOk(m: Infos) {
    forall id :: id in m ==>
      m[id].nLastTry >= 0 && m[id].nLastSuccess >= 0 && (m[id].fInTried ==> m[id].nLastSuccess > 0)
  }

  ghost predicate IdsBelow(m: Infos, n: int) {
    0 <= n && forall id :: id in m ==> 0 <= id < n
  }

  // nNew is d short of the number of new entries.
  ghost predicate Counters(m: Infos, nTried: int, nNew: int, d: int) {
    nTried == |TriedIds(m)| && nNew == |NewIds(m)| - d
  }

  // The invariant inside an operation: entries in `loose` may be unreferenced, and nNew is d short.
  ghost predicate Core(h: Hashing, s: State, loose: set<int>, d: int) {
    && AddrIndex(s.mapInfo, s.mapAddr)
    && RandomIndex(s.mapInfo, s.vRandom)
    && IdsBelow(s.mapInfo, s.nIdCount)
    && StatsOk(s.mapInfo)
    && TriedTable(h, s.mapInfo, s.vvTried)
    && NewTable(h, s.mapInfo, s.vvNew)
    && RefBounds(s.mapInfo, loose)
    && Counters(s.mapInfo, s.nTried, s.nNew, d)
  }

  // Pending collisions: at most ten, all of ids already given out, and each one still known has an occupant
  // in its tried slot.
  ghost predicate CollisionsOk(h: Hashing, s: State) {
    && |s.collisions| <= TRIED_COLLISION_SIZE
    && (forall id :: id in s.collisions ==> 0 <= id < s.nIdCount)
    && (forall id :: id in s.collisions && id in s.mapInfo ==> h.TriedSlot(s.mapInfo[id].service) in s.vvTried)
  }

  // The invariant between operations.
  ghost predicate Inv(h: Hashing, s: State) {
    && Core(h, s, {}, 0)
    && CollisionsOk(h, s)
  }

  // ---------------------------------------------------------------- the program's steps on values

  function Cleared(): State {
    State(0, map[], map[], [], 0, map[], 0, map[], 1, {})
  }

  function FreshInfo(addr: Address, source: NetAddr): AddrInfo {
    AddrInfo(addr.service, addr.nServices, addr.nTime, source, 0, 0, 0, 0, 0, false, -1)
  }

  // Create: the new entry gets id nIdCount.
  function Create(s: State, addr: Address, source: NetAddr): State {
    var id := s.nIdCount;
    s.(nIdCount := id + 1,
       mapInfo := s.mapInfo[id := FreshInfo(addr, source).(nRandomPos := |s.vRandom|)],
       mapAddr := s.mapAddr[addr.service.net := id],
       vRandom := s.vRandom + [id])
  }

  function WithPos(m: Infos, id: int, pos: int): Infos
    requires id in m
  {
    m[id := m[id].(nRandomPos := pos)]
  }

  function SwapRandom(s: State, i: nat, j: nat): State
    requires i == j || (i < |s.vRandom| && j < |s.vRandom| && s.vRandom[i] in s.mapInfo && s.vRandom[j] in s.mapInfo)
  {
    if i == j then s else
    var a, b := s.vRandom[i], s.vRandom[j];
    s.(mapInfo := WithPos(WithPos(s.mapInfo, a, j), b, i), vRandom := s.vRandom[i := b][j := a])
  }

  // What Delete requires of the manager: its three asserts and those of SwapRandom.
  ghost predicate Deletable(s: State, id: int) {
    id in s.mapInfo && !s.mapInfo[id].fInTried && s.mapInfo[id].nRefCount == 0 && RandomIndex(s.mapInfo, s.vRandom)
  }

  function Delete(s: State, id: int): State
    requires Deletable(s, id)
  {
    var net := s.mapInfo[id].service.net;
    var t := SwapRandom(s, s.mapInfo[id].nRandomPos, |s.vRandom| - 1);
    t.(vRandom := t.vRandom[..|t.vRandom| - 1],
       mapAddr := t.mapAddr - {net},
       mapInfo := t.mapInfo - {id},
       nNew := t.nNew - 1)
  }

  function WithRefCount(m: Infos, id: int, n: int): Infos
    requires id in m
  {
    m[id := m[id].(nRefCount := n)]
  }

  function WithTried(m: Infos, id: int, b: bool): Infos
    requires id in m
  {
    m[id := m[id].(fInTried := b)]
  }

  function DropRef(s: State, k: Slot): State
    requires k in s.vvNew && s.vvNew[k] in s.mapInfo
  {
    var id := s.vvNew[k];
    s.(mapInfo := WithRefCount(s.mapInfo, id, s.mapInfo[id].nRefCount - 1), vvNew := s.vvNew - {k})
  }

  function AddRef(s: State, k: Slot, id: int): State
    requires id in s.mapInfo
  {
    s.(mapInfo := WithRefCount(s.mapInfo, id, s.mapInfo[id].nRefCount + 1), vvNew := s.vvNew[k := id])
  }

  // First part of MakeTried: the entry leaves every new bucket.
  function LeaveNew(s: State, id: int): State
    requires id in s.mapInfo
  {
    var refs := Refs(s.vvNew, id);
    s.(mapInfo := WithRefCount(s.mapInfo, id, s.mapInfo[id].nRefCount - |refs|), vvNew := s.vvNew - refs,
        nNew := s.nNew - 1)
  }

  // Second part: the occupant of tried slot k loses it.
  function LeaveTried(s: State, k: Slot): State
    requires k in s.vvTried && s.vvTried[k] in s.mapInfo
  {
    s.(mapInfo := WithTried(s.mapInfo, s.vvTried[k], false), vvTried := s.vvTried - {k}, nTried := s.nTried - 1)
  }

  // The evicted entry goes back to the new table, with one reference.
  function EnterNew(s: State, k: Slot, id: int): State
    requires id in s.mapInfo
  {
    s.(mapInfo := WithRefCount(s.mapInfo, id, 1), vvNew := s.vvNew[k := id], nNew := s.nNew + 1)
  }

  // Last part: the entry takes the free tried slot k.
  function EnterTried(s: State, k: Slot, id: int): State
    requires id in s.mapInfo
  {
    s.(mapInfo := WithTried(s.mapInfo, id, true), vvTried := s.vvTried[k := id], nTried := s.nTried + 1)
  }

  function Update(s: State, id: int, info: AddrInfo): State {
    s.(mapInfo := s.mapInfo[id := info])
  }

  // ClearNew: free slot k of the new table, deleting its occupant when that was its last reference.
  function ClearNew(s: State, k: Slot): State
    requires k in s.vvNew ==> s.vvNew[k] in s.mapInfo && !s.mapInfo[s.vvNew[k]].fInTried
    requires RandomIndex(s.mapInfo, s.vRandom)
  {
    if k !in s.vvNew then s else
    var t := DropRef(s, k);
    if t.mapInfo[s.vvNew[k]].nRefCount == 0 then Delete(t, s.vvNew[k]) else t
  }
}
