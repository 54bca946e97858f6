/**
 The stochastic address manager: four redundant indexes over one set of peer
 addresses (`mapInfo`, `mapAddr`, `vRandom` and the two bucket tables), with
 reference counts and two counters, all updated in place.

 `Inv` is the consistency the debug-only method `Check_` tests, split into one
 predicate per index.  Every public operation keeps it, so none of the
 assertions in the source can fire.
 */
module AddrMan {
  datatype Option<+T> = None | Some(value: T)

  const TRIED_BUCKETS_PER_GROUP := 8
  const NEW_BUCKETS_PER_SOURCE_GROUP := 64
  const TRIED_BUCKET_COUNT := 256
  const NEW_BUCKET_COUNT := 1024
  const BUCKET_SIZE := 64
  const NEW_BUCKETS_PER_ADDRESS := 8
  const HORIZON_DAYS := 30
  const RETRIES := 3
  const MAX_FAILURES := 10
  const MIN_FAIL_DAYS := 7
  const GETADDR_MAX_PCT := 23
  const GETADDR_MAX := 2500
  const UINT32 := 0x1_0000_0000

  /** A network address without port, the key of `mapAddr`. */
  datatype NetAddr = NetAddr(ip: nat)

  /** A network address with port. */
  datatype Service = Service(addr: NetAddr, port: nat)

  /** An address as announced by a peer; the service flags are a set of bit numbers. */
  datatype Address = Address(service: Service, nServices: set<nat>, nTime: int)

  datatype AddrInfo = AddrInfo(
    service: Service,
    nServices: set<nat>,
    nTime: int,
    source: NetAddr,
    nLastTry: int,
    nLastCountAttempt: int,
    nLastSuccess: int,
    nAttempts: int,
    nRefCount: int,
    fInTried: bool,
    nRandomPos: int)
  {
    predicate IsTerrible(nNow: int) {
      if nLastTry != 0 && nLastTry >= nNow - 60 then false
      else if nTime > nNow + 10 * 60 then true
      else if nTime == 0 || nNow - nTime > HORIZON_DAYS * 24 * 60 * 60 then true
      else if nLastSuccess == 0 && nAttempts >= RETRIES then true
      else nNow - nLastSuccess > MIN_FAIL_DAYS * 24 * 60 * 60 && nAttempts >= MAX_FAILURES
    }

    /** The entry without its position in `vRandom`, which reshuffling changes. */
    function Facts(): AddrInfo {
      this.(nRandomPos := 0)
    }

    function ToAddress(): Address {
      Address(service, nServices, nTime)
    }
  }

  function NewInfo(addr: Address, source: NetAddr): AddrInfo {
    AddrInfo(addr.service, addr.nServices, addr.nTime, source, 0, 0, 0, 0, 0, false, -1)
  }

  /** What is fed to the 64-bit bucket hash, one constructor per use. */
  datatype HashInput =
    | TriedKey(key: nat, service: Service)
    | TriedGroup(key: nat, group: nat, spread: nat)
    | NewGroups(key: nat, group: nat, sourceGroup: nat)
    | NewSource(key: nat, sourceGroup: nat, spread: nat)
    | Position(key: nat, isNew: bool, bucket: int, service: Service)

  /** Code outside the model: the keyed hash, address grouping and routability. */
  datatype Env = Env(cheapHash: HashInput -> nat, group: NetAddr -> nat, isRoutable: NetAddr -> bool)

  type TriedBucketNo = b: nat | b < TRIED_BUCKET_COUNT
  type NewBucketNo = b: nat | b < NEW_BUCKET_COUNT
  type BucketPos = p: nat | p < BUCKET_SIZE

  function GetTriedBucket(env: Env, nKey: nat, s: Service): TriedBucketNo {
    var hash1 := env.cheapHash(TriedKey(nKey, s));
    var hash2 := env.cheapHash(TriedGroup(nKey, env.group(s.addr), hash1 % TRIED_BUCKETS_PER_GROUP));
    hash2 % TRIED_BUCKET_COUNT
  }

  function GetNewBucket(env: Env, nKey: nat, s: Service, source: NetAddr): NewBucketNo {
    var hash1 := env.cheapHash(NewGroups(nKey, env.group(s.addr), env.group(source)));
    var hash2 := env.cheapHash(NewSource(nKey, env.group(source), hash1 % NEW_BUCKETS_PER_SOURCE_GROUP));
    hash2 % NEW_BUCKET_COUNT
  }

  function GetBucketPosition(env: Env, nKey: nat, isNew: bool, bucket: int, s: Service): BucketPos {
    env.cheapHash(Position(nKey, isNew, bucket, s)) % BUCKET_SIZE
  }

  /** Where entries belong under one secret key. */
  datatype Placement = Placement(
    triedBucket: Service -> TriedBucketNo,
    newBucket: (Service, NetAddr) -> NewBucketNo,
    position: (bool, int, Service) -> BucketPos)

  function Keyed(env: Env, nKey: nat): Placement {
    Placement(
      s => GetTriedBucket(env, nKey, s),
      (s, source) => GetNewBucket(env, nKey, s, source),
      (isNew, bucket, s) => GetBucketPosition(env, nKey, isNew, bucket, s))
  }

  /** A bucket table: `t[b][p]` is the id at position `p` of bucket `b`, or -1. */
  type Table = seq<seq<int>>

  predicate Shaped(t: Table, buckets: nat) {
    |t| == buckets && forall b :: 0 <= b < buckets ==> |t[b]| == BUCKET_SIZE
  }

  function Put(t: Table, b: nat, p: nat, id: int): Table
    requires b < |t| && p < |t[b]|
  {
    t[b := t[b][p := id]]
  }

  type Infos = map<int, AddrInfo>

  // ---------------------------------------------------------------- invariant

  /** `mapAddr` is the inverse of `mapInfo`, and ids are below the id counter. */
  ghost predicate AddrIndex(m: Infos, addrs: map<NetAddr, int>, nIdCount: int) {
    && 0 <= nIdCount
    && (forall id <- m :: 0 <= id < nIdCount && m[id].service.addr in addrs && addrs[m[id].service.addr] == id)
    && (forall a <- addrs :: addrs[a] in m && m[addrs[a]].service.addr == a)
  }

  /** `nRandomPos` is the inverse of `vRandom`. */
  ghost predicate RandomIndex(m: Infos, v: seq<int>) {
    && (forall id <- m :: 0 <= m[id].nRandomPos < |v| && v[m[id].nRandomPos] == id)
    && (forall i :: 0 <= i < |v| ==> v[i] in m && m[v[i]].nRandomPos == i)
  }

  /** Each tried id sits in exactly its own slot. */
  ghost predicate TriedTable(k: Placement, m: Infos, t: Table) {
    && Shaped(t, TRIED_BUCKET_COUNT)
    && (forall b, p :: 0 <= b < |t| && 0 <= p < |t[b]| && t[b][p] != -1 ==>
                         && t[b][p] in m && m[t[b][p]].fInTried
                         && b == k.triedBucket(m[t[b][p]].service)
                         && p == k.position(false, b, m[t[b][p]].service))
    && (forall id <- m :: m[id].fInTried ==>
                            var b := k.triedBucket(m[id].service);
                            t[b][k.position(false, b, m[id].service)] == id)
  }

  /** The new buckets holding `id`. */
  ghost function Buckets(k: Placement, t: Table, s: Service, id: int): set<NewBucketNo>
    requires Shaped(t, NEW_BUCKET_COUNT)
  {
    set b: NewBucketNo | t[b][k.position(true, b, s)] == id
  }

  /** New ids sit only in slots they hash to, and reference counts count those slots. */
  ghost predicate NewTable(k: Placement, m: Infos, t: Table) {
    && Shaped(t, NEW_BUCKET_COUNT)
    && (forall b, p :: 0 <= b < |t| && 0 <= p < |t[b]| && t[b][p] != -1 ==>
                         t[b][p] in m && p == k.position(true, b, m[t[b][p]].service))
    && (forall id <- m :: m[id].nRefCount == |Buckets(k, t, m[id].service, id)|)
  }

  /**
   Tried ids have no references and new ids between one and eight.  While an
   operation is under way, ids in `zero` are new but may have lost their last
   reference, and ids in `limbo` are between the two tables.
   */
  ghost predicate RefBounds(m: Infos, zero: set<int>, limbo: set<int>) {
    && (forall id <- m :: m[id].fInTried ==> m[id].nRefCount == 0)
    && (forall id <- m :: m[id].nRefCount <= NEW_BUCKETS_PER_ADDRESS)
    && (forall id <- m :: !m[id].fInTried && m[id].nRefCount == 0 ==> id in zero || id in limbo)
    && (forall id <- limbo :: id in m && !m[id].fInTried && m[id].nRefCount == 0)
  }

  ghost function TriedIds(m: Infos): set<int> {
    set id | id in m && m[id].fInTried
  }

  ghost function NewIds(m: Infos, limbo: set<int>): set<int> {
    set id | id in m && !m[id].fInTried && id !in limbo
  }

  ghost predicate Counts(m: Infos, nTried: int, nNew: int, limbo: set<int>) {
    nTried == |TriedIds(m)| && nNew == |NewIds(m, limbo)|
  }

  /** The clauses of `Check_` about recorded times. */
  ghost predicate Times(m: Infos) {
    forall id <- m :: m[id].nLastTry >= 0 && m[id].nLastSuccess >= 0 && (m[id].fInTried ==> m[id].nLastSuccess != 0)
  }

  /** `m'` has the same facts as `m` about every id outside `ids`. */
  ghost predicate SameBut(m: Infos, m': Infos, ids: set<int>) {
    && (forall id :: id in m && id !in ids ==> id in m' && m'[id].Facts() == m[id].Facts())
    && (forall id :: id in m' && id !in ids ==> id in m)
  }

  /** Everything the manager stores, as one value. */
  datatype Tables = Tables(
    k: Placement,
    infos: Infos,
    addrs: map<NetAddr, int>,
    random: seq<int>,
    tried: Table,
    news: Table,
    nTried: int,
    nNew: int,
    nIdCount: int)

  ghost predicate Consistent(t: Tables, zero: set<int>, limbo: set<int>) {
    && AddrIndex(t.infos, t.addrs, t.nIdCount)
    && RandomIndex(t.infos, t.random)
    && TriedTable(t.k, t.infos, t.tried)
    && NewTable(t.k, t.infos, t.news)
    && RefBounds(t.infos, zero, limbo)
    && Counts(t.infos, t.nTried, t.nNew, limbo)
  }

  // ------------------------------------------------ what each kind of write keeps

  /** Writing one slot moves one bucket between two holders and touches no other. */
  lemma BucketsAfterWrite(k: Placement, t: Table, b: nat, p: nat, v: int, s: Service, id: int)
    requires Shaped(t, NEW_BUCKET_COUNT) && b < NEW_BUCKET_COUNT && p < BUCKET_SIZE
    ensures var before, after := Buckets(k, t, s, id), Buckets(k, Put(t, b, p, v), s, id);
            if p != k.position(true, b, s) || t[b][p] == v then after == before
            else if v == id then after == before + {b} && b !in before
            else if t[b][p] == id then after == before - {b} && b in before
            else after == before
  {
    var before, after := Buckets(k, t, s, id), Buckets(k, Put(t, b, p, v), s, id);
    if p != k.position(true, b, s) || t[b][p] == v {
      assert after == before;
    } else if v == id {
      assert after == before + {b};
    } else if t[b][p] == id {
      assert after == before - {b};
    } else {
      assert after == before;
    }
  }

  /** An id with a positive reference count is in some new bucket. */
  lemma SomeBucket(k: Placement, m: Infos, t: Table, id: int) returns (b: NewBucketNo)
    requires NewTable(k, m, t) && id in m && m[id].nRefCount > 0
    ensures t[b][k.position(true, b, m[id].service)] == id
  {
    var bs := Buckets(k, t, m[id].service, id);
    assert bs != {};
    b :| b in bs;
  }

  /** An id without references occurs in no slot of the new table. */
  lemma UnreferencedId(k: Placement, m: Infos, t: Table, id: int)
    requires NewTable(k, m, t) && id in m && m[id].nRefCount == 0 && id != -1
    ensures forall b, p :: 0 <= b < |t| && 0 <= p < |t[b]| ==> t[b][p] != id
  {
    assert Buckets(k, t, m[id].service, id) == {};
    forall b, p | 0 <= b < |t| && 0 <= p < |t[b]| ensures t[b][p] != id {
      assert b !in Buckets(k, t, m[id].service, id);
    }
  }

  ghost function TriedMark(m: Infos, id: int): int {
    if id in m && m[id].fInTried then 1 else 0
  }

  ghost function NewMark(m: Infos, id: int, limbo: set<int>): int {
    if id in m && !m[id].fInTried && id !in limbo then 1 else 0
  }

  /** Changing one entry changes the counters by the marks of that entry alone. */
  lemma CountsAfterEdit(m: Infos, m': Infos, id: int, limbo: set<int>, limbo': set<int>, nTried: int, nNew: int)
    requires Counts(m, nTried, nNew, limbo)
    requires forall x :: x != id ==> (x in m <==> x in m') && (x in limbo <==> x in limbo')
    requires forall x :: x != id && x in m ==> m'[x].fInTried == m[x].fInTried
    ensures Counts(m', nTried + TriedMark(m', id) - TriedMark(m, id),
                   nNew + NewMark(m', id, limbo') - NewMark(m, id, limbo), limbo')
  {
    OneApart(TriedIds(m), TriedIds(m'), id);
    OneApart(NewIds(m, limbo), NewIds(m', limbo'), id);
  }

  /** Sets that agree outside `id` differ in size by the membership of `id`. */
  lemma OneApart(a: set<int>, b: set<int>, id: int)
    requires forall x :: x != id ==> (x in a <==> x in b)
    ensures |b| == |a| + (if id in b then 1 else 0) - (if id in a then 1 else 0)
  {
    var a', b' := a - {id}, b - {id};
    forall x ensures x in a' <==> x in b' {
      assert x != id ==> (x in a <==> x in b);
    }
    assert a' == b';
    assert |a| == |a'| + if id in a then 1 else 0;
    assert |b| == |b'| + if id in b then 1 else 0;
  }

  lemma SameCounts(m: Infos, m': Infos, nTried: int, nNew: int, limbo: set<int>)
    requires SameBut(m, m', {}) && Counts(m, nTried, nNew, limbo)
    ensures Counts(m', nTried, nNew, limbo)
  {
    var tried, tried' := TriedIds(m), TriedIds(m');
    var news, news' := NewIds(m, limbo), NewIds(m', limbo);
    forall id ensures (id in tried <==> id in tried') && (id in news <==> id in news') {
      assert id in m <==> id in m';
    }
    assert tried == tried' && news == news';
  }

  /** Only the facts about each entry matter outside `RandomIndex`. */
  lemma ShuffleKeeps(t: Tables, m: Infos, random: seq<int>, zero: set<int>, limbo: set<int>)
    requires Consistent(t, zero, limbo) && SameBut(t.infos, m, {}) && RandomIndex(m, random)
    ensures Consistent(t.(infos := m, random := random), zero, limbo)
  {
    SameCounts(t.infos, m, t.nTried, t.nNew, limbo);
    assert forall id <- t.infos :: id in m && m[id].Facts() == t.infos[id].Facts();
    assert forall id <- m :: id in t.infos;
  }

  lemma SwapKeepsRandomIndex(m: Infos, v: seq<int>, i: nat, j: nat)
    requires RandomIndex(m, v) && i < |v| && j < |v| && i != j
    ensures var m' := m[v[i] := m[v[i]].(nRandomPos := j)][v[j] := m[v[j]].(nRandomPos := i)];
            RandomIndex(m', v[i := v[j]][j := v[i]]) && SameBut(m, m', {})
  {
  }

  lemma TweakKeepsCounts(m: Infos, id: int, info: AddrInfo, limbo: set<int>, nTried: int, nNew: int)
    requires Counts(m, nTried, nNew, limbo) && id in m && info.fInTried == m[id].fInTried
    ensures Counts(m[id := info], nTried, nNew, limbo)
  {
    CountsAfterEdit(m, m[id := info], id, limbo, limbo, nTried, nNew);
  }

  ghost function Swapped(t: Tables, i: nat, j: nat): Tables
    requires i < |t.random| && j < |t.random| && t.random[i] in t.infos && t.random[j] in t.infos
  {
    var a, b := t.random[i], t.random[j];
    t.(infos := t.infos[a := t.infos[a].(nRandomPos := j)][b := t.infos[b].(nRandomPos := i)],
    random := t.random[i := b][j := a])
  }

  lemma SwapKeeps(t: Tables, i: nat, j: nat, zero: set<int>, limbo: set<int>)
    requires Consistent(t, zero, limbo) && i < |t.random| && j < |t.random| && i != j
    ensures t.random[i] in t.infos && t.random[j] in t.infos && t.random[i] != t.random[j]
    ensures Consistent(Swapped(t, i, j), zero, limbo) && SameBut(t.infos, Swapped(t, i, j).infos, {})
  {
    SwapKeepsRandomIndex(t.infos, t.random, i, j);
    ShuffleKeeps(t, Swapped(t, i, j).infos, Swapped(t, i, j).random, zero, limbo);
  }

  lemma RandomPlaces(t: Tables, zero: set<int>, limbo: set<int>)
    requires Consistent(t, zero, limbo)
    ensures RandomIndex(t.infos, t.random)
  {
  }

  /** Replacing an entry by one with the same address and position keeps both inverse maps. */
  lemma EditKeepsIndexes(t: Tables, id: int, info: AddrInfo)
    requires AddrIndex(t.infos, t.addrs, t.nIdCount) && RandomIndex(t.infos, t.random) && id in t.infos
    requires info.service == t.infos[id].service && info.nRandomPos == t.infos[id].nRandomPos
    ensures var m := t.infos[id := info]; AddrIndex(m, t.addrs, t.nIdCount) && RandomIndex(m, t.random)
  {
  }

  lemma EditKeepsTables(k: Placement, m: Infos, tried: Table, news: Table, id: int, info: AddrInfo)
    requires TriedTable(k, m, tried) && id in m && info.service == m[id].service
    ensures info.fInTried == m[id].fInTried ==> TriedTable(k, m[id := info], tried)
    ensures info.nRefCount == m[id].nRefCount && NewTable(k, m, news) ==> NewTable(k, m[id := info], news)
  {
  }

  ghost function WithInfo(t: Tables, id: int, info: AddrInfo): Tables {
    t.(infos := t.infos[id := info])
  }

  /** Updating the recorded statistics of one entry. */
  lemma EditKeeps(t: Tables, id: int, info: AddrInfo, zero: set<int>, limbo: set<int>)
    requires Consistent(t, zero, limbo) && id in t.infos
    requires info.service == t.infos[id].service && info.nRandomPos == t.infos[id].nRandomPos
    requires info.fInTried == t.infos[id].fInTried && info.nRefCount == t.infos[id].nRefCount
    ensures Consistent(WithInfo(t, id, info), zero, limbo)
  {
    EditKeepsIndexes(t, id, info);
    EditKeepsTables(t.k, t.infos, t.tried, t.news, id, info);
    TweakKeepsCounts(t.infos, id, info, limbo, t.nTried, t.nNew);
  }

  ghost function Created(t: Tables, info: AddrInfo): Tables {
    t.(infos := t.infos[t.nIdCount := info.(nRandomPos := |t.random|)],
    addrs := t.addrs[info.service.addr := t.nIdCount],
    random := t.random + [t.nIdCount],
    nIdCount := t.nIdCount + 1)
  }

  lemma CreateKeepsTables(k: Placement, m: Infos, tried: Table, news: Table, id: int, info: AddrInfo)
    requires TriedTable(k, m, tried) && NewTable(k, m, news) && id !in m && id != -1
    requires !info.fInTried && info.nRefCount == 0
    ensures TriedTable(k, m[id := info], tried) && NewTable(k, m[id := info], news)
  {
    assert Buckets(k, news, info.service, id) == {};
  }

  lemma CreateKeepsAddrIndex(t: Tables, info: AddrInfo)
    requires AddrIndex(t.infos, t.addrs, t.nIdCount) && info.service.addr !in t.addrs
    ensures var t' := Created(t, info); AddrIndex(t'.infos, t'.addrs, t'.nIdCount)
  {
  }

  lemma CreateKeepsRandomIndex(t: Tables, info: AddrInfo)
    requires RandomIndex(t.infos, t.random) && t.nIdCount !in t.infos
    ensures var t' := Created(t, info); RandomIndex(t'.infos, t'.random)
  {
  }

  /** A fresh id can be added as an entry that is in no table yet. */
  lemma CreateKeeps(t: Tables, info: AddrInfo)
    requires Consistent(t, {}, {}) && info.service.addr !in t.addrs
    requires !info.fInTried && info.nRefCount == 0
    ensures Consistent(Created(t, info), {}, {t.nIdCount})
  {
    var id, t' := t.nIdCount, Created(t, info);
    CreateKeepsAddrIndex(t, info);
    CreateKeepsRandomIndex(t, info);
    CreateKeepsTables(t.k, t.infos, t.tried, t.news, id, t'.infos[id]);
    CountsAfterEdit(t.infos, t'.infos, id, {}, {id}, t.nTried, t.nNew);
  }

  ghost function Deleted(t: Tables, id: int): Tables
    requires id in t.infos && |t.random| > 0
  {
    t.(infos := t.infos - {id},
    addrs := t.addrs - {t.infos[id].service.addr},
    random := t.random[..|t.random| - 1],
    nNew := t.nNew - 1)
  }

  lemma DeleteKeepsIndexes(t: Tables, id: int)
    requires AddrIndex(t.infos, t.addrs, t.nIdCount) && RandomIndex(t.infos, t.random) && id in t.infos
    requires |t.random| > 0 && t.random[|t.random| - 1] == id
    ensures var t' := Deleted(t, id); AddrIndex(t'.infos, t'.addrs, t'.nIdCount) && RandomIndex(t'.infos, t'.random)
  {
  }

  lemma DeleteKeepsRandomIndex(m: Infos, v: seq<int>, id: int)
    requires RandomIndex(m, v) && id in m && |v| > 0 && v[|v| - 1] == id
    ensures RandomIndex(m - {id}, v[..|v| - 1])
  {
  }

  lemma DeleteKeepsTables(k: Placement, m: Infos, tried: Table, news: Table, id: int)
    requires TriedTable(k, m, tried) && NewTable(k, m, news)
    requires id in m && !m[id].fInTried && m[id].nRefCount == 0 && id != -1
    ensures TriedTable(k, m - {id}, tried) && NewTable(k, m - {id}, news)
  {
    UnreferencedId(k, m, news, id);
  }

  /** An unreferenced new entry at the end of `vRandom` can be dropped. */
  lemma DeleteKeeps(t: Tables, id: int, zero: set<int>, limbo: set<int>)
    requires Consistent(t, zero, limbo) && id in t.infos && id !in limbo
    requires !t.infos[id].fInTried && t.infos[id].nRefCount == 0
    requires |t.random| > 0 && t.random[|t.random| - 1] == id
    ensures Consistent(Deleted(t, id), zero - {id}, limbo)
  {
    DeleteKeepsIndexes(t, id);
    DeleteKeepsTables(t.k, t.infos, t.tried, t.news, id);
    CountsAfterEdit(t.infos, Deleted(t, id).infos, id, limbo, limbo, t.nTried, t.nNew);
  }

  /** The new table and the entry after clearing a slot of `id` and dropping one reference. */
  ghost function Unlinked(t: Tables, b: nat, p: nat, id: int): Tables
    requires b < |t.news| && p < |t.news[b]| && id in t.infos
  {
    WithInfo(t, id, t.infos[id].(nRefCount := t.infos[id].nRefCount - 1)).(news := Put(t.news, b, p, -1))
  }

  lemma UnlinkKeepsNewTable(k: Placement, m: Infos, t: Table, b: nat, p: nat, id: int)
    requires NewTable(k, m, t) && b < NEW_BUCKET_COUNT && p < BUCKET_SIZE && t[b][p] == id && id in m && -1 !in m
    ensures m[id].nRefCount > 0
    ensures NewTable(k, m[id := m[id].(nRefCount := m[id].nRefCount - 1)], Put(t, b, p, -1))
  {
    var m' := m[id := m[id].(nRefCount := m[id].nRefCount - 1)];
    forall x <- m ensures m'[x].nRefCount == |Buckets(k, Put(t, b, p, -1), m[x].service, x)| {
      BucketsAfterWrite(k, t, b, p, -1, m[x].service, x);
    }
    BucketsAfterWrite(k, t, b, p, -1, m[id].service, id);
  }

  lemma UnlinkKeepsRefBounds(m: Infos, id: int, zero: set<int>, limbo: set<int>)
    requires RefBounds(m, zero, limbo) && id in m && m[id].nRefCount > 0
    ensures !m[id].fInTried && id !in limbo
    ensures RefBounds(m[id := m[id].(nRefCount := m[id].nRefCount - 1)],
                      if m[id].nRefCount == 1 then zero + {id} else zero, limbo)
  {
  }

  lemma UnlinkKeeps(t: Tables, b: nat, p: nat, id: int, zero: set<int>, limbo: set<int>)
    requires Consistent(t, zero, limbo) && b < NEW_BUCKET_COUNT && p < BUCKET_SIZE && t.news[b][p] == id && id != -1
    ensures id in t.infos && !t.infos[id].fInTried && t.infos[id].nRefCount > 0 && id !in limbo
    ensures Consistent(Unlinked(t, b, p, id), if t.infos[id].nRefCount == 1 then zero + {id} else zero, limbo)
  {
    var m := Unlinked(t, b, p, id).infos;
    UnlinkKeepsNewTable(t.k, t.infos, t.news, b, p, id);
    UnlinkKeepsRefBounds(t.infos, id, zero, limbo);
    EditKeepsIndexes(t, id, m[id]);
    EditKeepsTables(t.k, t.infos, t.tried, t.news, id, m[id]);
    TweakKeepsCounts(t.infos, id, m[id], limbo, t.nTried, t.nNew);
  }

  /** The new table and the entry after filling an empty slot and adding one reference. */
  ghost function Linked(t: Tables, b: nat, p: nat, id: int): Tables
    requires b < |t.news| && p < |t.news[b]| && id in t.infos
  {
    WithInfo(t, id, t.infos[id].(nRefCount := t.infos[id].nRefCount + 1)).(news := Put(t.news, b, p, id))
  }

  lemma LinkKeepsNewTable(k: Placement, m: Infos, t: Table, b: nat, p: nat, id: int)
    requires NewTable(k, m, t) && b < NEW_BUCKET_COUNT && p < BUCKET_SIZE && t[b][p] == -1 && -1 !in m
    requires id in m && p == k.position(true, b, m[id].service)
    ensures NewTable(k, m[id := m[id].(nRefCount := m[id].nRefCount + 1)], Put(t, b, p, id))
  {
    var m' := m[id := m[id].(nRefCount := m[id].nRefCount + 1)];
    forall x <- m ensures m'[x].nRefCount == |Buckets(k, Put(t, b, p, id), m[x].service, x)| {
      BucketsAfterWrite(k, t, b, p, id, m[x].service, x);
    }
  }

  lemma LinkKeeps(t: Tables, b: nat, p: nat, id: int, zero: set<int>, limbo: set<int>)
    requires Consistent(t, zero, limbo) && b < NEW_BUCKET_COUNT && p < BUCKET_SIZE && t.news[b][p] == -1
    requires id in t.infos && !t.infos[id].fInTried && id !in limbo && t.infos[id].nRefCount < NEW_BUCKETS_PER_ADDRESS
    requires p == t.k.position(true, b, t.infos[id].service)
    ensures Consistent(Linked(t, b, p, id), zero - {id}, limbo)
  {
    var m := Linked(t, b, p, id).infos;
    LinkKeepsNewTable(t.k, t.infos, t.news, b, p, id);
    EditKeepsIndexes(t, id, m[id]);
    EditKeepsTables(t.k, t.infos, t.tried, t.news, id, m[id]);
    TweakKeepsCounts(t.infos, id, m[id], limbo, t.nTried, t.nNew);
  }

  /** An unreferenced entry stops, or starts, being counted as new. */
  lemma RecountKeeps(t: Tables, id: int, zero: set<int>, limbo: set<int>)
    requires Consistent(t, zero, limbo) && id in t.infos && !t.infos[id].fInTried && t.infos[id].nRefCount == 0
    ensures id !in limbo ==> Consistent(t.(nNew := t.nNew - 1), zero - {id}, limbo + {id})
    ensures id in limbo ==> Consistent(t.(nNew := t.nNew + 1), zero + {id}, limbo - {id})
  {
    if id in limbo {
      CountsAfterEdit(t.infos, t.infos, id, limbo, limbo - {id}, t.nTried, t.nNew);
    } else {
      CountsAfterEdit(t.infos, t.infos, id, limbo, limbo + {id}, t.nTried, t.nNew);
    }
  }

  /** A tried entry leaves its slot, or an entry in limbo takes its free slot. */
  ghost function Moved(t: Tables, id: int, toTried: bool): Tables
    requires Shaped(t.tried, TRIED_BUCKET_COUNT) && id in t.infos
  {
    var b := t.k.triedBucket(t.infos[id].service);
    var p := t.k.position(false, b, t.infos[id].service);
    WithInfo(t, id, t.infos[id].(fInTried := toTried)).(
    tried := Put(t.tried, b, p, if toTried then id else -1),
    nTried := t.nTried + if toTried then 1 else -1)
  }

  lemma MoveKeepsTriedTable(t: Tables, id: int, toTried: bool)
    requires TriedTable(t.k, t.infos, t.tried) && id in t.infos && -1 !in t.infos
    requires t.infos[id].fInTried != toTried
    requires toTried ==> var b := t.k.triedBucket(t.infos[id].service);
                         t.tried[b][t.k.position(false, b, t.infos[id].service)] == -1
    ensures TriedTable(t.k, Moved(t, id, toTried).infos, Moved(t, id, toTried).tried)
  {
  }

  lemma EvictKeeps(t: Tables, id: int, zero: set<int>, limbo: set<int>)
    requires Consistent(t, zero, limbo) && id in t.infos && t.infos[id].fInTried
    ensures Consistent(Moved(t, id, false), zero, limbo + {id})
  {
    var m := Moved(t, id, false).infos;
    MoveKeepsTriedTable(t, id, false);
    EditKeepsIndexes(t, id, m[id]);
    EditKeepsTables(t.k, t.infos, t.tried, t.news, id, m[id]);
    CountsAfterEdit(t.infos, m, id, limbo, limbo + {id}, t.nTried, t.nNew);
  }

  lemma PromoteKeeps(t: Tables, id: int, zero: set<int>, limbo: set<int>)
    requires Consistent(t, zero, limbo) && id in limbo
    requires var b := t.k.triedBucket(t.infos[id].service);
             t.tried[b][t.k.position(false, b, t.infos[id].service)] == -1
    ensures Consistent(Moved(t, id, true), zero, limbo - {id})
  {
    var m := Moved(t, id, true).infos;
    MoveKeepsTriedTable(t, id, true);
    EditKeepsIndexes(t, id, m[id]);
    EditKeepsTables(t.k, t.infos, t.tried, t.news, id, m[id]);
    CountsAfterEdit(t.infos, m, id, limbo, limbo - {id}, t.nTried, t.nNew);
  }

  /** `m'` is `m` after `id` lost one reference, which deletes it if it was the last. */
  ghost predicate DropsReference(m: Infos, m': Infos, id: int)
    requires id in m
  {
    if m[id].nRefCount == 1 then id !in m'
    else id in m' && m'[id].Facts() == m[id].(nRefCount := m[id].nRefCount - 1).Facts()
  }

  /** The table with every occurrence of `id` in the first `n` buckets cleared. */
  ghost function Without(t: Table, id: int, n: nat): Table {
    seq(|t|, b requires 0 <= b < |t| =>
      if b < n then seq(|t[b]|, p requires 0 <= p < |t[b]| => if t[b][p] == id then -1 else t[b][p]) else t[b])
  }

  /** Clearing the one slot an entry may have in bucket `n` clears all its occurrences there. */
  lemma WithoutStep(k: Placement, m: Infos, t: Table, id: int, n: nat)
    requires NewTable(k, m, t) && id in m && n < NEW_BUCKET_COUNT && id != -1
    ensures var p := k.position(true, n, m[id].service);
            Without(t, id, n + 1) == Without(t, id, n)[n := if t[n][p] == id then t[n][p := -1] else t[n]]
  {
    var p := k.position(true, n, m[id].service);
    assert Without(t, id, n + 1)[n] == if t[n][p] == id then t[n][p := -1] else t[n];
  }

  /** Once it is in no bucket, its reference count is zero. */
  lemma WithoutAll(t0: Tables, t: Tables, id: int)
    requires Consistent(t, {id}, {}) && id in t.infos && Shaped(t0.news, NEW_BUCKET_COUNT)
    requires t.news == Without(t0.news, id, NEW_BUCKET_COUNT)
    ensures t.infos[id].nRefCount == 0
  {
    assert Buckets(t.k, t.news, t.infos[id].service, id) == {};
  }

  lemma WithoutStep'(t: Tables, id: int, n: nat)
    requires Consistent(t, {}, {}) && id in t.infos && n < NEW_BUCKET_COUNT
    ensures id != -1
    ensures var p := t.k.position(true, n, t.infos[id].service);
            Without(t.news, id, n + 1) ==
            Without(t.news, id, n)[n := if t.news[n][p] == id then t.news[n][p := -1] else t.news[n]]
  {
    WithoutStep(t.k, t.infos, t.news, id, n);
  }

  lemma WidenZero(t: Tables, zero: set<int>)
    requires Consistent(t, {}, {})
    ensures Consistent(t, zero, {})
  {
  }

  lemma Shape(t: Tables, zero: set<int>, limbo: set<int>)
    requires Consistent(t, zero, limbo)
    ensures Shaped(t.tried, TRIED_BUCKET_COUNT) && Shaped(t.news, NEW_BUCKET_COUNT) && -1 !in t.infos
  {
  }

  /** What a used tried slot says about its holder. */
  lemma TriedHolder(t: Tables, b: nat, p: nat, zero: set<int>, limbo: set<int>)
    requires Consistent(t, zero, limbo) && b < TRIED_BUCKET_COUNT && p < BUCKET_SIZE && t.tried[b][p] != -1
    ensures var id := t.tried[b][p];
            && id in t.infos && id !in limbo && t.infos[id].fInTried && t.infos[id].nRefCount == 0
            && b == t.k.triedBucket(t.infos[id].service) && p == t.k.position(false, b, t.infos[id].service)
  {
  }

  /** What a used new slot says about its holder. */
  lemma NewHolder(t: Tables, b: nat, p: nat, zero: set<int>, limbo: set<int>)
    requires Consistent(t, zero, limbo) && b < NEW_BUCKET_COUNT && p < BUCKET_SIZE
    ensures var id := t.news[b][p];
            id != -1 ==> id in t.infos && id !in limbo && !t.infos[id].fInTried && t.infos[id].nRefCount > 0
    ensures -1 !in t.infos
  {
    var id := t.news[b][p];
    if id != -1 {
      assert b in Buckets(t.k, t.news, t.infos[id].service, id);
    }
  }

  lemma ReenterKeeps(t: Tables, b: nat, p: nat, id: int, other: int)
    requires Consistent(t, {}, {other, id}) && b < NEW_BUCKET_COUNT && p < BUCKET_SIZE && t.news[b][p] == -1
    requires id in t.infos && id != other && p == t.k.position(true, b, t.infos[id].service)
    ensures t.infos[id].nRefCount == 0
    ensures Consistent(Linked(t, b, p, id).(nNew := t.nNew + 1), {}, {other})
  {
    hide Consistent;
    Shape(t, {}, {other, id});
    LimboFacts(t, id, {}, {other, id});
    RecountKeeps(t, id, {}, {other, id});
    assert {other, id} - {id} == {other} && {} + {id} == {id} && {id} - {id} == {};
    LinkKeeps(t.(nNew := t.nNew + 1), b, p, id, {id}, {other});
    assert Linked(t.(nNew := t.nNew + 1), b, p, id) == Linked(t, b, p, id).(nNew := t.nNew + 1);
  }

  lemma LimboFacts(t: Tables, id: int, zero: set<int>, limbo: set<int>)
    requires Consistent(t, zero, limbo) && id in limbo
    ensures id in t.infos && id != -1 && !t.infos[id].fInTried && t.infos[id].nRefCount == 0
  {
  }

  /**
   `t'` is `t` after the tried entry `id` went back to its own new bucket, up to
   the entries in `others`.
   */
  ghost predicate Evicted(t: Tables, t': Tables, id: int, others: set<int>)
    requires Shaped(t.news, NEW_BUCKET_COUNT)
  {
    && id in t.infos && id in t'.infos
    && var b := t.k.newBucket(t.infos[id].service, t.infos[id].source);
       var p := t.k.position(true, b, t.infos[id].service);
       && t.news[b][p] != id && t'.news == Put(t.news, b, p, id)
       && t'.infos[id].Facts() == t.infos[id].(fInTried := false, nRefCount := 1).Facts()
       && (t.news[b][p] != -1 ==> t.news[b][p] in t.infos && DropsReference(t.infos, t'.infos, t.news[b][p]))
       && SameBut(t.infos, t'.infos, {id, t.news[b][p]} + others)
  }

  /** Clearing the slot, then linking the entry there, is an eviction. */
  lemma ReenterEffect(t: Tables, c: Tables, t': Tables, b: nat, p: nat, id: int)
    requires Shaped(t.news, NEW_BUCKET_COUNT) && b < NEW_BUCKET_COUNT && p < BUCKET_SIZE
    requires id in t.infos && id != -1 && !t.infos[id].fInTried && t.news[b][p] != id
    requires b == t.k.newBucket(t.infos[id].service, t.infos[id].source) && p == t.k.position(true, b, t.infos[id].service)
    requires c.news == Put(t.news, b, p, -1) && SameBut(t.infos, c.infos, {t.news[b][p]})
    requires t.news[b][p] != -1 ==> t.news[b][p] in t.infos && DropsReference(t.infos, c.infos, t.news[b][p])
    requires id in c.infos && t'.infos == c.infos[id := c.infos[id].(nRefCount := 1)] && t'.news == Put(c.news, b, p, id)
    ensures Evicted(t, t', id, {})
  {
    assert t.news[b][p := -1][p := id] == t.news[b][p := id];
  }

  /** `t` after `id` left every new bucket. */
  ghost function Cleared(t: Tables, id: int): Tables
    requires id in t.infos
  {
    WithInfo(t, id, t.infos[id].(nRefCount := 0)).(news := Without(t.news, id, NEW_BUCKET_COUNT))
  }

  /** `t'` is `t` after new entry `id` moved to its tried slot, evicting what was there. */
  ghost predicate MovedToTried(t: Tables, t': Tables, id: int)
    requires id in t.infos && Shaped(t.tried, TRIED_BUCKET_COUNT) && Shaped(t.news, NEW_BUCKET_COUNT)
  {
    var b := t.k.triedBucket(t.infos[id].service);
    var p := t.k.position(false, b, t.infos[id].service);
    && t'.tried == Put(t.tried, b, p, id)
    && id in t'.infos && t'.infos[id].Facts() == t.infos[id].(fInTried := true, nRefCount := 0).Facts()
    && if t.tried[b][p] == -1 then t'.news == Cleared(t, id).news && SameBut(t.infos, t'.infos, {id})
       else Evicted(Cleared(t, id), t', t.tried[b][p], {id})
  }

  /** `MakeTried` with a free tried slot. */
  lemma MovedToFreeSlot(t: Tables, c: Tables, t': Tables, id: int)
    requires id in t.infos && id != -1 && Shaped(t.tried, TRIED_BUCKET_COUNT) && Shaped(t.news, NEW_BUCKET_COUNT)
    requires c.infos == Cleared(t, id).infos && c.news == Cleared(t, id).news
    requires var b := t.k.triedBucket(t.infos[id].service);
             var p := t.k.position(false, b, t.infos[id].service);
             t.tried[b][p] == -1 && t'.tried == Put(t.tried, b, p, id)
    requires t'.news == c.news && t'.infos == c.infos[id := c.infos[id].(fInTried := true)]
    ensures MovedToTried(t, t', id)
  {
  }

  /** `MakeTried` with an occupied tried slot, put together from its parts. */
  lemma MovedWithEviction(t: Tables, c: Tables, d: Tables, e: Tables, t': Tables, id: int, evicted: int)
    requires id in t.infos && id != -1 && !t.infos[id].fInTried
    requires Shaped(t.tried, TRIED_BUCKET_COUNT) && Shaped(t.news, NEW_BUCKET_COUNT)
    requires c.infos == Cleared(t, id).infos && c.news == Cleared(t, id).news && c.k == d.k == t.k && c.tried == t.tried
    requires var b := t.k.triedBucket(t.infos[id].service);
             var p := t.k.position(false, b, t.infos[id].service);
             && evicted == t.tried[b][p] && evicted != -1 && evicted != id && evicted in c.infos
             && d.news == c.news && d.infos == c.infos[evicted := c.infos[evicted].(fInTried := false)]
             && e.tried == Put(t.tried, b, p, -1) && t'.tried == Put(e.tried, b, p, id)
    requires Evicted(d, e, evicted, {}) && id in e.infos
    requires t'.news == e.news && t'.infos == e.infos[id := e.infos[id].(fInTried := true)]
    ensures MovedToTried(t, t', id)
  {
    var was := t.infos[evicted];
    var b := t.k.newBucket(was.service, was.source);
    var p := t.k.position(true, b, was.service);
    var displaced := c.news[b][p];
    assert displaced != id;
    assert SameBut(d.infos, e.infos, {evicted, displaced} + {});
    assert e.infos[id].Facts() == d.infos[id].Facts();
    var tb := t.k.triedBucket(t.infos[id].service);
    var tp := t.k.position(false, tb, t.infos[id].service);
    assert t.tried[tb][tp := -1][tp := id] == t.tried[tb][tp := id];
  }

  /** An entry with the statistics of a successful connection. */
  function Stamped(info: AddrInfo, nTime: int): AddrInfo {
    info.(nLastSuccess := nTime, nLastTry := nTime, nAttempts := 0)
  }

  lemma StampKeepsTimes(m: Infos, id: int, nTime: int)
    requires id in m
    ensures nTime > 0 && Times(m) ==> Times(m[id := Stamped(m[id], nTime)])
  {
  }

  lemma EditKeepsTimes(m: Infos, id: int, info: AddrInfo)
    requires id in m && info.nLastSuccess == m[id].nLastSuccess && info.fInTried == m[id].fInTried
    ensures Times(m) && (info.nLastTry == m[id].nLastTry || info.nLastTry >= 0) ==> Times(m[id := info])
  {
  }

  lemma CreateKeepsTimes(t: Tables, info: AddrInfo)
    requires info.nLastTry == 0 && info.nLastSuccess == 0 && !info.fInTried
    ensures Times(t.infos) ==> Times(Created(t, info).infos)
  {
  }

  lemma SameTimes(m: Infos, m': Infos)
    requires SameBut(m, m', {}) && Times(m)
    ensures Times(m')
  {
  }

  /** Every entry of `m'` has the times of the same entry of `m`, and only `id` can be newly tried. */
  ghost predicate TimesFrom(m: Infos, m': Infos, id: int) {
    forall x <- m' ::
      && x in m && m'[x].nLastTry == m[x].nLastTry && m'[x].nLastSuccess == m[x].nLastSuccess
      && (m'[x].fInTried ==> m[x].fInTried || x == id)
  }

  /** Moving an entry to the tried table invents no times. */
  lemma MoveKeepsTimes(t: Tables, t': Tables, id: int)
    requires Consistent(t, {}, {}) && Consistent(t', {}, {}) && id in t.infos && MovedToTried(t, t', id)
    requires Times(t.infos) && t.infos[id].nLastSuccess != 0
    ensures Times(t'.infos)
  {
    hide Consistent;
    var b := t.k.triedBucket(t.infos[id].service);
    var p := t.k.position(false, b, t.infos[id].service);
    var c := Cleared(t, id);
    Shape(t, {}, {});
    Shape(t', {}, {});
    if t.tried[b][p] != -1 {
      TriedHolder(t, b, p, {}, {});
    }
    assert TimesFrom(c.infos, t'.infos, id);
  }

  /** The refresh of a known entry by an announcement: a newer time and more services. */
  function Refreshed(info: AddrInfo, addr: Address, nTimePenalty: int, nNow: int): AddrInfo {
    var interval := if nNow - addr.nTime < 24 * 60 * 60 then 60 * 60 else 24 * 60 * 60;
    var nTime :=
      if addr.nTime != 0 && (info.nTime == 0 || info.nTime < addr.nTime - interval - nTimePenalty)
      then Penalised(addr.nTime, nTimePenalty) else info.nTime;
    info.(nTime := nTime, nServices := info.nServices + addr.nServices)
  }

  /** `max(0, nTime - penalty)` stored in a 32-bit unsigned field. */
  function Penalised(nTime: int, nTimePenalty: int): int {
    (if nTime - nTimePenalty > 0 then nTime - nTimePenalty else 0) % UINT32
  }

  /** A refreshed entry may get another reference. */
  predicate MayGainReference(info: AddrInfo, addr: Address) {
    && addr.nTime != 0 && (info.nTime == 0 || addr.nTime > info.nTime)
    && !info.fInTried && info.nRefCount != NEW_BUCKETS_PER_ADDRESS
  }

  /** The entry in the slot gives way to entry `id`. */
  ghost predicate GivesWay(m: Infos, holder: int, id: int, nNow: int)
    requires holder in m && id in m
  {
    m[holder].IsTerrible(nNow) || (m[holder].nRefCount > 1 && m[id].nRefCount == 0)
  }

  /**
   `t'` is `t` after entry `id` was offered the slot of new bucket `b`: it takes a
   free slot or one whose holder gives way, and is dropped if it ends up with no
   reference at all.
   */
  ghost predicate Offered(t: Tables, t': Tables, id: int, b: NewBucketNo, nNow: int)
    requires id in t.infos && Shaped(t.news, NEW_BUCKET_COUNT)
  {
    var p := t.k.position(true, b, t.infos[id].service);
    var holder := t.news[b][p];
    && t'.tried == t.tried
    && if holder == id then t' == t
       else if holder == -1 || (holder in t.infos && GivesWay(t.infos, holder, id, nNow)) then
         && id in t'.infos && t'.news == Put(t.news, b, p, id)
         && t'.infos[id].Facts() == t.infos[id].(nRefCount := t.infos[id].nRefCount + 1).Facts()
         && (holder != -1 ==> DropsReference(t.infos, t'.infos, holder))
         && SameBut(t.infos, t'.infos, {id, holder})
       else if t.infos[id].nRefCount == 0 then
         t'.news == t.news && id !in t'.infos && SameBut(t.infos, t'.infos, {id})
       else t' == t
  }

  lemma OfferTaken(t: Tables, c: Tables, t': Tables, id: int, b: NewBucketNo, nNow: int)
    requires id in t.infos && id != -1 && Shaped(t.news, NEW_BUCKET_COUNT)
    requires var p := t.k.position(true, b, t.infos[id].service);
             var holder := t.news[b][p];
             && holder != id && (holder == -1 || (holder in t.infos && GivesWay(t.infos, holder, id, nNow)))
             && c.news == Put(t.news, b, p, -1) && SameBut(t.infos, c.infos, {holder})
             && (holder != -1 ==> DropsReference(t.infos, c.infos, holder))
             && id in c.infos && t'.infos == c.infos[id := c.infos[id].(nRefCount := c.infos[id].nRefCount + 1)]
             && t'.news == Put(c.news, b, p, id) && t'.tried == t.tried
    ensures Offered(t, t', id, b, nNow)
  {
    var p := t.k.position(true, b, t.infos[id].service);
    assert t.news[b][p := -1][p := id] == t.news[b][p := id];
  }

  lemma OfferDeclined(t: Tables, t': Tables, id: int, b: NewBucketNo, nNow: int)
    requires id in t.infos && id != -1 && Shaped(t.news, NEW_BUCKET_COUNT)
    requires var p := t.k.position(true, b, t.infos[id].service);
             var holder := t.news[b][p];
             && (holder != id ==> holder != -1 && holder in t.infos && !GivesWay(t.infos, holder, id, nNow))
             && if holder != id && t.infos[id].nRefCount == 0 then
                  t'.news == t.news && t'.tried == t.tried && id !in t'.infos && SameBut(t.infos, t'.infos, {id})
                else t' == t
    ensures Offered(t, t', id, b, nNow)
  {
  }

  lemma OfferKeepsTimes(t: Tables, t': Tables, id: int, b: NewBucketNo, nNow: int)
    requires id in t.infos && Shaped(t.news, NEW_BUCKET_COUNT) && -1 !in t'.infos
    requires Offered(t, t', id, b, nNow) && Times(t.infos)
    ensures Times(t'.infos)
  {
    assert TimesFrom(t.infos, t'.infos, -1);
  }

  /** `t'` is `t` after an announcement of `addr` by `source`. */
  ghost predicate Announced(env: Env, t: Tables, t': Tables, addr: Address, source: NetAddr, nTimePenalty: int, nNow: int)
    requires Consistent(t, {}, {})
  {
    // peers that announce themselves are not penalised
    var penalty := if addr.service.addr == source then 0 else nTimePenalty;
    if !env.isRoutable(addr.service.addr) then t' == t
    else if addr.service.addr in t.addrs then
      var id := t.addrs[addr.service.addr];
      var info := Refreshed(t.infos[id], addr, penalty, nNow);
      var t1 := WithInfo(t, id, info);
      // whether a permitted reference is added is a matter of chance
      t' == t1 || (MayGainReference(info, addr) && Offered(t1, t', id, t.k.newBucket(info.service, source), nNow))
    else
      var info := NewInfo(addr, source).(nTime := Penalised(addr.nTime, penalty));
      var t1 := Created(t, info).(nNew := t.nNew + 1);
      Offered(t1, t', t.nIdCount, t.k.newBucket(addr.service, source), nNow)
  }

  /** Creating an entry and counting it as new. */
  lemma CreateCountedKeeps(t: Tables, info: AddrInfo)
    requires Consistent(t, {}, {}) && info.service.addr !in t.addrs
    requires !info.fInTried && info.nRefCount == 0
    ensures Consistent(Created(t, info).(nNew := t.nNew + 1), {t.nIdCount}, {})
  {
    hide Consistent;
    CreateKeeps(t, info);
    RecountKeeps(Created(t, info), t.nIdCount, {}, {t.nIdCount});
    assert {} + {t.nIdCount} == {t.nIdCount} && {t.nIdCount} - {t.nIdCount} == {};
  }

  lemma EntryFacts(t: Tables, id: int)
    requires Consistent(t, {}, {}) && id in t.infos
    ensures t.infos[id].nRefCount <= NEW_BUCKETS_PER_ADDRESS
    ensures !t.infos[id].fInTried ==> t.infos[id].nRefCount > 0
  {
  }

  lemma RandomOrder(t: Tables)
    requires Consistent(t, {}, {})
    ensures RandomIndex(t.infos, t.random)
  {
  }

  /**
   `ids` are distinct entries among the first `n` of the random order, `vAddr` their
   addresses, and only terrible entries among the first `n` are missing.
   */
  ghost predicate Gathered(m: Infos, n: int, ids: seq<int>, vAddr: seq<Address>, nNow: int) {
    && |vAddr| == |ids|
    && (forall i :: 0 <= i < |ids| ==>
                      && ids[i] in m && m[ids[i]].nRandomPos < n
                      && !m[ids[i]].IsTerrible(nNow) && vAddr[i] == m[ids[i]].ToAddress())
    && (forall i, j :: 0 <= i < j < |ids| ==> ids[i] != ids[j])
    && (forall id <- m :: m[id].nRandomPos < n ==> m[id].IsTerrible(nNow) || id in ids)
  }

  lemma GatherStart(m: Infos, v: seq<int>, nNow: int)
    requires RandomIndex(m, v)
    ensures Gathered(m, 0, [], [], nNow)
  {
  }

  /** Swapping positions at or after `n` does not disturb what was gathered. */
  lemma GatherSwap(m: Infos, v: seq<int>, m': Infos, v': seq<int>, n: nat, ids: seq<int>, vAddr: seq<Address>, nNow: int)
    requires RandomIndex(m, v) && RandomIndex(m', v') && SameBut(m, m', {}) && n <= |v| == |v'|
    requires forall k :: 0 <= k < n ==> v'[k] == v[k]
    requires Gathered(m, n, ids, vAddr, nNow)
    ensures Gathered(m', n, ids, vAddr, nNow)
  {
    forall id <- m ensures id in m' && m'[id].Facts() == m[id].Facts() && (m[id].nRandomPos < n <==> m'[id].nRandomPos < n) {
    }
  }

  lemma GatherStep(m: Infos, v: seq<int>, n: nat, ids: seq<int>, vAddr: seq<Address>, nNow: int)
    requires RandomIndex(m, v) && n < |v| && Gathered(m, n, ids, vAddr, nNow)
    ensures v[n] in m
    ensures if m[v[n]].IsTerrible(nNow) then Gathered(m, n + 1, ids, vAddr, nNow)
            else Gathered(m, n + 1, ids + [v[n]], vAddr + [m[v[n]].ToAddress()], nNow)
  {
    hide AddrInfo.IsTerrible;
    if !m[v[n]].IsTerrible(nNow) {
      var ids' := ids + [v[n]];
      assert v[n] in ids' && forall id <- ids :: id in ids';
    }
  }

  lemma GatherEnd(t: Tables, n: nat, ids: seq<int>, vAddr: seq<Address>, nNow: int)
    requires Consistent(t, {}, {}) && Gathered(t.infos, n, ids, vAddr, nNow) && n <= |t.random|
    ensures forall i, j :: 0 <= i < j < |vAddr| ==> vAddr[i].service.addr != vAddr[j].service.addr
    ensures forall a <- vAddr :: exists id :: id in t.infos && !t.infos[id].IsTerrible(nNow) && a == t.infos[id].ToAddress()
    ensures n == |t.random| ==> forall id <- t.infos :: !t.infos[id].IsTerrible(nNow) ==> t.infos[id].ToAddress() in vAddr
  {
    hide AddrInfo.IsTerrible;
    forall a <- vAddr ensures exists id :: id in t.infos && !t.infos[id].IsTerrible(nNow) && a == t.infos[id].ToAddress() {
      var i :| 0 <= i < |vAddr| && vAddr[i] == a;
      assert ids[i] in t.infos;
    }
    if n == |t.random| {
      forall id <- t.infos | !t.infos[id].IsTerrible(nNow) ensures t.infos[id].ToAddress() in vAddr {
        var i :| 0 <= i < |ids| && ids[i] == id;
        assert vAddr[i] == t.infos[id].ToAddress();
      }
    }
  }

  // ------------------------------------------------------------ what `Check_` tests

  /** The tests of `Check_` on one entry that come before its address is looked up. */
  predicate RefsChecked(info: AddrInfo) {
    if info.fInTried then info.nLastSuccess != 0 && info.nRefCount == 0
    else 0 < info.nRefCount <= NEW_BUCKETS_PER_ADDRESS
  }

  /** The tests of `Check_` on one entry. */
  ghost predicate EntryChecked(t: Tables, id: int)
    requires id in t.infos
  {
    var info := t.infos[id];
    && RefsChecked(info)
    && info.service.addr in t.addrs && t.addrs[info.service.addr] == id
    && 0 <= info.nRandomPos < |t.random| && t.random[info.nRandomPos] == id
    && info.nLastTry >= 0 && info.nLastSuccess >= 0
  }

  ghost predicate Unindexed(t: Tables, id: int) {
    id in t.infos && t.infos[id].service.addr !in t.addrs
  }

  /**
   The state as `Check_` sees it.  Looking up an address that is not indexed
   stores zero for it, which is the right answer for entry 0 and a wrong one
   for every other entry.
   */
  ghost function Looked(t: Tables): Tables {
    if Unindexed(t, 0) then t.(addrs := t.addrs[t.infos[0].service.addr := 0]) else t
  }

  /** The address of `id` is looked up: its references are right and every earlier entry passes. */
  ghost predicate LookedUp(t: Tables, id: int) {
    id in t.infos && RefsChecked(t.infos[id]) && forall e <- t.infos :: e < id ==> EntryChecked(Looked(t), e)
  }

  /** The addresses for which a look-up stores zero. */
  ghost function Missed(t: Tables): set<NetAddr> {
    set id | id in t.infos && LookedUp(t, id) && Unindexed(t, id) :: t.infos[id].service.addr
  }

  ghost function WithZeros(addrs: map<NetAddr, int>, missed: set<NetAddr>): map<NetAddr, int> {
    addrs + map a | a in missed :: 0
  }

  /** In a consistent state `Check_` changes nothing. */
  lemma NothingMissed(t: Tables)
    requires Consistent(t, {}, {})
    ensures Missed(t) == {} && Looked(t) == t && WithZeros(t.addrs, {}) == t.addrs
  {
  }

  /** `Check_` changes `mapAddr` exactly if it looks up an address that is not indexed. */
  lemma ChangesIffMissed(t: Tables)
    ensures WithZeros(t.addrs, Missed(t)) != t.addrs <==> exists id :: LookedUp(t, id) && Unindexed(t, id)
  {
    if id :| LookedUp(t, id) && Unindexed(t, id) {
      var a := t.infos[id].service.addr;
      assert a in Missed(t);
      assert a in WithZeros(t.addrs, Missed(t)) && a !in t.addrs;
    } else {
      assert Missed(t) == {};
    }
  }

  /** `mapAddr` once the entries before `n` have passed. */
  ghost function AddrsBefore(t: Tables, n: int): map<NetAddr, int> {
    if 0 < n then Looked(t).addrs else t.addrs
  }

  /** What is stored by the time entry `n` fails. */
  lemma MissedUntil(t: Tables, n: int)
    requires n in t.infos && !EntryChecked(Looked(t), n)
    requires forall e <- t.infos :: e < n ==> EntryChecked(Looked(t), e)
    ensures var a := t.infos[n].service.addr;
            WithZeros(t.addrs, Missed(t)) ==
            if RefsChecked(t.infos[n]) && a !in AddrsBefore(t, n) then AddrsBefore(t, n)[a := 0] else AddrsBefore(t, n)
    ensures !EntriesChecked(Looked(t))
  {
    hide EntryChecked;
    var a := t.infos[n].service.addr;
    forall id <- t.infos | LookedUp(t, id) && Unindexed(t, id) ensures id == n || (id == 0 && 0 < n) {
      if id < n {
        PassingIsFound(t, id);
      }
    }
    var zero := if 0 < n && Unindexed(t, 0) then {t.infos[0].service.addr} else {};
    var own := if RefsChecked(t.infos[n]) && Unindexed(t, n) then {a} else {};
    if 0 < n && Unindexed(t, 0) {
      PassingIsFound(t, 0);
      assert LookedUp(t, 0);
    }
    MissedAre(t, zero + own, n);
  }

  lemma MissedAre(t: Tables, missed: set<NetAddr>, n: int)
    requires n in t.infos && (RefsChecked(t.infos[n]) && Unindexed(t, n) ==> LookedUp(t, n) && t.infos[n].service.addr in missed)
    requires 0 < n && Unindexed(t, 0) ==> LookedUp(t, 0) && t.infos[0].service.addr in missed
    requires forall id <- t.infos :: LookedUp(t, id) && Unindexed(t, id) ==> id == n || (id == 0 && 0 < n)
    requires forall a <- missed ::
               || (RefsChecked(t.infos[n]) && Unindexed(t, n) && a == t.infos[n].service.addr)
               || (0 < n && Unindexed(t, 0) && a == t.infos[0].service.addr)
    ensures Missed(t) == missed
  {
    hide EntryChecked, Looked;
  }

  /** A passing entry is found, except that entry 0 may get indexed on the way. */
  lemma PassingIsFound(t: Tables, n: int)
    requires n in t.infos && EntryChecked(Looked(t), n)
    ensures RefsChecked(t.infos[n]) && !Unindexed(Looked(t), n) && (Unindexed(t, n) ==> n == 0)
  {
  }

  /** The entries before those in `todo` have passed, leaving the state `u`, and are collected in the two sets. */
  ghost predicate Passed(t: Tables, todo: set<int>, u: Tables, tried: set<int>, news: map<int, int>) {
    && todo <= t.infos.Keys
    && (forall id <- t.infos :: id !in todo ==> EntryChecked(Looked(t), id) && forall e <- todo :: id < e)
    && tried == TriedIds(t.infos - todo) && news == RefCounts(t.infos - todo)
    && u == t.(addrs := if 0 in todo then t.addrs else Looked(t).addrs)
  }

  lemma NonePassed(t: Tables)
    ensures Passed(t, t.infos.Keys, t, {}, map[])
  {
    hide EntryChecked;
    assert t.infos - t.infos.Keys == map[];
  }

  lemma PassedFacts(t: Tables, todo: set<int>, u: Tables, tried: set<int>, news: map<int, int>, n: int)
    requires Passed(t, todo, u, tried, news) && n in todo && forall e <- todo :: n <= e
    ensures u.infos == t.infos && Looked(u) == Looked(t) && u.addrs == AddrsBefore(t, n)
    ensures forall e <- t.infos :: e < n ==> EntryChecked(Looked(t), e)
  {
    hide EntryChecked;
  }

  lemma PassOne(t: Tables, todo: set<int>, u: Tables, u': Tables, tried: set<int>, news: map<int, int>, n: int)
    requires Passed(t, todo, u, tried, news) && n in todo && (forall e <- todo :: n <= e) && EntryChecked(Looked(t), n)
    requires u' == u.(addrs := if RefsChecked(u.infos[n]) && Unindexed(u, n) then u.addrs[u.infos[n].service.addr := 0] else u.addrs)
    ensures var info := t.infos[n];
            if info.fInTried then Passed(t, todo - {n}, u', tried + {n}, news)
            else Passed(t, todo - {n}, u', tried, news[n := info.nRefCount])
  {
    hide EntryChecked, TriedIds, RefCounts;
    PassingIsFound(t, n);
    CollectOne(t.infos, todo, n);
  }

  lemma CollectOne(m: Infos, todo: set<int>, n: int)
    requires n in todo && todo <= m.Keys
    ensures TriedIds(m - (todo - {n})) == TriedIds(m - todo) + if m[n].fInTried then {n} else {}
    ensures RefCounts(m - (todo - {n})) == if m[n].fInTried then RefCounts(m - todo) else RefCounts(m - todo)[n := m[n].nRefCount]
  {
    assert m - (todo - {n}) == (m - todo)[n := m[n]];
  }

  lemma AllPassed(t: Tables, u: Tables, tried: set<int>, news: map<int, int>)
    requires Passed(t, {}, u, tried, news)
    ensures EntriesChecked(Looked(t)) && u == t.(addrs := WithZeros(t.addrs, Missed(t)))
    ensures tried == TriedIds(t.infos) && news == RefCounts(t.infos)
  {
    hide EntryChecked;
    MissedInAll(t);
    assert t.infos - {} == t.infos;
  }

  /** What is stored when every entry passes. */
  lemma MissedInAll(t: Tables)
    requires EntriesChecked(Looked(t))
    ensures WithZeros(t.addrs, Missed(t)) == Looked(t).addrs
  {
    forall id <- t.infos | Unindexed(t, id) ensures id == 0 {
      assert EntryChecked(Looked(t), id);
    }
    if Unindexed(t, 0) {
      assert EntryChecked(Looked(t), 0);
      assert LookedUp(t, 0);
      assert Missed(t) == {t.infos[0].service.addr};
    }
  }

  ghost predicate EntriesChecked(t: Tables) {
    forall id <- t.infos :: EntryChecked(t, id)
  }

  ghost function RefCounts(m: Infos): map<int, int> {
    map id | id in m && !m[id].fInTried :: m[id].nRefCount
  }

  /** Slot `(b, p)` comes before slot `(n, i)` in table order. */
  ghost predicate Before(b: int, p: int, n: int, i: int) {
    b < n || (b == n && p < i)
  }

  ghost predicate Checked(t: Tables, nKey: nat) {
    && |t.random| == t.nTried + t.nNew
    && EntriesChecked(t)
    && Counts(t.infos, t.nTried, t.nNew, {})
    && TriedTable(t.k, t.infos, t.tried)
    && NewTable(t.k, t.infos, t.news)
    && nKey != 0
  }

  lemma EntriesHaveRefs(t: Tables)
    requires EntriesChecked(t)
    ensures forall id <- t.infos :: if t.infos[id].fInTried then t.infos[id].nRefCount == 0 else t.infos[id].nRefCount > 0
  {
    forall id <- t.infos ensures if t.infos[id].fInTried then t.infos[id].nRefCount == 0 else t.infos[id].nRefCount > 0 {
      assert EntryChecked(t, id);
    }
  }

  lemma SameSize(m: Infos)
    ensures |RefCounts(m)| == |NewIds(m, {})|
  {
    assert RefCounts(m).Keys == NewIds(m, {});
  }

  /** The slot is empty or rightly held by a tried entry. */
  ghost predicate TriedSlotOk(k: Placement, m: Infos, t: Table, b: nat, p: nat)
    requires b < |t| && p < |t[b]|
  {
    t[b][p] != -1 ==>
      && t[b][p] in m && m[t[b][p]].fInTried
      && b == k.triedBucket(m[t[b][p]].service) && p == k.position(false, b, m[t[b][p]].service)
  }

  /** The tried ids whose own slot, before `(n, i)`, does not hold them or which lie later. */
  ghost function Unseen(k: Placement, m: Infos, t: Table, n: nat, i: nat): set<int>
    requires Shaped(t, TRIED_BUCKET_COUNT)
  {
    set id | id in m && m[id].fInTried &&
             var b := k.triedBucket(m[id].service);
             var p := k.position(false, b, m[id].service);
             !(Before(b, p, n, i) && t[b][p] == id)
  }

  lemma UnseenStep(k: Placement, m: Infos, t: Table, n: nat, i: nat)
    requires Shaped(t, TRIED_BUCKET_COUNT) && n < TRIED_BUCKET_COUNT && i < BUCKET_SIZE && -1 !in m
    ensures TriedSlotOk(k, m, t, n, i) && t[n][i] != -1 ==> t[n][i] in Unseen(k, m, t, n, i)
    ensures TriedSlotOk(k, m, t, n, i) ==> Unseen(k, m, t, n, i + 1) == Unseen(k, m, t, n, i) - {t[n][i]}
    ensures -1 !in Unseen(k, m, t, n, i)
  {
    var seen, seen' := Unseen(k, m, t, n, i), Unseen(k, m, t, n, i + 1);
    if TriedSlotOk(k, m, t, n, i) {
      forall id ensures id in seen' <==> id in seen && id != t[n][i] {
      }
    }
  }

  lemma UnseenRow(k: Placement, m: Infos, t: Table, n: nat)
    requires Shaped(t, TRIED_BUCKET_COUNT)
    ensures Unseen(k, m, t, n, BUCKET_SIZE) == Unseen(k, m, t, n + 1, 0)
    ensures Unseen(k, m, t, 0, 0) == TriedIds(m)
  {
  }

  lemma BadTriedSlot(k: Placement, m: Infos, t: Table, b: nat, p: nat)
    requires Shaped(t, TRIED_BUCKET_COUNT) && b < TRIED_BUCKET_COUNT && p < BUCKET_SIZE && !TriedSlotOk(k, m, t, b, p)
    ensures !TriedTable(k, m, t)
  {
  }

  lemma UnseenIsTried(k: Placement, m: Infos, t: Table, n: nat, i: nat)
    requires Shaped(t, TRIED_BUCKET_COUNT)
    ensures forall id <- Unseen(k, m, t, n, i) :: id in m && m[id].fInTried
  {
  }

  /** All slots are right and all tried ids seen exactly if the tried table is right. */
  lemma AllSeen(k: Placement, m: Infos, t: Table)
    requires Shaped(t, TRIED_BUCKET_COUNT)
    requires forall b, p :: 0 <= b < |t| && 0 <= p < |t[b]| ==> TriedSlotOk(k, m, t, b, p)
    ensures Unseen(k, m, t, TRIED_BUCKET_COUNT, 0) == {} <==> TriedTable(k, m, t)
  {
    var unseen := Unseen(k, m, t, TRIED_BUCKET_COUNT, 0);
    if unseen == {} {
      forall id <- m | m[id].fInTried ensures var b := k.triedBucket(m[id].service); t[b][k.position(false, b, m[id].service)] == id {
        assert id !in unseen;
      }
      forall b, p | 0 <= b < |t| && 0 <= p < |t[b]| && t[b][p] != -1
        ensures t[b][p] in m && m[t[b][p]].fInTried && b == k.triedBucket(m[t[b][p]].service) && p == k.position(false, b, m[t[b][p]].service)
      {
        assert TriedSlotOk(k, m, t, b, p);
      }
    } else if TriedTable(k, m, t) {
      assert forall id <- m :: m[id].fInTried ==> id !in unseen;
    }
  }

  /** The new buckets holding `id` in a slot before `(n, i)`. */
  ghost function SeenBuckets(k: Placement, t: Table, s: Service, id: int, n: nat, i: nat): set<NewBucketNo>
    requires Shaped(t, NEW_BUCKET_COUNT)
  {
    set b: NewBucketNo | Before(b, k.position(true, b, s), n, i) && t[b][k.position(true, b, s)] == id
  }

  /** No entry has more references before `(n, i)` than its reference count. */
  ghost predicate WithinCounts(k: Placement, m: Infos, t: Table, n: nat, i: nat)
    requires Shaped(t, NEW_BUCKET_COUNT)
  {
    forall id <- m :: |SeenBuckets(k, t, m[id].service, id, n, i)| <= m[id].nRefCount
  }

  /** The references still to be found from slot `(n, i)` on. */
  ghost function Remaining(k: Placement, m: Infos, t: Table, n: nat, i: nat): map<int, int>
    requires Shaped(t, NEW_BUCKET_COUNT)
  {
    map id | id in m && !m[id].fInTried && m[id].nRefCount != |SeenBuckets(k, t, m[id].service, id, n, i)| ::
      m[id].nRefCount - |SeenBuckets(k, t, m[id].service, id, n, i)|
  }

  lemma SeenStep(k: Placement, t: Table, s: Service, id: int, n: nat, i: nat)
    requires Shaped(t, NEW_BUCKET_COUNT) && n < NEW_BUCKET_COUNT && i < BUCKET_SIZE
    ensures var seen, seen' := SeenBuckets(k, t, s, id, n, i), SeenBuckets(k, t, s, id, n, i + 1);
            if i == k.position(true, n, s) && t[n][i] == id then n !in seen && seen' == seen + {n} && |seen'| == |seen| + 1
            else seen' == seen
  {
    var seen, seen' := SeenBuckets(k, t, s, id, n, i), SeenBuckets(k, t, s, id, n, i + 1);
    if i == k.position(true, n, s) && t[n][i] == id {
      assert seen' == seen + {n};
    } else {
      assert seen' == seen;
    }
  }

  lemma SeenIsHeld(k: Placement, t: Table, s: Service, id: int, n: nat, i: nat)
    requires Shaped(t, NEW_BUCKET_COUNT)
    ensures |SeenBuckets(k, t, s, id, n, i)| <= |Buckets(k, t, s, id)|
    ensures n == NEW_BUCKET_COUNT ==> SeenBuckets(k, t, s, id, n, i) == Buckets(k, t, s, id)
    ensures SeenBuckets(k, t, s, id, 0, 0) == {}
    ensures SeenBuckets(k, t, s, id, n, BUCKET_SIZE) == SeenBuckets(k, t, s, id, n + 1, 0)
  {
    var seen, all := SeenBuckets(k, t, s, id, n, i), Buckets(k, t, s, id);
    assert seen <= all;
    SubsetSize(seen, all);
  }

  lemma SubsetSize(a: set<NewBucketNo>, b: set<NewBucketNo>)
    requires a <= b
    ensures |a| <= |b|
  {
    assert b == a + (b - a);
  }

  /** Finding one more reference of `id` lowers what remains for it alone. */
  lemma RemainingStep(k: Placement, m: Infos, t: Table, n: nat, i: nat)
    requires Shaped(t, NEW_BUCKET_COUNT) && n < NEW_BUCKET_COUNT && i < BUCKET_SIZE && -1 !in m
    requires WithinCounts(k, m, t, n, i)
    requires var id := t[n][i];
             id != -1 ==> id in Remaining(k, m, t, n, i) && i == k.position(true, n, m[id].service)
    ensures WithinCounts(k, m, t, n, i + 1)
    ensures var id, left := t[n][i], Remaining(k, m, t, n, i);
            Remaining(k, m, t, n, i + 1) ==
            if id == -1 then left else if left[id] == 1 then left - {id} else left[id := left[id] - 1]
  {
    hide SeenBuckets;
    var id, left, left' := t[n][i], Remaining(k, m, t, n, i), Remaining(k, m, t, n, i + 1);
    forall x <- m
      ensures |SeenBuckets(k, t, m[x].service, x, n, i + 1)| ==
              |SeenBuckets(k, t, m[x].service, x, n, i)| + if x == id then 1 else 0
    {
      SeenStep(k, t, m[x].service, x, n, i);
    }
    assert id != -1 && left[id] == 1 ==> id !in left';
    assert forall x :: x != id ==> (x in left <==> x in left') && (x in left ==> left'[x] == left[x]);
    assert id != -1 && left[id] != 1 ==> id in left' && left'[id] == left[id] - 1;
  }

  /** A slot whose holder has nothing remaining, or does not belong there, breaks the new table. */
  lemma BadNewSlot(k: Placement, m: Infos, t: Table, n: nat, i: nat)
    requires Shaped(t, NEW_BUCKET_COUNT) && n < NEW_BUCKET_COUNT && i < BUCKET_SIZE && t[n][i] != -1
    requires WithinCounts(k, m, t, n, i) && forall id <- m :: m[id].fInTried ==> m[id].nRefCount == 0
    requires t[n][i] in Remaining(k, m, t, n, i) ==> i != k.position(true, n, m[t[n][i]].service)
    ensures !NewTable(k, m, t)
  {
    var id := t[n][i];
    if NewTable(k, m, t) {
      SeenStep(k, t, m[id].service, id, n, i);
      SeenIsHeld(k, t, m[id].service, id, n, i);
      SeenIsHeld(k, t, m[id].service, id, n, i + 1);
    }
  }

  lemma RemainingIsNew(k: Placement, m: Infos, t: Table, n: nat, i: nat)
    requires Shaped(t, NEW_BUCKET_COUNT)
    ensures forall id <- Remaining(k, m, t, n, i) :: id in m && !m[id].fInTried
  {
  }

  lemma RemainingStart(k: Placement, m: Infos, t: Table)
    requires Shaped(t, NEW_BUCKET_COUNT)
    requires forall id <- m :: if m[id].fInTried then m[id].nRefCount == 0 else m[id].nRefCount > 0
    ensures Remaining(k, m, t, 0, 0) == RefCounts(m) && WithinCounts(k, m, t, 0, 0)
  {
    forall id <- m ensures SeenBuckets(k, t, m[id].service, id, 0, 0) == {} {
      SeenIsHeld(k, t, m[id].service, id, 0, 0);
    }
  }

  lemma RemainingRow(k: Placement, m: Infos, t: Table, n: nat)
    requires Shaped(t, NEW_BUCKET_COUNT)
    ensures Remaining(k, m, t, n, BUCKET_SIZE) == Remaining(k, m, t, n + 1, 0)
    ensures WithinCounts(k, m, t, n, BUCKET_SIZE) <==> WithinCounts(k, m, t, n + 1, 0)
  {
    forall id <- m ensures SeenBuckets(k, t, m[id].service, id, n, BUCKET_SIZE) == SeenBuckets(k, t, m[id].service, id, n + 1, 0) {
      SeenIsHeld(k, t, m[id].service, id, n, 0);
    }
  }

  /** Every slot is rightly held and no reference is missing exactly if the new table is right. */
  lemma NothingRemains(k: Placement, m: Infos, t: Table)
    requires Shaped(t, NEW_BUCKET_COUNT) && WithinCounts(k, m, t, NEW_BUCKET_COUNT, 0)
    requires forall id <- m :: m[id].fInTried ==> m[id].nRefCount == 0
    requires forall b, p :: 0 <= b < |t| && 0 <= p < |t[b]| && t[b][p] != -1 ==>
                              t[b][p] in m && p == k.position(true, b, m[t[b][p]].service)
    ensures Remaining(k, m, t, NEW_BUCKET_COUNT, 0) == map[] <==> NewTable(k, m, t)
  {
    var left := Remaining(k, m, t, NEW_BUCKET_COUNT, 0);
    forall id <- m
      ensures SeenBuckets(k, t, m[id].service, id, NEW_BUCKET_COUNT, 0) == Buckets(k, t, m[id].service, id)
    {
      SeenIsHeld(k, t, m[id].service, id, NEW_BUCKET_COUNT, 0);
    }
    if left == map[] {
      forall id <- m ensures m[id].nRefCount == |Buckets(k, t, m[id].service, id)| {
        assert id !in left;
      }
    }
  }

  /** The random order lists every entry once. */
  lemma {:induction false} RandomSize(m: Infos, v: seq<int>)
    requires RandomIndex(m, v)
    ensures |v| == |m|
  {
    if v == [] {
      assert forall id :: id !in m;
      assert m == map[];
    } else {
      var id := v[|v| - 1];
      RandomSize(m - {id}, v[..|v| - 1]);
      assert (m - {id}).Keys == m.Keys - {id};
    }
  }

  lemma IdsSplit(m: Infos)
    ensures |m| == |TriedIds(m)| + |NewIds(m, {})|
  {
    assert m.Keys == TriedIds(m) + NewIds(m, {});
    assert TriedIds(m) !! NewIds(m, {});
  }

  /** Ids with distinct positions below `n` number at most `n`, and fill all positions if there are `n`. */
  lemma {:induction false} Pigeonhole(m: Infos, v: seq<int>, n: nat)
    requires n <= |v| && forall id <- m :: 0 <= m[id].nRandomPos < n && v[m[id].nRandomPos] == id
    ensures |m| <= n
    ensures |m| == n ==> forall i :: 0 <= i < n ==> v[i] in m && m[v[i]].nRandomPos == i
  {
    if n == 0 {
      assert forall id :: id !in m;
      assert m == map[];
    } else if v[n - 1] in m && m[v[n - 1]].nRandomPos == n - 1 {
      var m' := m - {v[n - 1]};
      Pigeonhole(m', v, n - 1);
      assert m'.Keys == m.Keys - {v[n - 1]};
    } else {
      Pigeonhole(m, v, n - 1);
    }
  }

  /** Every consistent state passes `Check_`. */
  lemma ConsistentIsChecked(t: Tables, nKey: nat)
    requires Consistent(t, {}, {}) && Times(t.infos) && nKey != 0
    ensures Checked(t, nKey)
  {
    hide TriedTable;
    RandomSize(t.infos, t.random);
    IdsSplit(t.infos);
  }

  /** Every id has been issued by the id counter. */
  ghost predicate IdsIssued(t: Tables) {
    0 <= t.nIdCount && forall id <- t.infos :: 0 <= id < t.nIdCount
  }

  /** Every indexed address belongs to its entry. */
  ghost predicate NoStaleAddress(t: Tables) {
    forall a <- t.addrs :: t.addrs[a] in t.infos && t.infos[t.addrs[a]].service.addr == a
  }

  /** A state that meets all clauses is consistent exactly if the two facts hold that no clause is about. */
  lemma CheckedIsConsistent(t: Tables, nKey: nat)
    requires Checked(t, nKey)
    ensures Consistent(t, {}, {}) <==> IdsIssued(t) && NoStaleAddress(t)
    ensures Times(t.infos)
  {
    hide TriedTable, NewTable;
    assert forall id <- t.infos :: EntryChecked(t, id);
    IdsSplit(t.infos);
    Pigeonhole(t.infos, t.random, |t.random|);
  }

  /** A state that passes `Check_` is consistent exactly if those two facts hold and entry 0 is indexed. */
  lemma PassingIsConsistent(t: Tables, nKey: nat)
    requires Checked(Looked(t), nKey)
    ensures Consistent(t, {}, {}) <==> IdsIssued(t) && NoStaleAddress(t) && !Unindexed(t, 0)
    ensures Times(t.infos)
  {
    hide TriedTable, NewTable, Checked;
    CheckedIsConsistent(Looked(t), nKey);
  }

  /** Only entry `id`, new, with one reference from its slot of bucket 0, and the addresses given. */
  ghost function OneEntry(k: Placement, s: Service, id: int, addrs: map<NetAddr, int>, nIdCount: int): Tables {
    Tables(k, map[id := AddrInfo(s, {}, 0, s.addr, 0, 0, 0, 0, 1, false, 0)], addrs, [id],
           EmptyTable(TRIED_BUCKET_COUNT), Put(EmptyTable(NEW_BUCKET_COUNT), 0, k.position(true, 0, s), id), 0, 1, nIdCount)
  }

  ghost function EmptyTable(buckets: nat): (t: Table)
    ensures Shaped(t, buckets) && forall b, p :: 0 <= b < |t| && 0 <= p < |t[b]| ==> t[b][p] == -1
  {
    seq(buckets, _ => seq(BUCKET_SIZE, _ => -1))
  }

  lemma OneEntryChecked(k: Placement, s: Service, id: int, addrs: map<NetAddr, int>, nIdCount: int)
    requires 0 <= id
    ensures var t := OneEntry(k, s, id, addrs, nIdCount);
            Checked(t, 1) <==> s.addr in addrs && addrs[s.addr] == id
  {
    var t := OneEntry(k, s, id, addrs, nIdCount);
    assert TriedIds(t.infos) == {} && NewIds(t.infos, {}) == {id};
    var none := EmptyTable(NEW_BUCKET_COUNT);
    BucketsAfterWrite(k, none, 0, k.position(true, 0, s), id, s, id);
    assert Buckets(k, none, s, id) == {};
    assert Buckets(k, t.news, s, id) == {0};
    assert EntriesChecked(t) <==> EntryChecked(t, id);
  }

  /** The only entry is not indexed: `Check_` indexes entry 0 and passes, and fails on any other, leaving zero for its address. */
  lemma UnindexedExample(k: Placement, s: Service, id: int)
    requires 0 <= id
    ensures var t := OneEntry(k, s, id, map[], id + 1);
            && IdsIssued(t) && NoStaleAddress(t) && !Consistent(t, {}, {})
            && (Checked(Looked(t), 1) <==> id == 0)
            && Missed(t) == {s.addr}
  {
    var t := OneEntry(k, s, id, map[], id + 1);
    OneEntryChecked(k, s, id, map[], id + 1);
    OneEntryChecked(k, s, id, map[s.addr := 0], id + 1);
    assert LookedUp(t, id) && Unindexed(t, id);
  }

  /** An address that belongs to no entry, and an id that was never issued, go unnoticed. */
  lemma UnnoticedExamples(k: Placement, s: Service, other: NetAddr)
    requires other != s.addr
    ensures var t := OneEntry(k, s, 0, map[s.addr := 0, other := 0], 1);
            Checked(Looked(t), 1) && IdsIssued(t) && !Unindexed(t, 0) && !Consistent(t, {}, {})
    ensures var t := OneEntry(k, s, 0, map[s.addr := 0], 0);
            Checked(Looked(t), 1) && NoStaleAddress(t) && !Unindexed(t, 0) && !Consistent(t, {}, {})
  {
    OneEntryChecked(k, s, 0, map[s.addr := 0, other := 0], 1);
    var t := OneEntry(k, s, 0, map[s.addr := 0, other := 0], 1);
    assert other in t.addrs;
    OneEntryChecked(k, s, 0, map[s.addr := 0], 0);
    assert 0 in OneEntry(k, s, 0, map[s.addr := 0], 0).infos;
  }

  /** An occupied slot for `Select_` to find exists whenever it starts looking for one. */
  lemma SelectableSlot(t: Tables)
    requires Consistent(t, {}, {})
    ensures t.nTried > 0 ==>
              exists b, p :: 0 <= b < TRIED_BUCKET_COUNT && 0 <= p < BUCKET_SIZE && t.tried[b][p] != -1 && t.tried[b][p] in t.infos
    ensures t.nNew > 0 ==>
              exists b, p :: 0 <= b < NEW_BUCKET_COUNT && 0 <= p < BUCKET_SIZE && t.news[b][p] != -1 && t.news[b][p] in t.infos
  {
    if t.nTried > 0 {
      var id := Member(TriedIds(t.infos));
      var b := t.k.triedBucket(t.infos[id].service);
      assert t.tried[b][t.k.position(false, b, t.infos[id].service)] == id;
    }
    if t.nNew > 0 {
      var id := Member(NewIds(t.infos, {}));
      var b := SomeBucket(t.k, t.infos, t.news, id);
      assert t.news[b][t.k.position(true, b, t.infos[id].service)] == id;
    }
  }

  lemma Member<T>(ids: set<T>) returns (id: T)
    requires ids != {}
    ensures id in ids
  {
    id :| id in ids;
  }

  predicate IsMin(ids: set<int>, id: int) {
    id in ids && forall j <- ids :: id <= j
  }

  lemma MinOfMore(ids: set<int>, x: int, y: int)
    requires x in ids && IsMin(ids - {x}, y)
    ensures IsMin(ids, if x <= y then x else y)
  {
    forall j <- ids ensures (if x <= y then x else y) <= j {
      assert j == x || j in ids - {x};
    }
  }

  lemma {:induction false} HasMin(ids: set<int>) returns (id: int)
    requires ids != {}
    ensures IsMin(ids, id)
  {
    id := Member(ids);
    if ids - {id} == {} {
      forall j <- ids ensures id <= j {
        assert j == id || j in ids - {id};
      }
    } else {
      var y := HasMin(ids - {id});
      MinOfMore(ids, id, y);
      id := if id <= y then id else y;
    }
  }

  /** The smallest id, where an iteration over `mapInfo` goes next. */
  method Smallest(ids: set<int>) returns (id: int)
    requires ids != {}
    ensures IsMin(ids, id)
  {
    ghost var least := HasMin(ids);
    id :| id in ids && IsMin(ids, id);
  }

  lemma MinIsFirst(ids: set<int>, id: int)
    requires IsMin(ids, id)
    ensures id in ids && forall j <- ids :: id <= j
  {
  }

  /** No entries and no used slots. */
  lemma EmptyIsConsistent(t: Tables)
    requires t.infos == map[] && t.addrs == map[] && t.random == [] && t.nTried == 0 && t.nNew == 0 && t.nIdCount == 0
    requires |t.tried| == TRIED_BUCKET_COUNT && forall b :: 0 <= b < |t.tried| ==> t.tried[b] == seq(BUCKET_SIZE, _ => -1)
    requires |t.news| == NEW_BUCKET_COUNT && forall b :: 0 <= b < |t.news| ==> t.news[b] == seq(BUCKET_SIZE, _ => -1)
    ensures Consistent(t, {}, {}) && Times(t.infos)
  {
    assert TriedIds(t.infos) == {} && NewIds(t.infos, {}) == {};
  }

  ghost function NoEntries(k: Placement): Tables {
    Tables(k, map[], map[], [], EmptyTable(TRIED_BUCKET_COUNT), EmptyTable(NEW_BUCKET_COUNT), 0, 0, 0)
  }

  class AddrManager {
    const env: Env
    var nIdCount: int
    var mapInfo: Infos
    var mapAddr: map<NetAddr, int>
    var vRandom: seq<int>
    var nTried: int
    const vvTried: array<seq<int>>
    var nNew: int
    const vvNew: array<seq<int>>
    var nLastGood: int
    var nKey: nat

    function K(): Placement
      reads this
    {
      Keyed(env, nKey)
    }

    ghost function T(): Tables
      reads this, vvTried, vvNew
    {
      Tables(K(), mapInfo, mapAddr, vRandom, vvTried[..], vvNew[..], nTried, nNew, nIdCount)
    }

    ghost predicate Inv(zero: set<int>, limbo: set<int>)
      reads this, vvTried, vvNew
    {
      && vvTried != vvNew
      && Shaped(vvTried[..], TRIED_BUCKET_COUNT) && Shaped(vvNew[..], NEW_BUCKET_COUNT)
      && Consistent(T(), zero, limbo)
    }

    /** The structural part of what `Check_` tests. */
    ghost predicate Valid()
      reads this, vvTried, vvNew
    {
      Inv({}, {})
    }

    constructor (env: Env, key: nat)
      ensures Valid() && Times(mapInfo) && mapInfo == map[] && nKey == key && this.env == env
      ensures fresh(vvTried) && fresh(vvNew)
    {
      this.env := env;
      vvTried := new seq<int>[TRIED_BUCKET_COUNT];
      vvNew := new seq<int>[NEW_BUCKET_COUNT];
      nIdCount, mapInfo, mapAddr, vRandom, nTried, nNew, nLastGood, nKey := 0, map[], map[], [], 0, 0, 0, 0;
      new;
      Clear(key);
    }

    method Clear(key: nat)
      requires vvTried != vvNew && vvTried.Length == TRIED_BUCKET_COUNT && vvNew.Length == NEW_BUCKET_COUNT
      modifies this, vvTried, vvNew
      ensures Valid() && Times(mapInfo) && mapInfo == map[] && nKey == key && nLastGood == 1
      ensures T() == NoEntries(K())
    {
      hide Consistent, Keyed;
      vRandom := [];
      nKey := key;
      for bucket := 0 to NEW_BUCKET_COUNT
        modifies vvNew
        invariant forall b :: 0 <= b < bucket ==> vvNew[b] == seq(BUCKET_SIZE, _ => -1)
      {
        vvNew[bucket] := seq(BUCKET_SIZE, _ => -1);
      }
      for bucket := 0 to TRIED_BUCKET_COUNT
        modifies vvTried
        invariant forall b :: 0 <= b < bucket ==> vvTried[b] == seq(BUCKET_SIZE, _ => -1)
      {
        vvTried[bucket] := seq(BUCKET_SIZE, _ => -1);
      }
      nIdCount := 0;
      nTried := 0;
      nNew := 0;
      nLastGood := 1;
      mapInfo := map[];
      mapAddr := map[];
      EmptyIsConsistent(T());
      assert vvTried[..] == EmptyTable(TRIED_BUCKET_COUNT) && vvNew[..] == EmptyTable(NEW_BUCKET_COUNT);
    }

    method Find(addr: NetAddr) returns (r: Option<int>)
      requires Valid()
      ensures r.Some? ==> addr in mapAddr && r.value == mapAddr[addr] && r.value in mapInfo && mapInfo[r.value].service.addr == addr
      ensures r.None? ==> addr !in mapAddr && forall id <- mapInfo :: mapInfo[id].service.addr != addr
    {
      if addr !in mapAddr {
        return None;
      }
      return Some(mapAddr[addr]);
    }

    /** Adds an entry that is in no table yet. */
    method Create(addr: Address, source: NetAddr) returns (nId: int)
      requires Valid() && addr.service.addr !in mapAddr
      modifies this`nIdCount, this`mapInfo, this`mapAddr, this`vRandom
      ensures Inv({}, {nId})
      ensures T() == Created(old(T()), NewInfo(addr, source)) && nId == old(nIdCount)
    {
      hide Consistent;
      CreateKeeps(T(), NewInfo(addr, source));
      nId := nIdCount;
      nIdCount := nIdCount + 1;
      mapInfo := mapInfo[nId := NewInfo(addr, source)];
      mapAddr := mapAddr[addr.service.addr := nId];
      mapInfo := mapInfo[nId := mapInfo[nId].(nRandomPos := |vRandom|)];
      vRandom := vRandom + [nId];
      assert T() == Created(old(T()), NewInfo(addr, source));
    }

    method SwapRandom(nRndPos1: nat, nRndPos2: nat, ghost zero: set<int>, ghost limbo: set<int>)
      requires RandomIndex(mapInfo, vRandom)
      requires nRndPos1 < |vRandom| && nRndPos2 < |vRandom|
      modifies this`mapInfo, this`vRandom
      ensures RandomIndex(mapInfo, vRandom)
      ensures old(Inv(zero, limbo)) ==> Inv(zero, limbo)
      ensures SameBut(old(mapInfo), mapInfo, {})
      ensures vRandom == old(vRandom)[nRndPos1 := old(vRandom[nRndPos2])][nRndPos2 := old(vRandom[nRndPos1])]
    {
      hide Consistent;
      if nRndPos1 == nRndPos2 {
        return;
      }
      var nId1 := vRandom[nRndPos1];
      var nId2 := vRandom[nRndPos2];
      SwapKeepsRandomIndex(mapInfo, vRandom, nRndPos1, nRndPos2);
      assert nId1 in mapInfo && nId2 in mapInfo;
      if Inv(zero, limbo) {
        SwapKeeps(T(), nRndPos1, nRndPos2, zero, limbo);
      }
      mapInfo := mapInfo[nId1 := mapInfo[nId1].(nRandomPos := nRndPos2)];
      mapInfo := mapInfo[nId2 := mapInfo[nId2].(nRandomPos := nRndPos1)];
      vRandom := vRandom[nRndPos1 := nId2];
      vRandom := vRandom[nRndPos2 := nId1];
      assert T() == Swapped(old(T()), nRndPos1, nRndPos2);
    }

    /** Deletes an entry that is not tried and has no references. */
    method Delete(nId: int, ghost zero: set<int>, ghost limbo: set<int>)
      requires RandomIndex(mapInfo, vRandom) && nId in mapInfo && nId !in limbo
      requires !mapInfo[nId].fInTried && mapInfo[nId].nRefCount == 0
      modifies this`mapInfo, this`mapAddr, this`vRandom, this`nNew
      ensures RandomIndex(mapInfo, vRandom) && nNew == old(nNew) - 1
      ensures mapAddr == old(mapAddr) - {old(mapInfo[nId].service.addr)}
      ensures nId !in mapInfo && SameBut(old(mapInfo), mapInfo, {nId})
      ensures old(Inv(zero, limbo)) ==> Inv(zero - {nId}, limbo)
    {
      hide Consistent;
      SwapRandom(mapInfo[nId].nRandomPos, |vRandom| - 1, zero, limbo);
      ghost var t := T();
      assert mapInfo[nId].Facts() == old(mapInfo)[nId].Facts();
      DeleteKeepsRandomIndex(mapInfo, vRandom, nId);
      if Inv(zero, limbo) {
        DeleteKeeps(t, nId, zero, limbo);
      }
      vRandom := vRandom[..|vRandom| - 1];
      mapAddr := mapAddr - {mapInfo[nId].service.addr};
      mapInfo := mapInfo - {nId};
      nNew := nNew - 1;
      assert T() == Deleted(t, nId);
    }

    /** Empties a position of a new bucket, deleting the entry if that was its last reference. */
    method ClearNew(nUBucket: nat, nUBucketPos: nat, ghost zero: set<int>, ghost limbo: set<int>)
      requires Inv(zero, limbo) && nUBucket < NEW_BUCKET_COUNT && nUBucketPos < BUCKET_SIZE
      requires vvNew[nUBucket][nUBucketPos] !in zero
      modifies this`mapInfo, this`mapAddr, this`vRandom, this`nNew, vvNew
      ensures Inv(zero, limbo)
      ensures vvNew[..] == Put(old(vvNew[..]), nUBucket, nUBucketPos, -1)
      ensures SameBut(old(mapInfo), mapInfo, {old(vvNew[nUBucket][nUBucketPos])})
      ensures old(vvNew[nUBucket][nUBucketPos]) != -1 ==>
                && old(vvNew[nUBucket][nUBucketPos]) in old(mapInfo)
                && DropsReference(old(mapInfo), mapInfo, old(vvNew[nUBucket][nUBucketPos]))
    {
      hide Consistent;
      if vvNew[nUBucket][nUBucketPos] != -1 {
        var nIdDelete := vvNew[nUBucket][nUBucketPos];
        ghost var t := T();
        UnlinkKeeps(t, nUBucket, nUBucketPos, nIdDelete, zero, limbo);
        assert mapInfo[nIdDelete].nRefCount > 0;
        mapInfo := mapInfo[nIdDelete := mapInfo[nIdDelete].(nRefCount := mapInfo[nIdDelete].nRefCount - 1)];
        vvNew[nUBucket] := vvNew[nUBucket][nUBucketPos := -1];
        assert T() == Unlinked(t, nUBucket, nUBucketPos, nIdDelete);
        if mapInfo[nIdDelete].nRefCount == 0 {
          RandomPlaces(T(), zero + {nIdDelete}, limbo);
          Delete(nIdDelete, zero + {nIdDelete}, limbo);
          assert zero + {nIdDelete} - {nIdDelete} == zero;
        }
      } else {
        assert vvNew[nUBucket] == vvNew[nUBucket][nUBucketPos := -1];
      }
    }

    /** The first part of `MakeTried`: the entry leaves every new bucket it is in. */
    method LeaveNewBuckets(nId: int)
      requires Valid() && nId in mapInfo && !mapInfo[nId].fInTried
      modifies this`mapInfo, this`nNew, vvNew
      ensures Inv({}, {nId})
      ensures mapInfo == old(mapInfo)[nId := old(mapInfo[nId]).(nRefCount := 0)]
      ensures vvNew[..] == Without(old(vvNew[..]), nId, NEW_BUCKET_COUNT)
    {
      hide Consistent;
      ghost var t0 := T();
      WidenZero(t0, {nId});
      for bucket := 0 to NEW_BUCKET_COUNT
        modifies this`mapInfo, vvNew
        invariant Inv({nId}, {})
        invariant nId in mapInfo && mapInfo == t0.infos[nId := t0.infos[nId].(nRefCount := mapInfo[nId].nRefCount)]
        invariant vvNew[..] == Without(t0.news, nId, bucket)
      {
        var pos := K().position(true, bucket, mapInfo[nId].service);
        ghost var t := T();
        WithoutStep'(t0, nId, bucket);
        if vvNew[bucket][pos] == nId {
          UnlinkKeeps(t, bucket, pos, nId, {nId}, {});
          vvNew[bucket] := vvNew[bucket][pos := -1];
          mapInfo := mapInfo[nId := mapInfo[nId].(nRefCount := mapInfo[nId].nRefCount - 1)];
          assert T() == Unlinked(t, bucket, pos, nId);
          assert {nId} + {nId} == {nId};
        }
      }
      ghost var t := T();
      WithoutAll(t0, t, nId);
      RecountKeeps(t, nId, {nId}, {});
      nNew := nNew - 1;
      assert T() == t.(nNew := t.nNew - 1);
      assert {nId} - {nId} == {} && {} + {nId} == {nId};
      assert mapInfo[nId].nRefCount == 0;
    }

    /** The second part of `MakeTried`: takes the entry out of an occupied tried slot. */
    method LeaveTried(nKBucket: nat, nKBucketPos: nat, ghost nId: int) returns (nIdEvict: int)
      requires Inv({}, {nId}) && nKBucket < TRIED_BUCKET_COUNT && nKBucketPos < BUCKET_SIZE
      requires vvTried[nKBucket][nKBucketPos] != -1
      modifies this`mapInfo, this`nTried, vvTried
      ensures nIdEvict == old(vvTried[nKBucket][nKBucketPos]) && nIdEvict in old(mapInfo) && nIdEvict != nId
      ensures Inv({}, {nId, nIdEvict})
      ensures mapInfo == old(mapInfo)[nIdEvict := old(mapInfo)[nIdEvict].(fInTried := false)]
      ensures vvTried[..] == Put(old(vvTried[..]), nKBucket, nKBucketPos, -1)
    {
      hide Consistent;
      nIdEvict := vvTried[nKBucket][nKBucketPos];
      ghost var t := T();
      TriedHolder(t, nKBucket, nKBucketPos, {}, {nId});
      EvictKeeps(t, nIdEvict, {}, {nId});
      assert nIdEvict in mapInfo;
      mapInfo := mapInfo[nIdEvict := mapInfo[nIdEvict].(fInTried := false)];
      vvTried[nKBucket] := vvTried[nKBucket][nKBucketPos := -1];
      nTried := nTried - 1;
      assert T() == Moved(t, nIdEvict, false);
      assert {nId} + {nIdEvict} == {nId, nIdEvict};
    }

    /** The third part of `MakeTried`: the evicted entry becomes a new one. */
    method ReenterNew(nIdEvict: int, ghost nId: int)
      requires Inv({}, {nId, nIdEvict}) && nIdEvict in mapInfo && nId in mapInfo && nIdEvict != nId
      modifies this`mapInfo, this`mapAddr, this`vRandom, this`nNew, vvNew
      ensures Inv({}, {nId})
      ensures Evicted(old(T()), T(), nIdEvict, {})
      ensures nId in mapInfo && mapInfo[nId].Facts() == old(mapInfo)[nId].Facts()
    {
      hide Consistent, Keyed, DropsReference, Evicted;
      LimboFacts(T(), nIdEvict, {}, {nId, nIdEvict});
      LimboFacts(T(), nId, {}, {nId, nIdEvict});
      var nUBucket := K().newBucket(mapInfo[nIdEvict].service, mapInfo[nIdEvict].source);
      var nUBucketPos := K().position(true, nUBucket, mapInfo[nIdEvict].service);
      NewHolder(T(), nUBucket, nUBucketPos, {}, {nId, nIdEvict});
      ClearNew(nUBucket, nUBucketPos, {}, {nId, nIdEvict});
      assert mapInfo[nIdEvict].Facts() == old(mapInfo)[nIdEvict].Facts();
      assert vvNew[nUBucket][nUBucketPos] == -1;
      ghost var t := T();
      ReenterKeeps(t, nUBucket, nUBucketPos, nIdEvict, nId);
      mapInfo := mapInfo[nIdEvict := mapInfo[nIdEvict].(nRefCount := 1)];
      vvNew[nUBucket] := vvNew[nUBucket][nUBucketPos := nIdEvict];
      nNew := nNew + 1;
      assert T() == Linked(t, nUBucket, nUBucketPos, nIdEvict).(nNew := t.nNew + 1);
      ReenterEffect(old(T()), t, T(), nUBucket, nUBucketPos, nIdEvict);
    }

    /** Gives a new entry its tried slot. */
    method MakeTried(nId: int)
      requires Valid() && nId in mapInfo && !mapInfo[nId].fInTried
      modifies this`mapInfo, this`mapAddr, this`vRandom, this`nNew, this`nTried, vvNew, vvTried
      ensures Valid()
      ensures MovedToTried(old(T()), T(), nId)
    {
      hide Consistent, Keyed, SameBut, DropsReference, Without, Evicted;
      ghost var t := T();
      LeaveNewBuckets(nId);
      assert mapInfo[nId].nRefCount == 0;
      ghost var c := T();
      LimboFacts(c, nId, {}, {nId});

      var nKBucket := K().triedBucket(mapInfo[nId].service);
      var nKBucketPos := K().position(false, nKBucket, mapInfo[nId].service);

      ghost var d, evicted := c, vvTried[nKBucket][nKBucketPos];
      if vvTried[nKBucket][nKBucketPos] != -1 {
        var nIdEvict := LeaveTried(nKBucket, nKBucketPos, nId);
        d := T();
        ReenterNew(nIdEvict, nId);
      }
      assert vvTried[nKBucket][nKBucketPos] == -1;
      ghost var e := T();
      LimboFacts(e, nId, {}, {nId});
      TakeTriedSlot(nKBucket, nKBucketPos, nId);
      if evicted == -1 {
        MovedToFreeSlot(t, c, T(), nId);
      } else {
        MovedWithEviction(t, c, d, e, T(), nId, evicted);
      }
    }

    /** The last part of `MakeTried`: puts the entry into its free tried slot. */
    method TakeTriedSlot(nKBucket: nat, nKBucketPos: nat, nId: int)
      requires Inv({}, {nId}) && nId in mapInfo
      requires nKBucket == K().triedBucket(mapInfo[nId].service)
      requires nKBucketPos == K().position(false, nKBucket, mapInfo[nId].service)
      requires vvTried[nKBucket][nKBucketPos] == -1
      modifies this`mapInfo, this`nTried, vvTried
      ensures Valid()
      ensures mapInfo == old(mapInfo)[nId := old(mapInfo)[nId].(fInTried := true)]
      ensures vvTried[..] == Put(old(vvTried[..]), nKBucket, nKBucketPos, nId)
    {
      hide Consistent, Keyed;
      ghost var t := T();
      PromoteKeeps(t, nId, {}, {nId});
      vvTried[nKBucket] := vvTried[nKBucket][nKBucketPos := nId];
      nTried := nTried + 1;
      mapInfo := mapInfo[nId := mapInfo[nId].(fInTried := true)];
      assert T() == Moved(t, nId, true);
      assert {nId} - {nId} == {};
    }

    /** The search of `Good_` for a bucket holding a new entry, from a random one onwards. */
    method FindNewBucket(nId: int) returns (nUBucket: int)
      requires Valid() && nId in mapInfo && !mapInfo[nId].fInTried
      ensures 0 <= nUBucket < NEW_BUCKET_COUNT
      ensures vvNew[nUBucket][K().position(true, nUBucket, mapInfo[nId].service)] == nId
    {
      ghost var b := SomeBucket(K(), mapInfo, vvNew[..], nId);
      hide Consistent;
      var nRnd: nat :| nRnd < NEW_BUCKET_COUNT;
      nUBucket := -1;
      for n := 0 to NEW_BUCKET_COUNT
        // the bucket known to hold the entry has not been passed
        invariant (b + NEW_BUCKET_COUNT - nRnd) % NEW_BUCKET_COUNT >= n
      {
        var nB := (n + nRnd) % NEW_BUCKET_COUNT;
        var nBpos := K().position(true, nB, mapInfo[nId].service);
        if vvNew[nB][nBpos] == nId {
          nUBucket := nB;
          break;
        }
      }
    }

    /** A connection has succeeded: stamps the entry and gives it its tried slot if it is new. */
    method Good_(addr: Service, nTime: int)
      requires Valid()
      modifies this`mapInfo, this`mapAddr, this`vRandom, this`nNew, this`nTried, this`nLastGood, vvNew, vvTried
      ensures Valid() && nLastGood == nTime
      ensures nTime > 0 && old(Times(mapInfo)) ==> Times(mapInfo)
      ensures var t := old(T());
              if addr.addr !in t.addrs || t.infos[t.addrs[addr.addr]].service != addr then T() == t
              else
                var id := t.addrs[addr.addr];
                var t1 := WithInfo(t, id, Stamped(t.infos[id], nTime));
                if t.infos[id].fInTried then T() == t1 else MovedToTried(t1, T(), id)
    {
      hide Consistent, MovedToTried, Keyed, Times;
      nLastGood := nTime;
      var found := Find(addr.addr);
      if found.None? {
        return;
      }
      var nId := found.value;
      if mapInfo[nId].service != addr {
        return;
      }
      ghost var t := T();
      EditKeeps(t, nId, Stamped(mapInfo[nId], nTime), {}, {});
      StampKeepsTimes(mapInfo, nId, nTime);
      mapInfo := mapInfo[nId := Stamped(mapInfo[nId], nTime)];
      ghost var t1 := T();
      assert t1 == WithInfo(t, nId, Stamped(t.infos[nId], nTime));
      if mapInfo[nId].fInTried {
        return;
      }
      // a bucket that holds the entry exists, so this never gives up
      var nUBucket := FindNewBucket(nId);
      assert nUBucket != -1;
      MakeTried(nId);
      if nTime > 0 && Times(t.infos) {
        MoveKeepsTimes(t1, T(), nId);
      }
    }

    /** The last part of `Add_`: offers an entry the slot its address and source select. */
    method OfferNewSlot(nId: int, source: NetAddr, nNow: int)
      requires nId in mapInfo && !mapInfo[nId].fInTried && mapInfo[nId].nRefCount < NEW_BUCKETS_PER_ADDRESS
      requires Inv(if mapInfo[nId].nRefCount == 0 then {nId} else {}, {})
      modifies this`mapInfo, this`mapAddr, this`vRandom, this`nNew, vvNew
      ensures Valid()
      ensures Offered(old(T()), T(), nId, K().newBucket(old(mapInfo)[nId].service, source), nNow)
    {
      hide Consistent, Keyed, DropsReference, Offered;
      ghost var zero := if mapInfo[nId].nRefCount == 0 then {nId} else {};
      ghost var t := T();
      var nUBucket := K().newBucket(mapInfo[nId].service, source);
      var nUBucketPos := K().position(true, nUBucket, mapInfo[nId].service);
      NewHolder(t, nUBucket, nUBucketPos, zero, {});
      if vvNew[nUBucket][nUBucketPos] != nId {
        var fInsert := vvNew[nUBucket][nUBucketPos] == -1;
        if !fInsert {
          var existing := mapInfo[vvNew[nUBucket][nUBucketPos]];
          if existing.IsTerrible(nNow) || (existing.nRefCount > 1 && mapInfo[nId].nRefCount == 0) {
            fInsert := true;
          }
        }
        if fInsert {
          ClearNew(nUBucket, nUBucketPos, zero, {});
          ghost var c := T();
          assert mapInfo[nId].Facts() == t.infos[nId].Facts();
          LinkKeeps(c, nUBucket, nUBucketPos, nId, zero, {});
          assert zero - {nId} == {};
          mapInfo := mapInfo[nId := mapInfo[nId].(nRefCount := mapInfo[nId].nRefCount + 1)];
          vvNew[nUBucket] := vvNew[nUBucket][nUBucketPos := nId];
          assert T() == Linked(c, nUBucket, nUBucketPos, nId);
          OfferTaken(t, c, T(), nId, nUBucket, nNow);
        } else {
          if mapInfo[nId].nRefCount == 0 {
            RandomPlaces(T(), zero, {});
            Delete(nId, zero, {});
            assert zero - {nId} == {};
          }
          OfferDeclined(t, T(), nId, nUBucket, nNow);
        }
      } else {
        OfferDeclined(t, T(), nId, nUBucket, nNow);
      }
    }

    /** The part of `Add_` for a known address: refreshes it and decides whether to add a reference. */
    method Refresh(nId: int, addr: Address, penalty: int, nNow: int) returns (more: bool)
      requires Valid() && nId in mapInfo
      modifies this`mapInfo
      ensures Valid() && T() == WithInfo(old(T()), nId, Refreshed(old(mapInfo)[nId], addr, penalty, nNow))
      ensures more ==> MayGainReference(mapInfo[nId], addr) && 0 < mapInfo[nId].nRefCount < NEW_BUCKETS_PER_ADDRESS
    {
      hide Consistent, Keyed;
      EntryFacts(T(), nId);
      EditKeeps(T(), nId, Refreshed(mapInfo[nId], addr, penalty, nNow), {}, {});
      var info := mapInfo[nId];
      var fCurrentlyOnline := nNow - addr.nTime < 24 * 60 * 60;
      var nUpdateInterval := if fCurrentlyOnline then 60 * 60 else 24 * 60 * 60;
      if addr.nTime != 0 && (info.nTime == 0 || info.nTime < addr.nTime - nUpdateInterval - penalty) {
        info := info.(nTime := Penalised(addr.nTime, penalty));
      }
      info := info.(nServices := info.nServices + addr.nServices);
      assert info == Refreshed(mapInfo[nId], addr, penalty, nNow);
      mapInfo := mapInfo[nId := info];
      if addr.nTime == 0 || (info.nTime != 0 && addr.nTime <= info.nTime) {
        return false;
      }
      if info.fInTried {
        return false;
      }
      if info.nRefCount == NEW_BUCKETS_PER_ADDRESS {
        return false;
      }
      var nFactor := 1;
      for n := 0 to info.nRefCount
        invariant nFactor >= 1
      {
        nFactor := nFactor * 2;
      }
      var draw: nat :| draw < nFactor;
      return nFactor <= 1 || draw == 0;
    }

    /** The part of `Add_` for an unknown address: creates a new entry without references. */
    method CreateNew(addr: Address, source: NetAddr, penalty: int) returns (nId: int)
      requires Valid() && addr.service.addr !in mapAddr
      modifies this`nIdCount, this`mapInfo, this`mapAddr, this`vRandom, this`nNew
      ensures Inv({nId}, {}) && nId == old(nIdCount)
      ensures T() == Created(old(T()), NewInfo(addr, source).(nTime := Penalised(addr.nTime, penalty))).(nNew := old(nNew) + 1)
    {
      hide Consistent, Keyed;
      ghost var t := T();
      ghost var info := NewInfo(addr, source).(nTime := Penalised(addr.nTime, penalty));
      CreateCountedKeeps(t, info);
      nId := Create(addr, source);
      mapInfo := mapInfo[nId := mapInfo[nId].(nTime := Penalised(mapInfo[nId].nTime, penalty))];
      nNew := nNew + 1;
      assert T() == Created(t, info).(nNew := t.nNew + 1);
    }

    /** Adds an announced address to the new table. */
    method Add_(addr: Address, source: NetAddr, nTimePenalty: int, nNow: int) returns (fNew: bool)
      requires Valid()
      modifies this`nIdCount, this`mapInfo, this`mapAddr, this`vRandom, this`nNew, vvNew
      ensures Valid()
      ensures old(Times(mapInfo)) ==> Times(mapInfo)
      // true for every routable address not known before, even if it finds no slot
      ensures fNew <==> env.isRoutable(addr.service.addr) && addr.service.addr !in old(mapAddr)
      ensures Announced(env, old(T()), T(), addr, source, nTimePenalty, nNow)
    {
      hide Consistent, Offered, Keyed, Times;
      if !env.isRoutable(addr.service.addr) {
        return false;
      }
      var found := Find(addr.service.addr);
      var penalty := if addr.service.addr == source then 0 else nTimePenalty;
      ghost var t := T();
      fNew := found.None?;
      var nId;
      if found.Some? {
        nId := found.value;
        EditKeepsTimes(mapInfo, nId, Refreshed(mapInfo[nId], addr, penalty, nNow));
        var more := Refresh(nId, addr, penalty, nNow);
        if !more {
          return;
        }
      } else {
        CreateKeepsTimes(t, NewInfo(addr, source).(nTime := Penalised(addr.nTime, penalty)));
        nId := CreateNew(addr, source, penalty);
      }
      ghost var t1 := T();
      OfferNewSlot(nId, source, nNow);
      Shape(T(), {}, {});
      if Times(t1.infos) {
        OfferKeepsTimes(t1, T(), nId, K().newBucket(t1.infos[nId].service, source), nNow);
      }
    }

    /** The id of the entry for exactly this address and port, if any. */
    ghost function Known(addr: Service): Option<int>
      requires Valid()
      reads this, vvTried, vvNew
    {
      if addr.addr in mapAddr && mapInfo[mapAddr[addr.addr]].service == addr then Some(mapAddr[addr.addr]) else None
    }

    /** Records an attempt to connect. */
    method Attempt_(addr: Service, fCountFailure: bool, nTime: int)
      requires Valid()
      modifies this`mapInfo
      ensures Valid()
      ensures nTime >= 0 && old(Times(mapInfo)) ==> Times(mapInfo)
      ensures match old(Known(addr))
              case None => T() == old(T())
              case Some(id) =>
                var info := old(mapInfo)[id].(nLastTry := nTime);
                T() == WithInfo(old(T()), id,
                                if fCountFailure && info.nLastCountAttempt < nLastGood
                                then info.(nLastCountAttempt := nTime, nAttempts := info.nAttempts + 1) else info)
    {
      hide Consistent, Keyed, Times;
      var found := Find(addr.addr);
      if found.None? || mapInfo[found.value].service != addr {
        return;
      }
      var info := mapInfo[found.value].(nLastTry := nTime);
      if fCountFailure && info.nLastCountAttempt < nLastGood {
        info := info.(nLastCountAttempt := nTime, nAttempts := info.nAttempts + 1);
      }
      EditKeeps(T(), found.value, info, {}, {});
      EditKeepsTimes(mapInfo, found.value, info);
      mapInfo := mapInfo[found.value := info];
    }

    /** Records that a peer is connected. */
    method Connected_(addr: Service, nTime: int)
      requires Valid()
      modifies this`mapInfo
      ensures Valid()
      ensures old(Times(mapInfo)) ==> Times(mapInfo)
      ensures match old(Known(addr))
              case None => T() == old(T())
              case Some(id) =>
                var info := old(mapInfo)[id];
                T() == WithInfo(old(T()), id, if nTime - info.nTime > 20 * 60 then info.(nTime := nTime % UINT32) else info)
    {
      hide Consistent, Keyed, Times;
      var found := Find(addr.addr);
      if found.None? || mapInfo[found.value].service != addr {
        return;
      }
      var info := mapInfo[found.value];
      var nUpdateInterval := 20 * 60;
      if nTime - info.nTime > nUpdateInterval {
        info := info.(nTime := nTime % UINT32);
      }
      EditKeeps(T(), found.value, info, {}, {});
      EditKeepsTimes(mapInfo, found.value, info);
      mapInfo := mapInfo[found.value := info];
    }

    method SetServices_(addr: Service, nServices: set<nat>)
      requires Valid()
      modifies this`mapInfo
      ensures Valid()
      ensures old(Times(mapInfo)) ==> Times(mapInfo)
      ensures match old(Known(addr))
              case None => T() == old(T())
              case Some(id) => T() == WithInfo(old(T()), id, old(mapInfo)[id].(nServices := nServices))
    {
      hide Consistent, Keyed, Times;
      var found := Find(addr.addr);
      if found.None? || mapInfo[found.value].service != addr {
        return;
      }
      var info := mapInfo[found.value].(nServices := nServices);
      EditKeeps(T(), found.value, info, {}, {});
      EditKeepsTimes(mapInfo, found.value, info);
      mapInfo := mapInfo[found.value := info];
    }

    /** How many addresses `GetAddr_` returns at most. */
    function MaxShared(): nat
      reads this
    {
      var nNodes := GETADDR_MAX_PCT * |vRandom| / 100;
      if nNodes > GETADDR_MAX then GETADDR_MAX else nNodes
    }

    /** Gathers random addresses that are not terrible. */
    method GetAddr_(nNow: int) returns (vAddr: seq<Address>)
      requires Valid()
      modifies this`mapInfo, this`vRandom
      ensures Valid() && SameBut(old(mapInfo), mapInfo, {})
      ensures |vAddr| <= old(MaxShared())
      ensures forall i, j :: 0 <= i < j < |vAddr| ==> vAddr[i].service.addr != vAddr[j].service.addr
      ensures forall a <- vAddr :: exists id :: id in mapInfo && !mapInfo[id].IsTerrible(nNow) && a == mapInfo[id].ToAddress()
      // fewer than the maximum are returned only if there are no more
      ensures |vAddr| < old(MaxShared()) ==>
                forall id <- mapInfo :: !mapInfo[id].IsTerrible(nNow) ==> mapInfo[id].ToAddress() in vAddr
    {
      hide Consistent, Keyed, AddrInfo.IsTerrible, Gathered;
      var nNodes := MaxShared();
      vAddr := [];
      ghost var ids := [];
      var n := 0;
      RandomOrder(T());
      assert Gathered(mapInfo, 0, ids, vAddr, nNow) by {
        GatherStart(mapInfo, vRandom, nNow);
      }
      while n < |vRandom| && |vAddr| < nNodes
        invariant 0 <= n <= |vRandom| == |old(vRandom)|
        invariant Valid() && SameBut(old(mapInfo), mapInfo, {})
        invariant |vAddr| <= nNodes && Gathered(mapInfo, n, ids, vAddr, nNow)
      {
        RandomOrder(T());
        ghost var was, wasRandom := mapInfo, vRandom;
        var draw: nat :| draw < |vRandom| - n;
        var nRndPos := draw + n;
        SwapRandom(n, nRndPos, {}, {});
        RandomOrder(T());
        GatherSwap(was, wasRandom, mapInfo, vRandom, n, ids, vAddr, nNow);
        assert vRandom[n] in mapInfo;
        var ai := mapInfo[vRandom[n]];
        GatherStep(mapInfo, vRandom, n, ids, vAddr, nNow);
        if !ai.IsTerrible(nNow) {
          vAddr := vAddr + [ai.ToAddress()];
          ids := ids + [vRandom[n]];
        }
        n := n + 1;
      }
      GatherEnd(T(), n, ids, vAddr, nNow);
    }

    /** The tests of `Check_` on one entry. */
    method CheckEntry(n: int) returns (err: int)
      requires n in mapInfo
      modifies this`mapAddr
      ensures err == 0 <==> old(EntryChecked(Looked(T()), n))
      ensures mapAddr == if RefsChecked(mapInfo[n]) && old(Unindexed(T(), n)) then old(mapAddr)[mapInfo[n].service.addr := 0]
                         else old(mapAddr)
    {
      hide Keyed;
      var info := mapInfo[n];
      if info.fInTried {
        if info.nLastSuccess == 0 {
          return -1;
        }
        if info.nRefCount != 0 {
          return -2;
        }
      } else {
        if info.nRefCount < 0 || info.nRefCount > NEW_BUCKETS_PER_ADDRESS {
          return -3;
        }
        if info.nRefCount == 0 {
          return -4;
        }
      }
      // reading a missing key of a std::map stores the value 0 under it
      if info.service.addr !in mapAddr {
        mapAddr := mapAddr[info.service.addr := 0];
      }
      if mapAddr[info.service.addr] != n {
        return -5;
      }
      if info.nRandomPos < 0 || info.nRandomPos >= |vRandom| || vRandom[info.nRandomPos] != n {
        return -14;
      }
      if info.nLastTry < 0 {
        return -6;
      }
      if info.nLastSuccess < 0 {
        return -8;
      }
      return 0;
    }

    /** The first loop of `Check_`: tests every entry and collects the tried ids and the reference counts. */
    method CheckEntries() returns (err: int, setTried: set<int>, mapNew: map<int, int>)
      modifies this`mapAddr
      ensures err == 0 <==> old(EntriesChecked(Looked(T())))
      ensures err == 0 ==> setTried == TriedIds(mapInfo) && mapNew == RefCounts(mapInfo)
      ensures mapAddr == WithZeros(old(mapAddr), old(Missed(T())))
    {
      hide Keyed, EntryChecked, Missed, WithZeros, IsMin, Passed, Looked;
      ghost var t := T();
      setTried, mapNew := {}, map[];
      var todo := mapInfo.Keys;
      NonePassed(t);
      while todo != {}
        invariant todo <= mapInfo.Keys && Passed(t, todo, T(), setTried, mapNew)
        decreases todo
      {
        var n := Smallest(todo);
        MinIsFirst(todo, n);
        PassedFacts(t, todo, T(), setTried, mapNew, n);
        ghost var u := T();
        err := CheckEntry(n);
        if err != 0 {
          MissedUntil(t, n);
          return;
        }
        PassOne(t, todo, u, T(), setTried, mapNew, n);
        if mapInfo[n].fInTried {
          setTried := setTried + {n};
        } else {
          mapNew := mapNew[n := mapInfo[n].nRefCount];
        }
        todo := todo - {n};
      }
      AllPassed(t, T(), setTried, mapNew);
      err := 0;
    }

    /** The second loop of `Check_`: tests every tried slot, crossing off the ids found. */
    method CheckTried(tried: set<int>) returns (err: int, setTried: set<int>)
      requires Shaped(vvTried[..], TRIED_BUCKET_COUNT) && -1 !in mapInfo && tried == TriedIds(mapInfo)
      ensures err == 0 && setTried == {} <==> TriedTable(K(), mapInfo, vvTried[..])
    {
      hide Keyed, Unseen, TriedTable;
      setTried := tried;
      ghost var t := vvTried[..];
      UnseenRow(K(), mapInfo, t, 0);
      for n := 0 to TRIED_BUCKET_COUNT
        invariant forall b, p :: 0 <= b < n && 0 <= p < |t[b]| ==> TriedSlotOk(K(), mapInfo, t, b, p)
        invariant setTried == Unseen(K(), mapInfo, t, n, 0)
      {
        for i := 0 to BUCKET_SIZE
          invariant forall b, p :: 0 <= b < n && 0 <= p < |t[b]| ==> TriedSlotOk(K(), mapInfo, t, b, p)
          invariant forall p :: 0 <= p < i ==> TriedSlotOk(K(), mapInfo, t, n, p)
          invariant setTried == Unseen(K(), mapInfo, t, n, i)
        {
          UnseenStep(K(), mapInfo, t, n, i);
          if vvTried[n][i] != -1 {
            if vvTried[n][i] !in setTried {
              BadTriedSlot(K(), mapInfo, t, n, i);
              return -11, setTried;
            }
            UnseenIsTried(K(), mapInfo, t, n, i);
            if K().triedBucket(mapInfo[vvTried[n][i]].service) != n {
              BadTriedSlot(K(), mapInfo, t, n, i);
              return -17, setTried;
            }
            if K().position(false, n, mapInfo[vvTried[n][i]].service) != i {
              BadTriedSlot(K(), mapInfo, t, n, i);
              return -18, setTried;
            }
            setTried := setTried - {vvTried[n][i]};
          }
        }
        UnseenRow(K(), mapInfo, t, n);
      }
      AllSeen(K(), mapInfo, t);
      err := 0;
    }

    /** The third loop of `Check_`: tests every new slot, counting down the references found. */
    method CheckNew(refs: map<int, int>) returns (err: int, mapNew: map<int, int>)
      requires Shaped(vvNew[..], NEW_BUCKET_COUNT) && -1 !in mapInfo && refs == RefCounts(mapInfo)
      requires forall id <- mapInfo :: if mapInfo[id].fInTried then mapInfo[id].nRefCount == 0 else mapInfo[id].nRefCount > 0
      ensures err == 0 && mapNew == map[] <==> NewTable(K(), mapInfo, vvNew[..])
    {
      hide Keyed, Remaining, NewTable, WithinCounts;
      mapNew := refs;
      ghost var t := vvNew[..];
      RemainingStart(K(), mapInfo, t);
      for n := 0 to NEW_BUCKET_COUNT
        invariant forall b, p :: 0 <= b < n && 0 <= p < |t[b]| && t[b][p] != -1 ==>
                                   t[b][p] in mapInfo && p == K().position(true, b, mapInfo[t[b][p]].service)
        invariant mapNew == Remaining(K(), mapInfo, t, n, 0) && WithinCounts(K(), mapInfo, t, n, 0)
      {
        for i := 0 to BUCKET_SIZE
          invariant forall b, p :: 0 <= b < n && 0 <= p < |t[b]| && t[b][p] != -1 ==>
                                     t[b][p] in mapInfo && p == K().position(true, b, mapInfo[t[b][p]].service)
          invariant forall p :: 0 <= p < i && t[n][p] != -1 ==>
                                  t[n][p] in mapInfo && p == K().position(true, n, mapInfo[t[n][p]].service)
          invariant mapNew == Remaining(K(), mapInfo, t, n, i) && WithinCounts(K(), mapInfo, t, n, i)
        {
          RemainingIsNew(K(), mapInfo, t, n, i);
          if vvNew[n][i] != -1 {
            if vvNew[n][i] !in mapNew {
              BadNewSlot(K(), mapInfo, t, n, i);
              return -12, mapNew;
            }
            if K().position(true, n, mapInfo[vvNew[n][i]].service) != i {
              BadNewSlot(K(), mapInfo, t, n, i);
              return -19, mapNew;
            }
            RemainingStep(K(), mapInfo, t, n, i);
            mapNew := mapNew[vvNew[n][i] := mapNew[vvNew[n][i]] - 1];
            if mapNew[vvNew[n][i]] == 0 {
              mapNew := mapNew - {vvNew[n][i]};
            }
          } else {
            RemainingStep(K(), mapInfo, t, n, i);
          }
        }
        RemainingRow(K(), mapInfo, t, n);
      }
      NothingRemains(K(), mapInfo, t);
      err := 0;
    }

    /** The consistency check of debug builds; 0 means consistent. */
    method Check_() returns (err: int)
      requires Shaped(vvTried[..], TRIED_BUCKET_COUNT) && Shaped(vvNew[..], NEW_BUCKET_COUNT) && -1 !in mapInfo
      modifies this`mapAddr
      ensures err == 0 <==> old(Checked(Looked(T()), nKey))
      ensures err == 0 ==> (old(Valid()) <==> old(vvTried != vvNew && IdsIssued(T()) && NoStaleAddress(T()) && !Unindexed(T(), 0)))
      ensures mapAddr == if |vRandom| == nTried + nNew then WithZeros(old(mapAddr), old(Missed(T()))) else old(mapAddr)
    {
      hide Keyed, TriedTable, NewTable, EntryChecked, Missed, WithZeros;
      ghost var t := T();
      if |vRandom| != nTried + nNew {
        return -7;
      }
      var setTried, mapNew;
      err, setTried, mapNew := CheckEntries();
      if err != 0 {
        return;
      }
      EntriesHaveRefs(Looked(t));
      SameSize(mapInfo);
      if |setTried| != nTried {
        return -9;
      }
      if |mapNew| != nNew {
        return -10;
      }
      err, setTried := CheckTried(setTried);
      if err != 0 {
        return;
      }
      err, mapNew := CheckNew(mapNew);
      if err != 0 {
        return;
      }
      if setTried != {} {
        return -13;
      }
      if mapNew != map[] {
        return -15;
      }
      if nKey == 0 {
        return -16;
      }
      PassingIsConsistent(t, nKey);
      return 0;
    }
  }

  /** One call on the manager. */
  datatype Call =
    | Add(addr: Address, source: NetAddr, nTimePenalty: int, nNow: int)
    | Good(service: Service, nTime: int)
    | Attempt(service: Service, fCountFailure: bool, nTime: int)
    | Connected(service: Service, nTime: int)
    | SetServices(service: Service, nServices: set<nat>)
    | GetAddr(nNow: int)
  {
    predicate Timely() {
      match this
      case Good(_, nTime) => nTime > 0
      case Attempt(_, _, nTime) => nTime >= 0
      case _ => true
    }
  }

  /**
   Runs any sequence of calls on a new manager, with the debug check after each:
   whatever the calls, the keyed hash and the random draws, the invariant holds,
   and with times as a clock gives them the check passes.
   */
  method RunChecked(env: Env, key: nat, calls: seq<Call>) returns (m: AddrManager, errs: seq<int>)
    ensures m.Valid() && |errs| == |calls|
    ensures key != 0 && (forall c <- calls :: c.Timely()) ==> forall e <- errs :: e == 0
  {
    hide Consistent, Times, Checked, Keyed;
    m := new AddrManager(env, key);
    errs := [];
    for i := 0 to |calls|
      invariant m.Valid() && m.nKey == key && fresh(m) && fresh(m.vvTried) && fresh(m.vvNew)
      invariant |errs| == i
      invariant key != 0 && (forall c <- calls :: c.Timely()) ==> Times(m.mapInfo) && forall e <- errs :: e == 0
    {
      assert calls[i] in calls;
      Perform(m, calls[i]);
      Shape(m.T(), {}, {});
      if key != 0 && Times(m.mapInfo) {
        ConsistentIsChecked(m.T(), key);
      }
      NothingMissed(m.T());
      var err := m.Check_();
      errs := errs + [err];
    }
  }

  /** Any one call. */
  method Perform(m: AddrManager, call: Call)
    requires m.Valid()
    modifies m, m.vvTried, m.vvNew
    ensures m.Valid() && m.nKey == old(m.nKey)
    ensures call.Timely() && old(Times(m.mapInfo)) ==> Times(m.mapInfo)
  {
    hide Consistent, Times, Announced, MovedToTried, Keyed;
    match call {
      case Add(addr, source, penalty, nNow) => var _ := m.Add_(addr, source, penalty, nNow);
      case Good(service, nTime) => m.Good_(service, nTime);
      case Attempt(service, fCountFailure, nTime) => m.Attempt_(service, fCountFailure, nTime);
      case Connected(service, nTime) => m.Connected_(service, nTime);
      case SetServices(service, nServices) => m.SetServices_(service, nServices);
      case GetAddr(nNow) =>
        ghost var was := m.mapInfo;
        var _ := m.GetAddr_(nNow);
        if Times(was) {
          SameTimes(was, m.mapInfo);
        }
    }
  }
}
