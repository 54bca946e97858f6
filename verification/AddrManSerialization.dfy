/**
 Saving the address manager and loading it again.  Ids, positions in the random
 order and memory-only fields are not saved; everything else comes back.
 */
module AddrManSerialization {
  import opened AddrMan

  const KEY_SIZE := 32
  const BIT_30 := 0x4000_0000

  /** `n ^ (1 << 30)` */
  function XorBit30(n: int): (r: int) {
    if n / BIT_30 % 2 == 1 then n - BIT_30 else n + BIT_30
  }

  /** The saved part of an entry. */
  datatype Saved = Saved(
    service: Service, nServices: set<nat>, nTime: int, source: NetAddr, nLastSuccess: int, nAttempts: int)

  function Save(info: AddrInfo): Saved {
    Saved(info.service, info.nServices, info.nTime, info.source, info.nLastSuccess, info.nAttempts)
  }

  function Load(s: Saved): AddrInfo {
    AddrInfo(s.service, s.nServices, s.nTime, s.source, 0, 0, s.nLastSuccess, s.nAttempts, 0, false, -1)
  }

  /** The stream: header fields, the new then the tried entries, and the indexes in each new bucket. */
  datatype PeersFile = PeersFile(
    nVersion: nat, nKeySize: nat, nKey: nat, nNew: int, nTried: int, nUBuckets: int,
    infos: seq<Saved>, buckets: seq<seq<int>>)

  /** `all` lists every id once, the `n` new ones first. */
  ghost predicate Lists(m: Infos, all: seq<int>, n: nat) {
    && n <= |all|
    && (forall i, j :: 0 <= i < j < |all| ==> all[i] != all[j])
    && (forall i :: 0 <= i < |all| ==> all[i] in m && m[all[i]].fInTried == (i >= n))
    && (forall id <- m :: id in all)
  }

  /** The indexes, in `all`, of the ids in a bucket. */
  ghost predicate SavedRow(all: seq<int>, row: seq<int>, saved: seq<int>) {
    && (forall j :: 0 <= j < |saved| ==> 0 <= saved[j] < |all| && all[saved[j]] in row)
    && (forall i, j :: 0 <= i < j < |saved| ==> saved[i] != saved[j])
    && (forall id <- row :: id != -1 ==> exists j :: 0 <= j < |saved| && 0 <= saved[j] < |all| && all[saved[j]] == id)
  }

  /** The file holds the state `t` with its ids in the order `all`. */
  ghost predicate Holds(file: PeersFile, t: Tables, nKey: nat, all: seq<int>, n: nat) {
    && Lists(t.infos, all, n) && n == t.nNew && |all| - n == t.nTried
    && file.nVersion == 1 && file.nKeySize == KEY_SIZE && file.nKey == nKey
    && file.nNew == t.nNew && file.nTried == t.nTried && file.nUBuckets == XorBit30(NEW_BUCKET_COUNT)
    && |file.infos| == |all| && (forall i :: 0 <= i < |all| ==> file.infos[i] == Save(t.infos[all[i]]))
    && |file.buckets| == NEW_BUCKET_COUNT == |t.news|
    && forall b :: 0 <= b < NEW_BUCKET_COUNT ==> SavedRow(all, t.news[b], file.buckets[b])
  }

  /** `ids` lists the members of `s` in ascending order. */
  ghost predicate Enumerates(ids: seq<int>, s: set<int>) {
    && (forall i, j :: 0 <= i < j < |ids| ==> ids[i] < ids[j])
    && (forall id :: id in ids <==> id in s)
    && |ids| == |s|
  }

  lemma EnumerateMore(ids: seq<int>, s: set<int>, id: int)
    requires Enumerates(ids, s) && Before(s, {id})
    ensures Enumerates(ids + [id], s + {id})
  {
    var more := ids + [id];
    assert id !in s;
    forall i, j | 0 <= i < j < |more| ensures more[i] < more[j] {
      assert more[i] in ids;
    }
  }

  ghost predicate Before(s: set<int>, t: set<int>) {
    forall x <- s, y <- t :: x < y
  }

  lemma RoomForOneMore(part: set<int>, whole: set<int>, id: int)
    requires part <= whole && id in whole && id !in part
    ensures |part| < |whole|
  {
    assert |whole - part| > 0 by {
      assert id in whole - part;
    }
    assert whole == part + (whole - part);
  }

  /** `infos` are the entries of `ids`, and `index` tells where each is. */
  ghost predicate SavedAs(m: Infos, ids: seq<int>, infos: seq<Saved>, index: map<int, int>) {
    && |infos| == |ids|
    && forall i :: 0 <= i < |ids| ==> ids[i] in m && infos[i] == Save(m[ids[i]]) && ids[i] in index && index[ids[i]] == i
  }

  lemma SaveOneMore(m: Infos, ids: seq<int>, infos: seq<Saved>, index: map<int, int>, id: int)
    requires SavedAs(m, ids, infos, index) && id in m && id !in ids
    ensures SavedAs(m, ids, infos, index[id := |ids|])
    ensures SavedAs(m, ids + [id], infos + [Save(m[id])], index[id := |ids|])
  {
  }

  /** `infos` are the entries of `whole` in id order. */
  ghost predicate SavedWhole(m: Infos, whole: set<int>, ids: seq<int>, infos: seq<Saved>, index: map<int, int>) {
    Enumerates(ids, whole) && SavedAs(m, ids, infos, index)
  }

  /** One pass over `mapInfo` in id order, saving the tried or the new entries, which are those in `whole`. */
  method SaveEntries(m: Infos, tried: bool, limit: int, ghost whole: set<int>) returns (infos: seq<Saved>, index: map<int, int>)
    requires limit == |whole| && whole <= m.Keys
    requires forall id <- m :: id in whole <==> if tried then m[id].fInTried else m[id].nRefCount != 0
    ensures exists ids :: SavedWhole(m, whole, ids, infos, index)
  {
    hide SavedAs, Enumerates, Before, IsMin;
    infos, index := [], map[];
    ghost var ids := [];
    var todo, nIds := m.Keys, 0;
    NothingSaved(m, whole);
    while todo != {}
      invariant todo <= m.Keys && nIds == |ids|
      invariant Enumerates(ids, whole - todo) && Before(whole - todo, todo) && SavedAs(m, ids, infos, index)
      decreases todo
    {
      var id := Smallest(todo);
      SmallestMember(todo, id);
      EnumerateNext(ids, whole, todo, id);
      SaveOneMore(m, ids, infos, index, id);
      index := index[id := nIds];
      if (if tried then m[id].fInTried else m[id].nRefCount != 0) {
        assert nIds != limit;
        infos := infos + [Save(m[id])];
        ids := ids + [id];
        nIds := nIds + 1;
      }
      todo := todo - {id};
    }
    assert whole - todo == whole;
    assert SavedWhole(m, whole, ids, infos, index);
  }

  lemma SmallestMember(ids: set<int>, id: int)
    requires IsMin(ids, id)
    ensures id in ids
  {
  }

  lemma EnumeratedSize(ids: seq<int>, s: set<int>)
    requires Enumerates(ids, s)
    ensures |ids| == |s|
  {
  }

  lemma EnumerateNext(ids: seq<int>, whole: set<int>, todo: set<int>, id: int)
    requires Enumerates(ids, whole - todo) && Before(whole - todo, todo) && IsMin(todo, id)
    ensures id !in ids
    ensures id in whole ==> |ids| < |whole| && Enumerates(ids + [id], whole - (todo - {id}))
    ensures id !in whole ==> Enumerates(ids, whole - (todo - {id}))
    ensures Before(whole - (todo - {id}), todo - {id})
  {
    if id in whole {
      RoomForOneMore(whole - todo, whole, id);
      EnumerateMore(ids, whole - todo, id);
      assert whole - (todo - {id}) == whole - todo + {id};
    } else {
      assert whole - (todo - {id}) == whole - todo;
    }
  }

  lemma NothingSaved(m: Infos, whole: set<int>)
    requires whole <= m.Keys
    ensures SavedAs(m, [], [], map[]) && Enumerates([], whole - m.Keys) && Before(whole - m.Keys, m.Keys)
  {
    assert whole - m.Keys == {};
  }

  /** `index` gives the place of every id in the row. */
  ghost predicate Indexed(all: seq<int>, row: seq<int>, index: map<int, int>) {
    && (forall p :: 0 <= p < |row| && row[p] != -1 ==> row[p] in index && 0 <= index[row[p]] < |all| && all[index[row[p]]] == row[p])
    && (forall p, q :: 0 <= p < q < |row| && row[p] == row[q] ==> row[p] == -1)
  }

  method SaveRow(row: seq<int>, index: map<int, int>, ghost all: seq<int>) returns (saved: seq<int>)
    requires Indexed(all, row, index)
    ensures SavedRow(all, row, saved)
  {
    saved := [];
    for i := 0 to |row|
      invariant forall j :: 0 <= j < |saved| ==> 0 <= saved[j] < |all| && all[saved[j]] in row[..i] && all[saved[j]] != -1
      invariant forall j, k :: 0 <= j < k < |saved| ==> saved[j] != saved[k]
      invariant forall p :: 0 <= p < i && row[p] != -1 ==> index[row[p]] in saved
    {
      if row[i] != -1 {
        saved := saved + [index[row[i]]];
      }
    }
    assert row[..|row|] == row;
    forall id <- row | id != -1 ensures exists j :: 0 <= j < |saved| && 0 <= saved[j] < |all| && all[saved[j]] == id {
      var p :| 0 <= p < |row| && row[p] == id;
      var j :| 0 <= j < |saved| && saved[j] == index[row[p]];
    }
  }

  /** In a consistent state, the rows of the new table are indexed by the order of the new ids. */
  lemma RowsIndexed(t: Tables, news: seq<int>, all: seq<int>, infos: seq<Saved>, index: map<int, int>, b: nat)
    requires Consistent(t, {}, {}) && Enumerates(news, NewIds(t.infos, {})) && SavedAs(t.infos, news, infos, index)
    requires news <= all && b < NEW_BUCKET_COUNT
    ensures Indexed(all, t.news[b], index)
  {
    hide Consistent;
    Shape(t, {}, {});
    forall p | 0 <= p < |t.news[b]| && t.news[b][p] != -1
      ensures t.news[b][p] in index && 0 <= index[t.news[b][p]] < |all| && all[index[t.news[b][p]]] == t.news[b][p]
    {
      NewHolder(t, b, p, {}, {});
      assert t.news[b][p] in news;
    }
    OncePerRow(t, b);
  }

  lemma OncePerRow(t: Tables, b: nat)
    requires Consistent(t, {}, {}) && b < NEW_BUCKET_COUNT
    ensures forall p, q :: 0 <= p < q < |t.news[b]| && t.news[b][p] == t.news[b][q] ==> t.news[b][p] == -1
  {
  }

  lemma TablesFacts(t: Tables)
    requires Consistent(t, {}, {})
    ensures t.nNew == |NewIds(t.infos, {})| && t.nTried == |TriedIds(t.infos)|
    ensures forall id <- t.infos :: !t.infos[id].fInTried <==> t.infos[id].nRefCount != 0
  {
  }

  lemma ListsAll(m: Infos, news: seq<int>, trieds: seq<int>, newIds: set<int>, triedIds: set<int>)
    requires Enumerates(news, newIds) && Enumerates(trieds, triedIds)
    requires SplitIds(m, newIds, triedIds)
    ensures Lists(m, news + trieds, |news|)
  {
    hide SplitIds, Enumerates;
    var all := news + trieds;
    forall i | 0 <= i < |all| ensures all[i] in m && m[all[i]].fInTried == (i >= |news|) {
      if i < |news| {
        EnumeratedMember(news, newIds, i);
        WhichIds(m, newIds, triedIds, news[i]);
      } else {
        EnumeratedMember(trieds, triedIds, i - |news|);
        WhichIds(m, newIds, triedIds, trieds[i - |news|]);
      }
    }
    forall i, j | 0 <= i < j < |all| ensures all[i] != all[j] {
      OnceEach(m, news, trieds, newIds, triedIds, i, j);
    }
    forall id <- m ensures id in all {
      WhichIds(m, newIds, triedIds, id);
      EnumeratesAll(news, newIds, id);
      EnumeratesAll(trieds, triedIds, id);
    }
  }

  ghost predicate SplitIds(m: Infos, newIds: set<int>, triedIds: set<int>) {
    && newIds <= m.Keys && triedIds <= m.Keys
    && forall id <- m :: (id in triedIds <==> m[id].fInTried) && (id in newIds <==> !m[id].fInTried)
  }

  lemma WhichIds(m: Infos, newIds: set<int>, triedIds: set<int>, id: int)
    requires SplitIds(m, newIds, triedIds)
    ensures id in m ==> (id in triedIds <==> m[id].fInTried) && (id in newIds <==> !m[id].fInTried)
    ensures id in newIds || id in triedIds ==> id in m
  {
  }

  lemma EnumeratesAll(ids: seq<int>, s: set<int>, id: int)
    requires Enumerates(ids, s)
    ensures id in s ==> id in ids
  {
  }

  lemma OnceEach(m: Infos, news: seq<int>, trieds: seq<int>, newIds: set<int>, triedIds: set<int>, i: nat, j: nat)
    requires Enumerates(news, newIds) && Enumerates(trieds, triedIds) && SplitIds(m, newIds, triedIds)
    requires i < j < |news + trieds|
    ensures (news + trieds)[i] != (news + trieds)[j]
  {
    if i < |news| <= j {
      EnumeratedMember(news, newIds, i);
      EnumeratedMember(trieds, triedIds, j - |news|);
      WhichIds(m, newIds, triedIds, news[i]);
      WhichIds(m, newIds, triedIds, trieds[j - |news|]);
    }
  }

  lemma EnumeratedMember(ids: seq<int>, s: set<int>, i: nat)
    requires Enumerates(ids, s) && i < |ids|
    ensures ids[i] in s
  {
    assert ids[i] in ids;
  }

  /** Writes the whole state; its two counter assertions never fire. */
  method Serialize(m: AddrManager) returns (file: PeersFile)
    requires m.Valid()
    ensures exists all :: Holds(file, m.T(), m.nKey, all, m.nNew)
  {
    hide Consistent, Keyed, SavedAs, Enumerates, SavedRow, Lists;
    TablesFacts(m.T());
    IdsAreKeys(m.mapInfo);
    var newInfos, mapUnkIds := SaveEntries(m.mapInfo, false, m.nNew, NewIds(m.mapInfo, {}));
    var triedInfos, mapTriedIds := SaveEntries(m.mapInfo, true, m.nTried, TriedIds(m.mapInfo));
    ghost var news :| SavedWhole(m.mapInfo, NewIds(m.mapInfo, {}), news, newInfos, mapUnkIds);
    ghost var trieds :| SavedWhole(m.mapInfo, TriedIds(m.mapInfo), trieds, triedInfos, mapTriedIds);
    ghost var all := news + trieds;
    EnumeratedSize(news, NewIds(m.mapInfo, {}));
    EnumeratedSize(trieds, TriedIds(m.mapInfo));
    ListsAll(m.mapInfo, news, trieds, NewIds(m.mapInfo, {}), TriedIds(m.mapInfo));
    SavedBoth(m.mapInfo, news, trieds, newInfos, triedInfos, mapUnkIds, mapTriedIds);
    var buckets := [];
    for bucket := 0 to NEW_BUCKET_COUNT
      invariant |buckets| == bucket && forall b :: 0 <= b < bucket ==> SavedRow(all, m.vvNew[b], buckets[b])
    {
      RowsIndexed(m.T(), news, all, newInfos, mapUnkIds, bucket);
      var row := SaveRow(m.vvNew[bucket], mapUnkIds, all);
      buckets := buckets + [row];
    }
    file := PeersFile(1, KEY_SIZE, m.nKey, m.nNew, m.nTried, XorBit30(NEW_BUCKET_COUNT), newInfos + triedInfos, buckets);
    assert Holds(file, m.T(), m.nKey, all, m.nNew);
  }

  lemma IdsAreKeys(m: Infos)
    ensures SplitIds(m, NewIds(m, {}), TriedIds(m))
  {
  }

  lemma SavedBoth(m: Infos, news: seq<int>, trieds: seq<int>, newInfos: seq<Saved>, triedInfos: seq<Saved>, newIndex: map<int, int>, triedIndex: map<int, int>)
    requires SavedAs(m, news, newInfos, newIndex) && SavedAs(m, trieds, triedInfos, triedIndex)
    ensures |newInfos + triedInfos| == |news + trieds|
    ensures forall i :: 0 <= i < |news + trieds| ==> (news + trieds)[i] in m && (newInfos + triedInfos)[i] == Save(m[(news + trieds)[i]])
  {
  }

  // ------------------------------------------------------- what loading does to the state

  ghost predicate Open(u: Tables) {
    Shaped(u.tried, TRIED_BUCKET_COUNT) && Shaped(u.news, NEW_BUCKET_COUNT)
  }

  /** The saved buckets can be used. */
  predicate Usable(file: PeersFile) {
    file.nVersion == 1 && BucketCount(file) == NEW_BUCKET_COUNT
  }

  function BucketCount(file: PeersFile): int {
    if file.nVersion != 0 then XorBit30(file.nUBuckets) else file.nUBuckets
  }

  function AtLeastZero(n: int): nat {
    if n < 0 then 0 else n
  }

  /** What ends in an exception: a header out of range, or a file that is too short for its header. */
  predicate Refused(file: PeersFile) {
    || file.nKeySize != KEY_SIZE
    || file.nNew > NEW_BUCKET_COUNT * BUCKET_SIZE || file.nTried > TRIED_BUCKET_COUNT * BUCKET_SIZE
    || |file.infos| < AtLeastZero(file.nNew) + AtLeastZero(file.nTried)
    || |file.buckets| < BucketCount(file)
  }

  /** A reference from bucket `b`, if the slot is free. */
  ghost function TryLink(u: Tables, b: nat, id: int): (v: Tables)
    requires Open(u) && b < NEW_BUCKET_COUNT && id in u.infos
    ensures Open(v)
  {
    var p := u.k.position(true, b, u.infos[id].service);
    if u.news[b][p] == -1 then Linked(u, b, p, id) else u
  }

  /** A new entry; without usable buckets it gets a reference by its source at once. */
  ghost function NewStep(u: Tables, s: Saved, usable: bool): (v: Tables)
    requires Open(u)
    ensures Open(v)
  {
    var v := Created(u, Load(s));
    if usable then v else TryLink(v, u.k.newBucket(s.service, s.source), u.nIdCount)
  }

  /** A tried entry, unless its slot is taken. */
  ghost function TriedStep(u: Tables, s: Saved): (v: Tables)
    requires Open(u)
    ensures Open(v)
  {
    var b := u.k.triedBucket(s.service);
    if u.tried[b][u.k.position(false, b, s.service)] == -1 then LoadedNext(u, Load(s).(fInTried := true)) else u
  }

  /** A saved index, unless it is out of range, its slot is taken or the entry has enough references. */
  ghost function IndexStep(u: Tables, b: nat, index: int, n: int): (v: Tables)
    requires Open(u) && b < NEW_BUCKET_COUNT
    ensures Open(v)
  {
    if 0 <= index < n && index in u.infos && u.infos[index].nRefCount < NEW_BUCKETS_PER_ADDRESS then TryLink(u, b, index) else u
  }

  ghost function News(u: Tables, infos: seq<Saved>, n: nat, usable: bool): (v: Tables)
    requires Open(u) && n <= |infos|
    ensures Open(v)
  {
    if n == 0 then u else NewStep(News(u, infos, n - 1, usable), infos[n - 1], usable)
  }

  ghost function Trieds(u: Tables, infos: seq<Saved>, from: nat, n: nat): (v: Tables)
    requires Open(u) && from + n <= |infos|
    ensures Open(v)
  {
    if n == 0 then u else TriedStep(Trieds(u, infos, from, n - 1), infos[from + n - 1])
  }

  ghost function Row(u: Tables, b: nat, row: seq<int>, q: nat, n: int): (v: Tables)
    requires Open(u) && b < NEW_BUCKET_COUNT && q <= |row|
    ensures Open(v)
  {
    if q == 0 then u else IndexStep(Row(u, b, row, q - 1, n), b, row[q - 1], n)
  }

  ghost function Rows(u: Tables, buckets: seq<seq<int>>, b: nat, n: int): (v: Tables)
    requires Open(u) && b <= |buckets| && b <= NEW_BUCKET_COUNT
    ensures Open(v)
  {
    if b == 0 then u else Row(Rows(u, buckets, b - 1, n), b - 1, buckets[b - 1], |buckets[b - 1]|, n)
  }

  /** All entries of a file, without the references from its buckets. */
  ghost function EntriesOf(k: Placement, file: PeersFile): (v: Tables)
    requires !Refused(file)
    ensures Open(v)
  {
    var n, m := AtLeastZero(file.nNew), AtLeastZero(file.nTried);
    var u := Trieds(News(NoEntries(k), file.infos, n, Usable(file)).(nIdCount := file.nNew), file.infos, n, m);
    u.(nNew := file.nNew, nTried := file.nTried - (m - (u.nIdCount - file.nNew)))
  }

  /** The state loaded from a file, before entries without references go. */
  ghost function FileLoaded(k: Placement, file: PeersFile): (v: Tables)
    requires !Refused(file)
    ensures Open(v)
  {
    var u := EntriesOf(k, file);
    if Usable(file) then Rows(u, file.buckets, NEW_BUCKET_COUNT, file.nNew) else u
  }

  /** The entries that loading drops at the end. */
  ghost function Prunable(m: Infos): set<int> {
    set id | id in m && !m[id].fInTried && m[id].nRefCount == 0
  }

  ghost function AddressesOf(m: Infos, ids: set<int>): set<NetAddr> {
    set id | id in ids && id in m :: m[id].service.addr
  }

  /** `v` is `u` without those entries; with each goes whatever its address is indexed as. */
  ghost predicate PrunedFrom(u: Tables, v: Tables) {
    && v == u.(infos := v.infos, addrs := v.addrs, random := v.random, nNew := u.nNew - |Prunable(u.infos)|)
    && SameBut(u.infos, v.infos, Prunable(u.infos)) && v.infos.Keys !! Prunable(u.infos)
    && v.addrs == u.addrs - AddressesOf(u.infos, Prunable(u.infos))
    && (RandomIndex(u.infos, u.random) ==> RandomIndex(v.infos, v.random))
    && (Prunable(u.infos) == {} ==> v == u)
  }

  // -------------------------------------------------------------------- loading, in place

  method LoadNew(m: AddrManager, saved: Saved, n: int, usable: bool)
    requires m.vvTried != m.vvNew && Open(m.T())
    modifies m`mapInfo, m`mapAddr, m`vRandom, m.vvNew
    ensures m.T().(nIdCount := n + 1) == NewStep(old(m.T()).(nIdCount := n), saved, usable)
  {
    hide Keyed;
    var info := Load(saved);
    m.mapAddr := m.mapAddr[info.service.addr := n];
    m.mapInfo := m.mapInfo[n := info.(nRandomPos := |m.vRandom|)];
    m.vRandom := m.vRandom + [n];
    assert m.T().(nIdCount := n + 1) == Created(old(m.T()).(nIdCount := n), Load(saved));
    if !usable {
      var nUBucket := m.K().newBucket(info.service, info.source);
      var nUBucketPos := m.K().position(true, nUBucket, info.service);
      if m.vvNew[nUBucket][nUBucketPos] == -1 {
        Relink(m, nUBucket, nUBucketPos, n);
      }
    }
  }

  /** One reference. */
  method Relink(m: AddrManager, bucket: nat, pos: nat, index: int)
    requires m.vvTried != m.vvNew && bucket < m.vvNew.Length && pos < |m.vvNew[bucket]| && index in m.mapInfo
    modifies m`mapInfo, m.vvNew
    ensures m.T() == Linked(old(m.T()), bucket, pos, index)
  {
    m.vvNew[bucket] := m.vvNew[bucket][pos := index];
    m.mapInfo := m.mapInfo[index := m.mapInfo[index].(nRefCount := m.mapInfo[index].nRefCount + 1)];
  }

  method LoadTried(m: AddrManager, saved: Saved) returns (lost: bool)
    requires m.vvTried != m.vvNew && Open(m.T())
    modifies m`mapInfo, m`mapAddr, m`vRandom, m`nIdCount, m.vvTried
    ensures m.T() == TriedStep(old(m.T()), saved)
    ensures m.nIdCount == old(m.nIdCount) + if lost then 0 else 1
  {
    hide Keyed;
    var info := Load(saved);
    var nKBucket := m.K().triedBucket(info.service);
    var nKBucketPos := m.K().position(false, nKBucket, info.service);
    if m.vvTried[nKBucket][nKBucketPos] == -1 {
      info := info.(nRandomPos := |m.vRandom|, fInTried := true);
      m.vRandom := m.vRandom + [m.nIdCount];
      m.mapInfo := m.mapInfo[m.nIdCount := info];
      m.mapAddr := m.mapAddr[info.service.addr := m.nIdCount];
      m.vvTried[nKBucket] := m.vvTried[nKBucket][nKBucketPos := m.nIdCount];
      m.nIdCount := m.nIdCount + 1;
      return false;
    }
    return true;
  }

  /** One saved index of a bucket. */
  method LoadIndex(m: AddrManager, bucket: nat, nIndex: int, usable: bool)
    requires m.vvTried != m.vvNew && Open(m.T()) && (usable ==> bucket < NEW_BUCKET_COUNT)
    requires forall id :: 0 <= id < m.nNew ==> id in m.mapInfo
    modifies m`mapInfo, m.vvNew
    ensures m.T() == if usable then IndexStep(old(m.T()), bucket, nIndex, m.nNew) else old(m.T())
    ensures m.mapInfo.Keys == old(m.mapInfo.Keys)
  {
    hide Keyed;
    if nIndex >= 0 && nIndex < m.nNew {
      var nUBucketPos := m.K().position(true, bucket, m.mapInfo[nIndex].service);
      if usable && m.vvNew[bucket][nUBucketPos] == -1 && m.mapInfo[nIndex].nRefCount < NEW_BUCKETS_PER_ADDRESS {
        Relink(m, bucket, nUBucketPos, nIndex);
      }
    }
  }

  /** The saved indexes of a bucket. */
  method LoadRow(m: AddrManager, bucket: nat, row: seq<int>, usable: bool)
    requires m.vvTried != m.vvNew && Open(m.T()) && (usable ==> bucket < NEW_BUCKET_COUNT)
    requires forall id :: 0 <= id < m.nNew ==> id in m.mapInfo
    modifies m`mapInfo, m.vvNew
    ensures m.T() == if usable then Row(old(m.T()), bucket, row, |row|, m.nNew) else old(m.T())
    ensures m.mapInfo.Keys == old(m.mapInfo.Keys)
  {
    hide Keyed, IndexStep;
    for n := 0 to |row|
      modifies m`mapInfo, m.vvNew
      invariant Open(m.T()) && m.mapInfo.Keys == old(m.mapInfo.Keys)
      invariant m.T() == if usable then Row(old(m.T()), bucket, row, n, m.nNew) else old(m.T())
    {
      LoadIndex(m, bucket, row[n], usable);
    }
  }

  /** All buckets; too few of them in the file are an exception. */
  method LoadRows(m: AddrManager, file: PeersFile, nUBuckets: int) returns (thrown: bool)
    requires m.vvTried != m.vvNew && Open(m.T()) && nUBuckets == BucketCount(file)
    requires forall id :: 0 <= id < m.nNew ==> id in m.mapInfo
    modifies m`mapInfo, m.vvNew
    ensures thrown <==> |file.buckets| < nUBuckets
    ensures !thrown ==> m.T() == if Usable(file) then Rows(old(m.T()), file.buckets, NEW_BUCKET_COUNT, m.nNew) else old(m.T())
  {
    hide Keyed, Row, XorBit30;
    var bucket := 0;
    while bucket < nUBuckets
      modifies m`mapInfo, m.vvNew
      invariant 0 <= bucket && (bucket == 0 || bucket <= nUBuckets) && bucket <= |file.buckets|
      invariant Open(m.T()) && m.mapInfo.Keys == old(m.mapInfo.Keys)
      invariant Usable(file) ==> bucket <= NEW_BUCKET_COUNT
      invariant m.T() == if Usable(file) then Rows(old(m.T()), file.buckets, bucket, m.nNew) else old(m.T())
    {
      if bucket == |file.buckets| {
        return true;
      }
      LoadRow(m, bucket, file.buckets[bucket], Usable(file));
      bucket := bucket + 1;
    }
    return false;
  }

  /** The new entries; too few of them in the file are an exception. */
  method LoadNews(m: AddrManager, infos: seq<Saved>, usable: bool) returns (thrown: bool)
    requires m.vvTried != m.vvNew && m.T() == NoEntries(m.K()).(nNew := m.nNew, nTried := m.nTried)
    modifies m`mapInfo, m`mapAddr, m`vRandom, m.vvNew
    ensures thrown <==> |infos| < AtLeastZero(m.nNew)
    ensures !thrown ==> Open(m.T()) && forall id :: 0 <= id < m.nNew ==> id in m.mapInfo
    ensures !thrown ==> Uncounted(m.T(), AtLeastZero(m.nNew)) == News(NoEntries(m.K()), infos, AtLeastZero(m.nNew), usable)
  {
    hide Keyed, NewStep;
    var n := 0;
    ghost var start := NoEntries(m.K());
    while n < m.nNew
      modifies m`mapInfo, m`mapAddr, m`vRandom, m.vvNew
      invariant 0 <= n <= AtLeastZero(m.nNew) && n <= |infos|
      invariant Open(m.T()) && forall id :: 0 <= id < n ==> id in m.mapInfo
      invariant Uncounted(m.T(), n) == News(start, infos, n, usable)
    {
      if n == |infos| {
        return true;
      }
      SameStep(m.T().(nIdCount := n), infos[n], usable);
      LoadNew(m, infos[n], n, usable);
      n := n + 1;
    }
    return false;
  }

  /** The state with the id counter given, apart from the two counters of entries. */
  ghost function Uncounted(u: Tables, nIdCount: int): Tables {
    u.(nIdCount := nIdCount, nNew := 0, nTried := 0)
  }

  /** The tried entries after the first `n`; too few of them in the file are an exception. */
  method LoadTrieds(m: AddrManager, infos: seq<Saved>, n: nat) returns (thrown: bool, nLost: nat)
    requires m.vvTried != m.vvNew && Open(m.T()) && n <= |infos|
    modifies m`mapInfo, m`mapAddr, m`vRandom, m`nIdCount, m.vvTried
    ensures thrown <==> |infos| < n + AtLeastZero(m.nTried)
    ensures old(m.mapInfo).Keys <= m.mapInfo.Keys
    ensures !thrown ==> Open(m.T()) && m.nIdCount - old(m.nIdCount) == AtLeastZero(m.nTried) - nLost
    ensures !thrown ==> Uncounted(m.T(), m.nIdCount) == Trieds(Uncounted(old(m.T()), old(m.nIdCount)), infos, n, AtLeastZero(m.nTried))
  {
    hide Keyed, TriedStep;
    nLost := 0;
    ghost var u := Uncounted(m.T(), m.nIdCount);
    var k := 0;
    while k < m.nTried
      modifies m`mapInfo, m`mapAddr, m`vRandom, m`nIdCount, m.vvTried
      invariant 0 <= k <= AtLeastZero(m.nTried) && n + k <= |infos|
      invariant Open(m.T()) && m.nIdCount - old(m.nIdCount) == k - nLost && old(m.mapInfo).Keys <= m.mapInfo.Keys
      invariant Uncounted(m.T(), m.nIdCount) == Trieds(u, infos, n, k)
    {
      if n + k == |infos| {
        return true, nLost;
      }
      SameTriedStep(m.T(), infos[n + k]);
      var lost := LoadTried(m, infos[n + k]);
      if lost {
        nLost := nLost + 1;
      }
      k := k + 1;
    }
    return false, nLost;
  }

  /** The new entries, then the tried ones. */
  method LoadEntries(m: AddrManager, file: PeersFile) returns (thrown: bool, nLost: nat)
    requires m.vvTried != m.vvNew && m.T() == NoEntries(m.K()).(nNew := file.nNew, nTried := file.nTried)
    modifies m`mapInfo, m`mapAddr, m`vRandom, m`nIdCount, m.vvTried, m.vvNew
    ensures thrown <==> |file.infos| < AtLeastZero(file.nNew) + AtLeastZero(file.nTried)
    ensures !thrown ==> Open(m.T()) && forall id :: 0 <= id < m.nNew ==> id in m.mapInfo
    ensures !thrown && !Refused(file) ==> m.T().(nTried := m.nTried - nLost) == EntriesOf(m.K(), file)
  {
    hide Keyed, News, Trieds, XorBit30;
    nLost := 0;
    thrown := LoadNews(m, file.infos, Usable(file));
    if thrown {
      return;
    }
    m.nIdCount := m.nNew;
    thrown, nLost := LoadTrieds(m, file.infos, AtLeastZero(m.nNew));
  }

  /** The counters take no part in a step. */
  lemma SameStep(u: Tables, s: Saved, usable: bool)
    requires Open(u)
    ensures NewStep(u, s, usable).(nNew := 0, nTried := 0) == NewStep(u.(nNew := 0, nTried := 0), s, usable)
    ensures NewStep(u, s, usable).infos.Keys == u.infos.Keys + {u.nIdCount}
  {
  }

  lemma SameTriedStep(u: Tables, s: Saved)
    requires Open(u)
    ensures TriedStep(u, s).(nNew := 0, nTried := 0) == TriedStep(u.(nNew := 0, nTried := 0), s)
    ensures u.infos.Keys <= TriedStep(u, s).infos.Keys
  {
  }

  /** Drops the entries without references. */
  method Prune(m: AddrManager)
    requires RandomIndex(m.mapInfo, m.vRandom) || Prunable(m.mapInfo) == {}
    modifies m`mapInfo, m`mapAddr, m`vRandom, m`nNew
    ensures PrunedFrom(old(m.T()), m.T())
  {
    hide Keyed, IsMin, Gone, PrunedFrom, RandomIndex;
    ghost var u := m.T();
    ghost var doomed := Prunable(u.infos);
    var todo := m.mapInfo.Keys;
    NothingGone(u);
    assert doomed - todo == {};
    while todo != {}
      modifies m`mapInfo, m`mapAddr, m`vRandom, m`nNew
      invariant todo <= m.mapInfo.Keys && todo <= u.infos.Keys
      invariant Gone(u, doomed - todo, m.T())
      decreases todo
    {
      var id := Smallest(todo);
      MinIsFirst(todo, id);
      var rest := todo - {id};
      GoneFacts(u, doomed - todo, m.T(), id);
      if m.mapInfo[id].fInTried == false && m.mapInfo[id].nRefCount == 0 {
        ghost var v := m.T();
        m.Delete(id, {}, {});
        assert doomed - rest == doomed - todo + {id};
        GoneOne(u, doomed - todo, v, m.T(), id);
        RestStays(v.infos, m.mapInfo, id, todo);
      } else {
        assert doomed - rest == doomed - todo;
      }
      todo := rest;
    }
    assert doomed - todo == doomed;
    AllGone(u, m.T());
  }

  /** Entries `ids` have been dropped. */
  ghost predicate Gone(u: Tables, ids: set<int>, v: Tables) {
    && v == u.(infos := v.infos, addrs := v.addrs, random := v.random, nNew := u.nNew - |ids|)
    && SameBut(u.infos, v.infos, ids) && v.infos.Keys !! ids
    && v.addrs == u.addrs - AddressesOf(u.infos, ids)
    && (RandomIndex(u.infos, u.random) ==> RandomIndex(v.infos, v.random))
    && (ids == {} ==> v == u)
  }

  lemma NothingGone(u: Tables)
    ensures forall ids: set<int> :: ids == {} ==> Gone(u, ids, u)
  {
    assert AddressesOf(u.infos, {}) == {};
    assert u.addrs - {} == u.addrs;
  }

  lemma GoneFacts(u: Tables, ids: set<int>, v: Tables, id: int)
    requires Gone(u, ids, v) && id in v.infos
    ensures id !in ids && id in u.infos && (id in Prunable(v.infos) <==> id in Prunable(u.infos))
    ensures RandomIndex(u.infos, u.random) ==> RandomIndex(v.infos, v.random)
  {
    assert v.infos[id].Facts() == u.infos[id].Facts();
  }

  lemma GoneOne(u: Tables, ids: set<int>, v: Tables, w: Tables, id: int)
    requires Gone(u, ids, v) && id in v.infos
    requires w == v.(infos := w.infos, addrs := v.addrs - {v.infos[id].service.addr}, random := w.random, nNew := v.nNew - 1)
    requires id !in w.infos && SameBut(v.infos, w.infos, {id}) && RandomIndex(w.infos, w.random)
    ensures Gone(u, ids + {id}, w)
  {
    GoneFacts(u, ids, v, id);
    assert v.infos[id].Facts() == u.infos[id].Facts();
    assert v.infos[id].Facts().service == u.infos[id].Facts().service;
    assert AddressesOf(u.infos, ids + {id}) == AddressesOf(u.infos, ids) + {u.infos[id].service.addr};
    assert w.addrs == u.addrs - AddressesOf(u.infos, ids + {id});
    assert SameBut(u.infos, w.infos, ids + {id});
    forall x <- w.infos ensures x !in ids + {id} {
      assert x in v.infos;
    }
  }

  lemma RestStays(m: Infos, m': Infos, id: int, todo: set<int>)
    requires SameBut(m, m', {id}) && todo <= m.Keys
    ensures todo - {id} <= m'.Keys
  {
    forall x <- todo - {id} ensures x in m' {
      assert x in m && x !in {id};
    }
  }

  lemma AllGone(u: Tables, v: Tables)
    requires Gone(u, Prunable(u.infos), v)
    ensures PrunedFrom(u, v)
  {
  }

  // -------------------------------------------------------------------------- loading

  /** The entry loaded at place `i`, before it gets references. */
  ghost function LoadedInfo(t: Tables, all: seq<int>, n: nat, i: nat): AddrInfo
    requires i < |all| && all[i] in t.infos
  {
    Load(Save(t.infos[all[i]])).(fInTried := i >= n, nRandomPos := i)
  }

  /** `u` holds the first `i` entries of `t`, in the order `all`, without references. */
  ghost predicate LoadedUpTo(t: Tables, all: seq<int>, n: nat, i: nat, u: Tables)
    requires i <= |all| && forall j :: 0 <= j < |all| ==> all[j] in t.infos
  {
    && u.k == t.k && u.nIdCount == i == |u.random| && Shaped(u.tried, TRIED_BUCKET_COUNT)
    && (forall j :: j in u.infos <==> 0 <= j < i)
    && (forall j :: 0 <= j < i ==> u.infos[j] == LoadedInfo(t, all, n, j))
    && AddrIndex(u.infos, u.addrs, i) && RandomIndex(u.infos, u.random)
    && TriedTable(u.k, u.infos, u.tried) && NewTable(u.k, u.infos, u.news)
    && Counts(u.infos, if i < n then 0 else i - n, if i < n then i else n, {})
    && Unused(u.news)
  }

  ghost predicate Unused(t: Table) {
    forall b :: 0 <= b < |t| ==> forall p :: 0 <= p < |t[b]| ==> t[b][p] == -1
  }

  ghost function LoadedNext(u: Tables, info: AddrInfo): Tables
    requires Shaped(u.tried, TRIED_BUCKET_COUNT)
  {
    var b := u.k.triedBucket(info.service);
    var p := u.k.position(false, b, info.service);
    Created(u, info).(tried := if info.fInTried then Put(u.tried, b, p, u.nIdCount) else u.tried)
  }

  /** The next entry has an address of its own, and its tried slot is free. */
  lemma NextIsNew(t: Tables, all: seq<int>, n: nat, i: nat, u: Tables)
    requires Consistent(t, {}, {}) && Lists(t.infos, all, n) && i < |all| && LoadedUpTo(t, all, n, i, u)
    ensures var info := LoadedInfo(t, all, n, i);
            && info.service.addr !in u.addrs
            && (info.fInTried ==> var b := u.k.triedBucket(info.service);
                                  u.tried[b][u.k.position(false, b, info.service)] == -1)
  {
    forall a <- u.addrs ensures a != t.infos[all[i]].service.addr {
      var j := u.addrs[a];
      assert u.infos[j] == LoadedInfo(t, all, n, j) && all[j] != all[i];
    }
  }

  lemma CreateTriedKeepsTables(k: Placement, m: Infos, tried: Table, news: Table, id: int, info: AddrInfo)
    requires TriedTable(k, m, tried) && NewTable(k, m, news) && id !in m && id != -1 && -1 !in m
    requires info.nRefCount == 0 && info.fInTried
    requires var b := k.triedBucket(info.service); tried[b][k.position(false, b, info.service)] == -1
    ensures var b := k.triedBucket(info.service);
            TriedTable(k, m[id := info], Put(tried, b, k.position(false, b, info.service), id))
    ensures NewTable(k, m[id := info], news)
  {
    assert Buckets(k, news, info.service, id) == {};
  }

  lemma LoadStep(t: Tables, all: seq<int>, n: nat, i: nat, u: Tables)
    requires Consistent(t, {}, {}) && Lists(t.infos, all, n) && i < |all| && LoadedUpTo(t, all, n, i, u)
    ensures LoadedUpTo(t, all, n, i + 1, LoadedNext(u, LoadedInfo(t, all, n, i)))
  {
    hide Consistent, TriedTable, NewTable, AddrIndex, RandomIndex, Counts, Unused;
    var info := LoadedInfo(t, all, n, i);
    NextIsNew(t, all, n, i, u);
    var v := LoadedNext(u, info);
    CreateKeepsAddrIndex(u, info);
    CreateKeepsRandomIndex(u, info);
    if info.fInTried {
      CreateTriedKeepsTables(u.k, u.infos, u.tried, u.news, i, info);
    } else {
      CreateKeepsTables(u.k, u.infos, u.tried, u.news, i, info);
    }
    CountsAfterEdit(u.infos, v.infos, i, {}, {}, if i < n then 0 else i - n, if i < n then i else n);
    assert v.infos == u.infos[i := info];
  }

  // ------------------------------------------------------ the limits checked on loading

  lemma {:induction false} RowHolds(ids: set<int>, row: seq<int>)
    requires forall id <- ids :: id in row
    ensures |ids| <= |row|
  {
    if row == [] {
      assert forall id :: id !in ids;
      assert ids == {};
    } else {
      var last := row[|row| - 1];
      RowHolds(ids - {last}, row[..|row| - 1]);
      assert |ids| <= |ids - {last}| + |{last}|;
    }
  }

  /** A table has no more ids than slots. */
  lemma {:induction false} TableHolds(ids: set<int>, t: Table, rows: nat)
    requires rows <= |t| && forall b :: 0 <= b < rows ==> |t[b]| == BUCKET_SIZE
    requires forall id <- ids :: exists b :: 0 <= b < rows && id in t[b]
    ensures |ids| <= rows * BUCKET_SIZE
  {
    if rows == 0 {
      assert forall id :: id !in ids;
      assert ids == {};
    } else {
      var here := set id <- ids | id in t[rows - 1];
      RowHolds(here, t[rows - 1]);
      TableHolds(ids - here, t, rows - 1);
      assert ids == here + (ids - here);
    }
  }

  /** Both counters pass the limits that loading checks. */
  lemma WithinLimits(t: Tables)
    requires Consistent(t, {}, {})
    ensures t.nNew <= NEW_BUCKET_COUNT * BUCKET_SIZE && t.nTried <= TRIED_BUCKET_COUNT * BUCKET_SIZE
  {
    var news, trieds := NewIds(t.infos, {}), TriedIds(t.infos);
    forall id <- news ensures exists b :: 0 <= b < NEW_BUCKET_COUNT && id in t.news[b] {
      var b := SomeBucket(t.k, t.infos, t.news, id);
      assert id in t.news[b];
    }
    TableHolds(news, t.news, NEW_BUCKET_COUNT);
    forall id <- trieds ensures exists b :: 0 <= b < TRIED_BUCKET_COUNT && id in t.tried[b] {
      var b := t.k.triedBucket(t.infos[id].service);
      assert t.tried[b][t.k.position(false, b, t.infos[id].service)] in t.tried[b];
    }
    TableHolds(trieds, t.tried, TRIED_BUCKET_COUNT);
  }

  // ------------------------------------------------------------ loading the new buckets

  /** Every used slot of `u` is the same slot of `t`, renamed. */
  ghost predicate PartOf(all: seq<int>, n: nat, whole: Table, part: Table) {
    && Shaped(whole, NEW_BUCKET_COUNT) && Shaped(part, NEW_BUCKET_COUNT) && n <= |all|
    && forall b, p :: 0 <= b < NEW_BUCKET_COUNT && 0 <= p < BUCKET_SIZE && part[b][p] != -1 ==>
                        0 <= part[b][p] < n && whole[b][p] == all[part[b][p]]
  }

  /** All entries are loaded, and some references. */
  ghost predicate Relinked(t: Tables, all: seq<int>, n: nat, u: Tables)
    requires forall j :: 0 <= j < |all| ==> all[j] in t.infos
  {
    && u.k == t.k && u.nIdCount == |all| && n <= |all|
    && (forall j :: j in u.infos <==> 0 <= j < |all|)
    && (forall j :: 0 <= j < |all| ==> u.infos[j] == LoadedInfo(t, all, n, j).(nRefCount := u.infos[j].nRefCount))
    && AddrIndex(u.infos, u.addrs, |all|) && RandomIndex(u.infos, u.random)
    && TriedTable(u.k, u.infos, u.tried) && NewTable(u.k, u.infos, u.news)
    && Counts(u.infos, |all| - n, n, {})
    && PartOf(all, n, t.news, u.news)
  }

  /** The buckets of a loaded entry are among those it was saved from. */
  lemma FewerBuckets(k: Placement, all: seq<int>, n: nat, whole: Table, part: Table, s: Service, b: NewBucketNo, index: nat)
    requires PartOf(all, n, whole, part) && index < n && part[b][k.position(true, b, s)] == -1
    requires whole[b][k.position(true, b, s)] == all[index]
    ensures |Buckets(k, part, s, index)| < |Buckets(k, whole, s, all[index])|
  {
    var some, every := Buckets(k, part, s, index), Buckets(k, whole, s, all[index]);
    forall c <- some ensures c in every {
      assert part[c][k.position(true, c, s)] == index;
    }
    assert b in every - some;
    assert every == some + (every - some);
  }

  lemma RoomForReference(t: Tables, all: seq<int>, n: nat, u: Tables, b: NewBucketNo, index: nat)
    requires Consistent(t, {}, {}) && Lists(t.infos, all, n) && Relinked(t, all, n, u) && index < n
    requires var p := u.k.position(true, b, u.infos[index].service); u.news[b][p] == -1 && t.news[b][p] == all[index]
    ensures u.infos[index].nRefCount < t.infos[all[index]].nRefCount <= NEW_BUCKETS_PER_ADDRESS
  {
    hide Buckets, PartOf, TriedTable, AddrIndex, RandomIndex, Counts;
    var s := u.infos[index].service;
    assert s == t.infos[all[index]].service;
    FewerBuckets(u.k, all, n, t.news, u.news, s, b, index);
  }

  lemma RelinkOneMore(t: Tables, all: seq<int>, n: nat, u: Tables, b: nat, p: nat, index: nat)
    requires Consistent(t, {}, {}) && Lists(t.infos, all, n) && Relinked(t, all, n, u) && index < n
    requires b < NEW_BUCKET_COUNT && p == u.k.position(true, b, u.infos[index].service)
    requires u.news[b][p] == -1 && t.news[b][p] == all[index]
    ensures Relinked(t, all, n, Linked(u, b, p, index))
  {
    hide Consistent, TriedTable, NewTable, AddrIndex, RandomIndex, Counts;
    var v := Linked(u, b, p, index);
    LinkKeepsNewTable(u.k, u.infos, u.news, b, p, index);
    EditKeepsIndexes(u, index, v.infos[index]);
    EditKeepsTables(u.k, u.infos, u.tried, u.news, index, v.infos[index]);
    TweakKeepsCounts(u.infos, index, v.infos[index], {}, |all| - n, n);
  }

  /** The slot of the next saved index is where its id was, and it is still free. */
  lemma NextSlotIsFree(t: Tables, all: seq<int>, n: nat, u: Tables, b: nat, saved: seq<int>, q: nat)
    requires Consistent(t, {}, {}) && Lists(t.infos, all, n) && Relinked(t, all, n, u)
    requires b < NEW_BUCKET_COUNT && SavedRow(all, t.news[b], saved) && q < |saved|
    requires forall p :: 0 <= p < BUCKET_SIZE && u.news[b][p] != -1 ==> u.news[b][p] in saved[..q]
    ensures 0 <= saved[q] < n
    ensures var p := u.k.position(true, b, u.infos[saved[q]].service); u.news[b][p] == -1 && t.news[b][p] == all[saved[q]]
  {
    hide Consistent, TriedTable, NewTable, AddrIndex, RandomIndex, Counts;
    var index := saved[q];
    var at :| 0 <= at < BUCKET_SIZE && t.news[b][at] == all[index];
    NewHolder(t, b, at, {}, {});
    OwnPosition(t, b, at);
    assert forall j :: 0 <= j < q ==> saved[j] != index;
  }

  lemma OwnPosition(t: Tables, b: nat, p: nat)
    requires Consistent(t, {}, {}) && b < NEW_BUCKET_COUNT && p < BUCKET_SIZE && t.news[b][p] in t.infos
    ensures p == t.k.position(true, b, t.infos[t.news[b][p]].service)
  {
  }

  /** Restoring a bucket has reached saved index `q`. */
  ghost predicate InRow(t: Tables, all: seq<int>, n: nat, b: nat, row: seq<int>, saved: seq<int>, q: nat) {
    && |row| == BUCKET_SIZE && q <= |saved|
    && (forall p :: 0 <= p < BUCKET_SIZE && row[p] != -1 ==> row[p] in saved[..q])
    && (forall j :: 0 <= j < q ==> 0 <= saved[j] < |all| && all[saved[j]] in t.infos
                                   && row[t.k.position(true, b, t.infos[all[saved[j]]].service)] == saved[j])
  }

  lemma InRowNext(t: Tables, all: seq<int>, n: nat, b: nat, row: seq<int>, saved: seq<int>, q: nat, p: nat)
    requires InRow(t, all, n, b, row, saved, q) && q < |saved| && 0 <= saved[q] < |all| && all[saved[q]] in t.infos
    requires p == t.k.position(true, b, t.infos[all[saved[q]]].service) && row[p] == -1
    ensures InRow(t, all, n, b, row[p := saved[q]], saved, q + 1)
  {
    assert saved[..q + 1] == saved[..q] + [saved[q]];
    forall j | 0 <= j < q ensures t.k.position(true, b, t.infos[all[saved[j]]].service) != p {
      assert row[t.k.position(true, b, t.infos[all[saved[j]]].service)] != -1;
    }
  }

  /** No used slot is missing. */
  ghost predicate Complete(whole: seq<int>, row: seq<int>) {
    |row| == |whole| && forall p :: 0 <= p < |row| && whole[p] != -1 ==> row[p] != -1
  }

  lemma RowIsComplete(t: Tables, all: seq<int>, n: nat, b: nat, row: seq<int>, saved: seq<int>)
    requires Consistent(t, {}, {}) && b < NEW_BUCKET_COUNT && SavedRow(all, t.news[b], saved)
    requires InRow(t, all, n, b, row, saved, |saved|)
    ensures Complete(t.news[b], row)
  {
    hide Consistent;
    Shape(t, {}, {});
    forall p | 0 <= p < BUCKET_SIZE && t.news[b][p] != -1 ensures row[p] != -1 {
      assert t.news[b][p] in t.news[b];
      var j :| 0 <= j < |saved| && 0 <= saved[j] < |all| && all[saved[j]] == t.news[b][p];
      NewHolder(t, b, p, {}, {});
      OwnPosition(t, b, p);
      assert row[p] == saved[j];
    }
  }

  lemma NextIsRestored(t: Tables, all: seq<int>, n: nat, u: Tables, b: nat, saved: seq<int>, q: nat)
    requires Consistent(t, {}, {}) && Lists(t.infos, all, n) && Relinked(t, all, n, u)
    requires b < NEW_BUCKET_COUNT && SavedRow(all, t.news[b], saved) && q < |saved|
    requires InRow(t, all, n, b, u.news[b], saved, q)
    ensures 0 <= saved[q] < n && saved[q] in u.infos && |u.news[b]| == BUCKET_SIZE
    ensures u.infos[saved[q]].nRefCount < NEW_BUCKETS_PER_ADDRESS
    ensures var p := u.k.position(true, b, u.infos[saved[q]].service);
            u.news[b][p] == -1 && Relinked(t, all, n, Linked(u, b, p, saved[q]))
            && InRow(t, all, n, b, u.news[b][p := saved[q]], saved, q + 1)
  {
    hide Consistent, TriedTable, NewTable, AddrIndex, RandomIndex, Counts;
    NextSlotIsFree(t, all, n, u, b, saved, q);
    var p := u.k.position(true, b, u.infos[saved[q]].service);
    RoomForReference(t, all, n, u, b, saved[q]);
    RelinkOneMore(t, all, n, u, b, p, saved[q]);
    InRowNext(t, all, n, b, u.news[b], saved, q, p);
  }

  // ------------------------------------------------------------------------ the round trip

  /** The same table, with id `all[j]` called `j`. */
  ghost predicate Renamed(all: seq<int>, whole: Table, part: Table, rows: nat) {
    && Shaped(whole, rows) && Shaped(part, rows)
    && forall b, p :: 0 <= b < rows && 0 <= p < BUCKET_SIZE ==>
                        if part[b][p] == -1 then whole[b][p] == -1
                        else 0 <= part[b][p] < |all| && whole[b][p] == all[part[b][p]]
  }

  /** What is left of an entry: the tables it is in and everything saved; the other fields start afresh. */
  ghost function Reloaded(info: AddrInfo, j: nat): AddrInfo {
    Load(Save(info)).(fInTried := info.fInTried, nRefCount := info.nRefCount, nRandomPos := j)
  }

  /** `u` is `t` with id `all[j]` called `j`, except for the memory-only fields and the random order. */
  ghost predicate SameUpToIds(t: Tables, all: seq<int>, u: Tables) {
    && 0 <= t.nNew && Lists(t.infos, all, t.nNew)
    && u.k == t.k && u.nNew == t.nNew && u.nTried == t.nTried
    && (forall j :: j in u.infos <==> 0 <= j < |all|)
    && (forall j :: 0 <= j < |all| ==> u.infos[j] == Reloaded(t.infos[all[j]], j))
    && (forall a :: a in u.addrs <==> a in t.addrs)
    && (forall a <- u.addrs :: 0 <= u.addrs[a] < |all| && all[u.addrs[a]] == t.addrs[a])
    && Renamed(all, t.news, u.news, NEW_BUCKET_COUNT) && Renamed(all, t.tried, u.tried, TRIED_BUCKET_COUNT)
  }

  lemma NothingLoaded(t: Tables, all: seq<int>, n: nat, u: Tables, v: Tables)
    requires Consistent(u, {}, {}) && u.infos == map[] && Lists(t.infos, all, n)
    requires v == u.(k := t.k, nIdCount := 0, nNew := v.nNew, nTried := v.nTried)
    ensures LoadedUpTo(t, all, n, 0, v)
  {
    RandomSize(u.infos, u.random);
    assert TriedIds(u.infos) == {} && NewIds(u.infos, {}) == {};
  }

  lemma AllLoaded(t: Tables, all: seq<int>, n: nat, u: Tables)
    requires Lists(t.infos, all, n) && LoadedUpTo(t, all, n, |all|, u) && Shaped(t.news, NEW_BUCKET_COUNT)
    ensures Relinked(t, all, n, u) && Unused(u.news)
  {
    hide TriedTable, AddrIndex, RandomIndex, Counts;
  }

  lemma EmptyRow(t: Tables, all: seq<int>, n: nat, b: nat, row: seq<int>, saved: seq<int>)
    requires |row| == BUCKET_SIZE && forall p :: 0 <= p < |row| ==> row[p] == -1
    ensures InRow(t, all, n, b, row, saved, 0)
  {
  }

  lemma NewsRenamed(all: seq<int>, n: nat, whole: Table, part: Table)
    requires PartOf(all, n, whole, part) && forall b :: 0 <= b < NEW_BUCKET_COUNT ==> Complete(whole[b], part[b])
    ensures Renamed(all, whole, part, NEW_BUCKET_COUNT)
  {
    forall b, p | 0 <= b < NEW_BUCKET_COUNT && 0 <= p < BUCKET_SIZE && part[b][p] == -1 ensures whole[b][p] == -1 {
      assert Complete(whole[b], part[b]);
    }
  }

  lemma SameBuckets(k: Placement, all: seq<int>, whole: Table, part: Table, s: Service, j: nat)
    requires Renamed(all, whole, part, NEW_BUCKET_COUNT) && j < |all| && all[j] != -1
    requires forall x, y :: 0 <= x < y < |all| ==> all[x] != all[y]
    ensures Buckets(k, part, s, j) == Buckets(k, whole, s, all[j])
  {
  }

  lemma AllRelinked(t: Tables, all: seq<int>, n: nat, u: Tables)
    requires Consistent(t, {}, {}) && Lists(t.infos, all, n) && Relinked(t, all, n, u)
    requires n == t.nNew && |all| - n == t.nTried && u.nNew == t.nNew && u.nTried == t.nTried
    requires forall b :: 0 <= b < NEW_BUCKET_COUNT ==> Complete(t.news[b], u.news[b])
    ensures SameUpToIds(t, all, u) && Consistent(u, {}, {})
    ensures Times(t.infos) ==> Times(u.infos)
  {
    hide Consistent, Buckets, PartOf, Complete, Renamed, TriedTable, AddrIndex, NewTable, RandomIndex, Counts;
    NewsRenamed(all, n, t.news, u.news);
    RefCountsBack(t, all, n, u);
    IndexesOf(t);
    TriedsRenamed(t, all, n, u);
    SameAddresses(t, all, n, u);
    AllBack(t, all, n, u);
  }

  lemma IndexesOf(t: Tables)
    requires Consistent(t, {}, {})
    ensures TriedTable(t.k, t.infos, t.tried) && AddrIndex(t.infos, t.addrs, t.nIdCount)
  {
  }

  lemma RefCountsBack(t: Tables, all: seq<int>, n: nat, u: Tables)
    requires Consistent(t, {}, {}) && Lists(t.infos, all, n) && Relinked(t, all, n, u)
    requires Renamed(all, t.news, u.news, NEW_BUCKET_COUNT)
    ensures forall j :: 0 <= j < |all| ==> u.infos[j].nRefCount == t.infos[all[j]].nRefCount
  {
    hide Buckets, PartOf, Renamed, TriedTable, RandomIndex, Counts;
    forall j | 0 <= j < |all| ensures u.infos[j].nRefCount == t.infos[all[j]].nRefCount {
      SameBuckets(u.k, all, t.news, u.news, u.infos[j].service, j);
    }
  }

  lemma AllBack(t: Tables, all: seq<int>, n: nat, u: Tables)
    requires Consistent(t, {}, {}) && Lists(t.infos, all, n) && Relinked(t, all, n, u)
    requires u.nNew == n && u.nTried == |all| - n
    requires forall j :: 0 <= j < |all| ==> u.infos[j] == Reloaded(t.infos[all[j]], j)
    ensures Consistent(u, {}, {})
    ensures Times(t.infos) ==> Times(u.infos)
  {
    hide PartOf, TriedTable, AddrIndex, NewTable, RandomIndex, Counts, RefBounds, Consistent, Times;
    BoundsBack(t, all, n, u);
    ConsistentFrom(u);
  }

  lemma ConsistentFrom(u: Tables)
    requires AddrIndex(u.infos, u.addrs, u.nIdCount) && RandomIndex(u.infos, u.random)
    requires TriedTable(u.k, u.infos, u.tried) && NewTable(u.k, u.infos, u.news)
    requires RefBounds(u.infos, {}, {}) && Counts(u.infos, u.nTried, u.nNew, {})
    ensures Consistent(u, {}, {})
  {
    hide AddrIndex, RandomIndex, TriedTable, NewTable, RefBounds, Counts;
  }

  lemma BoundsBack(t: Tables, all: seq<int>, n: nat, u: Tables)
    requires Consistent(t, {}, {}) && Lists(t.infos, all, n)
    requires forall j :: j in u.infos <==> 0 <= j < |all|
    requires forall j :: 0 <= j < |all| ==> u.infos[j] == Reloaded(t.infos[all[j]], j)
    ensures RefBounds(u.infos, {}, {})
    ensures Times(t.infos) ==> Times(u.infos)
  {
    hide TriedTable, AddrIndex, NewTable, RandomIndex, Counts;
    forall j <- u.infos ensures BoundsAt(u.infos[j]) && (Times(t.infos) ==> TimesAt(u.infos[j])) {
      EntryFacts(t, all[j]);
    }
  }

  lemma EntryFacts(t: Tables, id: int)
    requires Consistent(t, {}, {}) && id in t.infos
    ensures BoundsAt(t.infos[id]) && (Times(t.infos) ==> TimesAt(t.infos[id]))
  {
  }

  ghost predicate BoundsAt(info: AddrInfo) {
    && (info.fInTried ==> info.nRefCount == 0) && info.nRefCount <= NEW_BUCKETS_PER_ADDRESS
    && (!info.fInTried ==> info.nRefCount != 0)
  }

  ghost predicate TimesAt(info: AddrInfo) {
    info.nLastTry >= 0 && info.nLastSuccess >= 0 && (info.fInTried ==> info.nLastSuccess != 0)
  }

  lemma TriedsRenamed(t: Tables, all: seq<int>, n: nat, u: Tables)
    requires TriedTable(t.k, t.infos, t.tried) && TriedTable(u.k, u.infos, u.tried) && Lists(t.infos, all, n) && u.k == t.k
    requires forall j :: j in u.infos <==> 0 <= j < |all|
    requires forall j :: 0 <= j < |all| ==> u.infos[j].service == t.infos[all[j]].service && u.infos[j].fInTried == t.infos[all[j]].fInTried
    ensures Renamed(all, t.tried, u.tried, TRIED_BUCKET_COUNT)
  {
  }

  lemma SameAddresses(t: Tables, all: seq<int>, n: nat, u: Tables)
    requires AddrIndex(t.infos, t.addrs, t.nIdCount) && AddrIndex(u.infos, u.addrs, u.nIdCount) && Lists(t.infos, all, n)
    requires forall j :: j in u.infos <==> 0 <= j < |all|
    requires forall j :: 0 <= j < |all| ==> u.infos[j].service == t.infos[all[j]].service
    ensures forall a :: a in u.addrs <==> a in t.addrs
    ensures forall a <- u.addrs :: 0 <= u.addrs[a] < |all| && all[u.addrs[a]] == t.addrs[a]
  {
    hide AddrIndex;
    forall a <- t.addrs ensures a in u.addrs {
      AddressOf(t, a);
      var j := ListedAt(t.infos, all, n, t.addrs[a]);
      AddressAt(u, j);
    }
    forall a <- u.addrs ensures a in t.addrs && 0 <= u.addrs[a] < |all| && all[u.addrs[a]] == t.addrs[a] {
      AddressOf(u, a);
      AddressAt(t, all[u.addrs[a]]);
    }
  }

  lemma ListedAt(m: Infos, all: seq<int>, n: nat, id: int) returns (j: nat)
    requires Lists(m, all, n) && id in m
    ensures j < |all| && all[j] == id
  {
    assert id in all;
    j :| 0 <= j < |all| && all[j] == id;
  }

  lemma AddressOf(t: Tables, a: NetAddr)
    requires AddrIndex(t.infos, t.addrs, t.nIdCount) && a in t.addrs
    ensures t.addrs[a] in t.infos && t.infos[t.addrs[a]].service.addr == a
  {
  }

  lemma AddressAt(t: Tables, id: int)
    requires AddrIndex(t.infos, t.addrs, t.nIdCount) && id in t.infos
    ensures t.infos[id].service.addr in t.addrs && t.addrs[t.infos[id].service.addr] == id
  {
  }

  lemma LoadNewStep(t: Tables, all: seq<int>, i: nat, u: Tables)
    requires Consistent(t, {}, {}) && 0 <= t.nNew && Lists(t.infos, all, t.nNew) && i < t.nNew && LoadedUpTo(t, all, t.nNew, i, u)
    ensures LoadedUpTo(t, all, t.nNew, i + 1, Created(u, Load(Save(t.infos[all[i]]))))
  {
    hide Consistent, TriedTable, NewTable, AddrIndex, RandomIndex, Counts, Unused;
    LoadStep(t, all, t.nNew, i, u);
    assert Created(u, Load(Save(t.infos[all[i]]))) == LoadedNext(u, LoadedInfo(t, all, t.nNew, i));
  }

  lemma LoadTriedStep(t: Tables, all: seq<int>, i: nat, u: Tables)
    requires Consistent(t, {}, {}) && 0 <= t.nNew && Lists(t.infos, all, t.nNew) && t.nNew <= i < |all| && LoadedUpTo(t, all, t.nNew, i, u)
    ensures Shaped(u.tried, TRIED_BUCKET_COUNT)
    ensures var saved := Save(t.infos[all[i]]);
            && (var b := u.k.triedBucket(saved.service); u.tried[b][u.k.position(false, b, saved.service)] == -1)
            && LoadedUpTo(t, all, t.nNew, i + 1, LoadedNext(u, Load(saved).(fInTried := true)))
  {
    hide Consistent, TriedTable, NewTable, AddrIndex, RandomIndex, Counts, Unused;
    LoadStep(t, all, t.nNew, i, u);
    NextIsNew(t, all, t.nNew, i, u);
    assert LoadedNext(u, Load(Save(t.infos[all[i]])).(fInTried := true)) == LoadedNext(u, LoadedInfo(t, all, t.nNew, i));
  }

  lemma UnusedRow(t: Table, b: nat)
    requires Unused(t) && Shaped(t, NEW_BUCKET_COUNT) && b < NEW_BUCKET_COUNT
    ensures forall p :: 0 <= p < |t[b]| ==> t[b][p] == -1
  {
  }

  // ------------------------------------------------------------ files that `Serialize` wrote

  lemma {:induction false} ExactNews(t: Tables, all: seq<int>, file: PeersFile, i: nat)
    requires Consistent(t, {}, {}) && 0 <= t.nNew && Holds(file, t, file.nKey, all, t.nNew) && i <= t.nNew
    ensures LoadedUpTo(t, all, t.nNew, i, News(NoEntries(t.k), file.infos, i, true))
  {
    hide Consistent, LoadedUpTo, SavedRow;
    if i == 0 {
      EmptyIsConsistent(NoEntries(t.k));
      NothingLoaded(t, all, t.nNew, NoEntries(t.k), NoEntries(t.k));
    } else {
      ExactNews(t, all, file, i - 1);
      LoadNewStep(t, all, i - 1, News(NoEntries(t.k), file.infos, i - 1, true));
    }
  }

  lemma {:induction false} ExactTrieds(t: Tables, all: seq<int>, file: PeersFile, j: nat)
    requires Consistent(t, {}, {}) && 0 <= t.nNew && Holds(file, t, file.nKey, all, t.nNew) && j <= t.nTried
    ensures var news := News(NoEntries(t.k), file.infos, t.nNew, true);
            LoadedUpTo(t, all, t.nNew, t.nNew + j, Trieds(news.(nIdCount := file.nNew), file.infos, t.nNew, j))
  {
    hide Consistent, LoadedUpTo, SavedRow;
    var news := News(NoEntries(t.k), file.infos, t.nNew, true);
    if j == 0 {
      ExactNews(t, all, file, t.nNew);
      CountsIds(t, all, t.nNew, t.nNew, news);
    } else {
      ExactTrieds(t, all, file, j - 1);
      LoadTriedStep(t, all, t.nNew + j - 1, Trieds(news.(nIdCount := file.nNew), file.infos, t.nNew, j - 1));
    }
  }

  lemma CountsIds(t: Tables, all: seq<int>, n: nat, i: nat, u: Tables)
    requires i <= |all| && (forall j :: 0 <= j < |all| ==> all[j] in t.infos) && LoadedUpTo(t, all, n, i, u)
    ensures u.nIdCount == i && u.(nIdCount := i) == u
    ensures forall a, b :: LoadedUpTo(t, all, n, i, u.(nNew := a, nTried := b))
  {
    hide TriedTable, NewTable, AddrIndex, RandomIndex, Counts, Unused;
  }

  lemma ExactEntries(t: Tables, all: seq<int>, file: PeersFile)
    requires Consistent(t, {}, {}) && 0 <= t.nNew && Holds(file, t, file.nKey, all, t.nNew)
    ensures !Refused(file) && Usable(file)
    ensures var u := EntriesOf(t.k, file);
            Relinked(t, all, t.nNew, u) && Unused(u.news) && u.nNew == t.nNew && u.nTried == t.nTried
  {
    hide Consistent, LoadedUpTo, SavedRow, Relinked, Unused, News, Trieds;
    WithinLimits(t);
    ExactTrieds(t, all, file, t.nTried);
    var news := News(NoEntries(t.k), file.infos, t.nNew, true);
    var u := Trieds(news.(nIdCount := file.nNew), file.infos, t.nNew, t.nTried);
    CountsIds(t, all, t.nNew, |all|, u);
    Shape(t, {}, {});
    AllLoaded(t, all, t.nNew, u.(nNew := t.nNew, nTried := t.nTried));
  }

  lemma {:induction false} ExactRow(t: Tables, all: seq<int>, n: nat, u: Tables, b: nat, saved: seq<int>, q: nat)
    requires Consistent(t, {}, {}) && Lists(t.infos, all, n) && Relinked(t, all, n, u) && Open(u)
    requires b < NEW_BUCKET_COUNT && SavedRow(all, t.news[b], saved) && q <= |saved|
    requires InRow(t, all, n, b, u.news[b], saved, 0)
    ensures var v := Row(u, b, saved, q, n);
            && Relinked(t, all, n, v) && InRow(t, all, n, b, v.news[b], saved, q)
            && (forall c :: 0 <= c < NEW_BUCKET_COUNT && c != b ==> v.news[c] == u.news[c])
            && v.nNew == u.nNew && v.nTried == u.nTried
  {
    hide Consistent, Relinked, InRow, SavedRow;
    if q > 0 {
      ExactRow(t, all, n, u, b, saved, q - 1);
      NextIsRestored(t, all, n, Row(u, b, saved, q - 1, n), b, saved, q - 1);
    }
  }

  lemma {:induction false} ExactRows(t: Tables, all: seq<int>, n: nat, u: Tables, buckets: seq<seq<int>>, b: nat)
    requires Consistent(t, {}, {}) && Lists(t.infos, all, n) && Relinked(t, all, n, u) && Open(u) && Unused(u.news)
    requires b <= NEW_BUCKET_COUNT == |buckets| == |t.news|
    requires forall c :: 0 <= c < NEW_BUCKET_COUNT ==> SavedRow(all, t.news[c], buckets[c])
    ensures var v := Rows(u, buckets, b, n);
            && Relinked(t, all, n, v) && v.nNew == u.nNew && v.nTried == u.nTried
            && (forall c :: 0 <= c < b ==> Complete(t.news[c], v.news[c]))
            && (forall c :: b <= c < NEW_BUCKET_COUNT ==> v.news[c] == u.news[c])
  {
    hide Consistent, Relinked, InRow, SavedRow, Complete, Row, Unused;
    if b > 0 {
      var c := b - 1;
      ExactRows(t, all, n, u, buckets, c);
      var v := Rows(u, buckets, c, n);
      UnusedRow(u.news, c);
      EmptyRow(t, all, n, c, v.news[c], buckets[c]);
      ExactRow(t, all, n, v, c, buckets[c], |buckets[c]|);
      RowIsComplete(t, all, n, c, Row(v, c, buckets[c], |buckets[c]|, n).news[c], buckets[c]);
    }
  }

  /** What `Serialize` wrote loads completely: nothing is refused, lost to a collision, or left to prune. */
  lemma ExactLoad(t: Tables, all: seq<int>, file: PeersFile)
    requires Consistent(t, {}, {}) && 0 <= t.nNew && Holds(file, t, file.nKey, all, t.nNew)
    ensures !Refused(file)
    ensures var u := FileLoaded(t.k, file);
            && SameUpToIds(t, all, u) && Consistent(u, {}, {}) && Prunable(u.infos) == {}
            && (Times(t.infos) ==> Times(u.infos))
  {
    hide Consistent, Relinked, SavedRow, Complete, Rows, EntriesOf, Unused, SameUpToIds, Times;
    ExactEntries(t, all, file);
    var u := EntriesOf(t.k, file);
    ExactRows(t, all, t.nNew, u, file.buckets, NEW_BUCKET_COUNT);
    var v := Rows(u, file.buckets, NEW_BUCKET_COUNT, t.nNew);
    AllRelinked(t, all, t.nNew, v);
    NothingToPrune(v);
  }

  lemma NothingToPrune(t: Tables)
    requires Consistent(t, {}, {})
    ensures Prunable(t.infos) == {}
  {
    assert forall id <- t.infos :: t.infos[id].fInTried || t.infos[id].nRefCount != 0;
  }

  // ---------------------------------------------------------------------------- any file

  /** The address index as a map that later entries overwrite. */
  ghost predicate LastIndexed(m: Infos, addrs: map<NetAddr, int>) {
    && (forall id <- m :: m[id].service.addr in addrs && id <= addrs[m[id].service.addr])
    && (forall a <- addrs :: addrs[a] in m && m[addrs[a]].service.addr == a)
  }

  ghost predicate RefsWithin(m: Infos) {
    forall id <- m :: m[id].nRefCount <= NEW_BUCKETS_PER_ADDRESS && (m[id].fInTried ==> m[id].nRefCount == 0)
  }

  /** Entry `j` comes from place `src[j]` of the file; the first `n` entries are new, the others tried. */
  ghost predicate Sourced(m: Infos, infos: seq<Saved>, n: nat, src: seq<nat>) {
    && n <= |src| && (forall j :: j in m <==> 0 <= j < |src|)
    && (forall j :: 0 <= j < |src| ==> src[j] < |infos| && m[j].service == infos[src[j]].service && (m[j].fInTried <==> j >= n))
    && (forall i, j :: 0 <= i < j < |src| ==> src[i] < src[j])
  }

  /** What holds while any file is loaded, up to the counters. */
  ghost predicate Loading(u: Tables, infos: seq<Saved>, n: nat, src: seq<nat>) {
    && u.nIdCount == |src| && Sourced(u.infos, infos, n, src)
    && RandomIndex(u.infos, u.random) && TriedTable(u.k, u.infos, u.tried) && NewTable(u.k, u.infos, u.news)
    && RefsWithin(u.infos) && Counts(u.infos, |src| - n, n, {}) && LastIndexed(u.infos, u.addrs)
  }

  lemma LoadingCounters(u: Tables, infos: seq<Saved>, n: nat, src: seq<nat>, nNew: int, nTried: int)
    requires Loading(u, infos, n, src)
    ensures Loading(u.(nNew := nNew, nTried := nTried), infos, n, src) && u.(nIdCount := |src|) == u
  {
    hide Sourced, RandomIndex, TriedTable, NewTable, RefsWithin, Counts, LastIndexed;
  }

  lemma SourcedMore(m: Infos, infos: seq<Saved>, n: nat, src: seq<nat>, at: nat, info: AddrInfo)
    requires Sourced(m, infos, n, src) && at < |infos| && info.service == infos[at].service
    requires src == [] || src[|src| - 1] < at
    ensures info.fInTried ==> Sourced(m[|src| := info], infos, n, src + [at])
    ensures !info.fInTried && n == |src| ==> Sourced(m[|src| := info], infos, n + 1, src + [at])
  {
  }

  lemma NewEntryLoads(u: Tables, infos: seq<Saved>, src: seq<nat>, at: nat)
    requires Loading(u, infos, |src|, src) && at < |infos| && (src == [] || src[|src| - 1] < at)
    ensures Loading(Created(u, Load(infos[at])), infos, |src| + 1, src + [at])
  {
    hide Sourced, TriedTable, NewTable, Counts, RandomIndex;
    var info := Load(infos[at]);
    var id, v := |src|, Created(u, info);
    SourcedMore(u.infos, infos, |src|, src, at, v.infos[id]);
    NotYet(u.infos, infos, |src|, src);
    CreateKeepsRandomIndex(u, info);
    CreateKeepsTables(u.k, u.infos, u.tried, u.news, id, v.infos[id]);
    CountsAfterEdit(u.infos, v.infos, id, {}, {}, 0, |src|);
    LastIndexedMore(u.infos, u.addrs, id, v.infos[id]);
  }

  lemma NotYet(m: Infos, infos: seq<Saved>, n: nat, src: seq<nat>)
    requires Sourced(m, infos, n, src)
    ensures |src| !in m && -1 !in m && forall id <- m :: 0 <= id < |src|
  {
  }

  lemma LastIndexedMore(m: Infos, addrs: map<NetAddr, int>, id: int, info: AddrInfo)
    requires LastIndexed(m, addrs) && id !in m && forall x <- m :: x < id
    ensures LastIndexed(m[id := info], addrs[info.service.addr := id])
  {
  }

  lemma TriedEntryLoads(u: Tables, infos: seq<Saved>, n: nat, src: seq<nat>, at: nat)
    requires Loading(u, infos, n, src) && at < |infos| && (src == [] || src[|src| - 1] < at)
    requires var b := u.k.triedBucket(infos[at].service); u.tried[b][u.k.position(false, b, infos[at].service)] == -1
    ensures Loading(LoadedNext(u, Load(infos[at]).(fInTried := true)), infos, n, src + [at])
  {
    hide Sourced, NewTable, Counts, RandomIndex;
    var info := Load(infos[at]).(fInTried := true);
    var id, v := |src|, LoadedNext(u, info);
    SourcedMore(u.infos, infos, n, src, at, v.infos[id]);
    NotYet(u.infos, infos, n, src);
    CreateKeepsRandomIndex(u, info);
    CreateTriedKeepsTables(u.k, u.infos, u.tried, u.news, id, v.infos[id]);
    CountsAfterEdit(u.infos, v.infos, id, {}, {}, |src| - n, n);
    LastIndexedMore(u.infos, u.addrs, id, v.infos[id]);
  }

  lemma LinkLoads(u: Tables, infos: seq<Saved>, n: nat, src: seq<nat>, b: nat, id: int)
    requires Loading(u, infos, n, src) && Open(u) && b < NEW_BUCKET_COUNT && 0 <= id < n
    requires id in u.infos && u.infos[id].nRefCount < NEW_BUCKETS_PER_ADDRESS
    ensures Loading(TryLink(u, b, id), infos, n, src)
  {
    hide TriedTable, NewTable, Counts, RandomIndex, LastIndexed;
    var p := u.k.position(true, b, u.infos[id].service);
    if u.news[b][p] == -1 {
      var v := Linked(u, b, p, id);
      NotYet(u.infos, infos, n, src);
      LinkKeepsNewTable(u.k, u.infos, u.news, b, p, id);
      EditKeepsTables(u.k, u.infos, u.tried, u.news, id, v.infos[id]);
      TweakKeepsCounts(u.infos, id, v.infos[id], {}, |src| - n, n);
      EditKeepsPlaces(u.infos, u.random, u.addrs, id, v.infos[id]);
    }
  }

  lemma EditKeepsPlaces(m: Infos, v: seq<int>, addrs: map<NetAddr, int>, id: int, info: AddrInfo)
    requires id in m && info.service == m[id].service && info.nRandomPos == m[id].nRandomPos
    ensures RandomIndex(m, v) ==> RandomIndex(m[id := info], v)
    ensures LastIndexed(m, addrs) ==> LastIndexed(m[id := info], addrs)
  {
  }

  lemma NothingLoading(k: Placement, infos: seq<Saved>)
    ensures Loading(NoEntries(k), infos, 0, [])
  {
    var u := NoEntries(k);
    assert TriedIds(u.infos) == {} && NewIds(u.infos, {}) == {};
  }

  function UpTo(n: nat): (r: seq<nat>)
    ensures |r| == n && forall i :: 0 <= i < n ==> r[i] == i
  {
    seq(n, i => i)
  }

  lemma {:induction false} NewsLoading(k: Placement, infos: seq<Saved>, n: nat, usable: bool)
    requires n <= |infos|
    ensures Loading(News(NoEntries(k), infos, n, usable), infos, n, UpTo(n))
  {
    hide Loading;
    if n == 0 {
      NothingLoading(k, infos);
      assert UpTo(0) == [];
    } else {
      NewsLoading(k, infos, n - 1, usable);
      var u := News(NoEntries(k), infos, n - 1, usable);
      NewEntryLoads(u, infos, UpTo(n - 1), n - 1);
      assert UpTo(n - 1) + [n - 1] == UpTo(n);
      if !usable {
        CountIs(u, infos, n - 1, UpTo(n - 1));
        LinkLoads(Created(u, Load(infos[n - 1])), infos, n, UpTo(n), u.k.newBucket(infos[n - 1].service, infos[n - 1].source), n - 1);
      }
    }
  }

  lemma CountIs(u: Tables, infos: seq<Saved>, n: nat, src: seq<nat>)
    requires Loading(u, infos, n, src)
    ensures u.nIdCount == |src|
  {
  }

  lemma {:induction false} TriedsLoading(u: Tables, infos: seq<Saved>, n: nat, j: nat) returns (src: seq<nat>)
    requires Loading(u, infos, n, UpTo(n)) && Open(u) && n + j <= |infos|
    ensures Loading(Trieds(u, infos, n, j), infos, n, src) && (src == [] || src[|src| - 1] < n + j)
  {
    hide Loading;
    if j == 0 {
      src := UpTo(n);
    } else {
      src := TriedsLoading(u, infos, n, j - 1);
      var v, at := Trieds(u, infos, n, j - 1), n + j - 1;
      var b := v.k.triedBucket(infos[at].service);
      if v.tried[b][v.k.position(false, b, infos[at].service)] == -1 {
        TriedEntryLoads(v, infos, n, src, at);
        src := src + [at];
      }
    }
  }

  lemma {:induction false} RowLoading(u: Tables, infos: seq<Saved>, n: nat, src: seq<nat>, b: nat, row: seq<int>, q: nat)
    requires Loading(u, infos, n, src) && Open(u) && b < NEW_BUCKET_COUNT && q <= |row|
    ensures Loading(Row(u, b, row, q, n), infos, n, src)
  {
    hide Loading;
    if q > 0 {
      RowLoading(u, infos, n, src, b, row, q - 1);
      var v, index := Row(u, b, row, q - 1, n), row[q - 1];
      if 0 <= index < n && index in v.infos && v.infos[index].nRefCount < NEW_BUCKETS_PER_ADDRESS {
        LinkLoads(v, infos, n, src, b, index);
      }
    }
  }

  lemma {:induction false} RowsLoading(u: Tables, infos: seq<Saved>, n: nat, src: seq<nat>, buckets: seq<seq<int>>, b: nat)
    requires Loading(u, infos, n, src) && Open(u) && b <= |buckets| && b <= NEW_BUCKET_COUNT
    ensures Loading(Rows(u, buckets, b, n), infos, n, src)
  {
    hide Loading, Row;
    if b > 0 {
      RowsLoading(u, infos, n, src, buckets, b - 1);
      RowLoading(Rows(u, buckets, b - 1, n), infos, n, src, b - 1, buckets[b - 1], |buckets[b - 1]|);
    }
  }

  /** Everything loaded from a file with non-negative counters, which are right afterwards. */
  lemma FileLoading(k: Placement, file: PeersFile) returns (src: seq<nat>)
    requires !Refused(file) && file.nNew >= 0
    ensures var u := FileLoaded(k, file);
            && Loading(u, file.infos, file.nNew, src) && u.nNew == file.nNew
            && u.nTried == if file.nTried < 0 then file.nTried else |src| - file.nNew
  {
    hide Loading, News, Trieds, Rows, XorBit30;
    var n, m := file.nNew, AtLeastZero(file.nTried);
    NewsLoading(k, file.infos, n, Usable(file));
    var news := News(NoEntries(k), file.infos, n, Usable(file));
    LoadingCounters(news, file.infos, n, UpTo(n), 0, 0);
    src := TriedsLoading(news, file.infos, n, m);
    var u := Trieds(news, file.infos, n, m);
    CountIs(u, file.infos, n, src);
    NoneTried(u, news, file, n, m, src);
    var v := EntriesOf(k, file);
    LoadingCounters(u, file.infos, n, src, v.nNew, v.nTried);
    if Usable(file) {
      RowsLoading(v, file.infos, n, src, file.buckets, NEW_BUCKET_COUNT);
      RowsKeepCounters(v, file.buckets, NEW_BUCKET_COUNT, n);
    }
  }

  lemma NoneTried(u: Tables, news: Tables, file: PeersFile, n: nat, m: nat, src: seq<nat>)
    requires Open(news) && n + m <= |file.infos| && u == Trieds(news, file.infos, n, m) && Loading(u, file.infos, n, src)
    requires Loading(news, file.infos, n, UpTo(n))
    ensures m == 0 ==> |src| == n
  {
  }

  lemma {:induction false} RowsKeepCounters(u: Tables, buckets: seq<seq<int>>, b: nat, n: int)
    requires Open(u) && b <= |buckets| && b <= NEW_BUCKET_COUNT
    ensures var v := Rows(u, buckets, b, n); v.nNew == u.nNew && v.nTried == u.nTried && v.infos.Keys == u.infos.Keys
    ensures var v := Rows(u, buckets, b, n); n <= 0 ==> v == u
  {
    hide Row;
    if b > 0 {
      RowsKeepCounters(u, buckets, b - 1, n);
      RowKeepsCounters(Rows(u, buckets, b - 1, n), b - 1, buckets[b - 1], |buckets[b - 1]|, n);
    }
  }

  lemma {:induction false} RowKeepsCounters(u: Tables, b: nat, row: seq<int>, q: nat, n: int)
    requires Open(u) && b < NEW_BUCKET_COUNT && q <= |row|
    ensures var v := Row(u, b, row, q, n); v.nNew == u.nNew && v.nTried == u.nTried && v.infos.Keys == u.infos.Keys
    ensures var v := Row(u, b, row, q, n); n <= 0 ==> v == u
  {
    if q > 0 {
      RowKeepsCounters(u, b, row, q - 1, n);
    }
  }

  /** With a negative number of new entries only tried ones are loaded. */
  lemma NegativeLoading(k: Placement, file: PeersFile)
    requires !Refused(file) && file.nNew < 0
    ensures Prunable(FileLoaded(k, file).infos) == {} && FileLoaded(k, file).nNew < 0
  {
    hide Trieds, Rows, XorBit30;
    var u := NoEntries(k).(nIdCount := file.nNew);
    OnlyTried(u, file.infos, 0, AtLeastZero(file.nTried));
    if Usable(file) {
      RowsKeepCounters(EntriesOf(k, file), file.buckets, NEW_BUCKET_COUNT, file.nNew);
    }
  }

  lemma {:induction false} OnlyTried(u: Tables, infos: seq<Saved>, from: nat, n: nat)
    requires Open(u) && from + n <= |infos| && Prunable(u.infos) == {} && forall id <- u.infos :: u.infos[id].fInTried
    ensures var v := Trieds(u, infos, from, n); Prunable(v.infos) == {} && forall id <- v.infos :: v.infos[id].fInTried
  {
    if n > 0 {
      OnlyTried(u, infos, from, n - 1);
    }
  }

  /** No entry that stays shares its address with another one that was loaded. */
  ghost predicate Alone(m: Infos) {
    forall i, j :: i in m && j in m && i != j && i !in Prunable(m) ==> m[i].service.addr != m[j].service.addr
  }

  lemma FactsStay(u: Tables, v: Tables, id: int)
    requires PrunedFrom(u, v)
    ensures id in v.infos <==> id in u.infos && id !in Prunable(u.infos)
    ensures id in v.infos ==> v.infos[id].Facts() == u.infos[id].Facts()
  {
  }

  lemma PrunedIndexed(u: Tables, v: Tables, infos: seq<Saved>, n: nat, src: seq<nat>)
    requires Loading(u, infos, n, src) && PrunedFrom(u, v)
    ensures AddrIndex(v.infos, v.addrs, v.nIdCount) <==> Alone(u.infos)
  {
    hide RandomIndex, TriedTable, NewTable, RefsWithin, Counts, SameBut, PrunedFrom;
    NotYet(u.infos, infos, n, src);
    forall id ensures id in v.infos <==> id in u.infos && id !in Prunable(u.infos)
      ensures id in v.infos ==> v.infos[id].service == u.infos[id].service
    {
      FactsStay(u, v, id);
      if id in v.infos {
        assert v.infos[id].Facts().service == u.infos[id].Facts().service;
      }
    }
    PrunedAddrs(u, v);
    if Alone(u.infos) {
      forall id <- v.infos ensures v.infos[id].service.addr in v.addrs && v.addrs[v.infos[id].service.addr] == id {
        StaysIndexed(u, v, id);
      }
      forall a <- v.addrs ensures v.addrs[a] in v.infos && v.infos[v.addrs[a]].service.addr == a {
        assert a in u.addrs && u.addrs[a] in u.infos && u.infos[u.addrs[a]].service.addr == a;
        if u.addrs[a] in Prunable(u.infos) {
          AddressIn(u.infos, Prunable(u.infos), u.addrs[a]);
        }
      }
      assert forall id <- v.infos :: 0 <= id < v.nIdCount;
    }
    if AddrIndex(v.infos, v.addrs, v.nIdCount) {
      forall i, j | i in u.infos && j in u.infos && i != j && i !in Prunable(u.infos)
        ensures u.infos[i].service.addr != u.infos[j].service.addr
      {
        assert v.addrs[v.infos[i].service.addr] == i;
        if j in Prunable(u.infos) {
          AddressIn(u.infos, Prunable(u.infos), j);
        } else {
          assert v.addrs[v.infos[j].service.addr] == j;
        }
      }
    }
  }

  lemma AddressIn(m: Infos, ids: set<int>, id: int)
    requires id in m && id in ids
    ensures m[id].service.addr in AddressesOf(m, ids)
  {
  }

  lemma PrunedAddrs(u: Tables, v: Tables)
    requires PrunedFrom(u, v)
    ensures v.addrs == u.addrs - AddressesOf(u.infos, Prunable(u.infos)) && v.nIdCount == u.nIdCount
  {
  }

  lemma StaysIndexed(u: Tables, v: Tables, id: int)
    requires LastIndexed(u.infos, u.addrs) && Alone(u.infos) && id in u.infos && id !in Prunable(u.infos)
    requires v.addrs == u.addrs - AddressesOf(u.infos, Prunable(u.infos))
    ensures u.infos[id].service.addr in v.addrs && v.addrs[u.infos[id].service.addr] == id
  {
    var a := u.infos[id].service.addr;
    assert u.addrs[a] == id;
    assert a !in AddressesOf(u.infos, Prunable(u.infos));
  }

  lemma PrunedTables(u: Tables, v: Tables, infos: seq<Saved>, n: nat, src: seq<nat>)
    requires Loading(u, infos, n, src) && PrunedFrom(u, v)
    ensures TriedTable(v.k, v.infos, v.tried) && NewTable(v.k, v.infos, v.news) && RefBounds(v.infos, {}, {})
  {
    hide RandomIndex, Counts, LastIndexed, Sourced, SameBut;
    NotYet(u.infos, infos, n, src);
    forall id ensures id in v.infos <==> id in u.infos && id !in Prunable(u.infos)
      ensures id in v.infos ==> v.infos[id].Facts() == u.infos[id].Facts()
    {
      FactsStay(u, v, id);
    }
    forall id <- Prunable(u.infos) ensures forall b, p :: 0 <= b < |u.news| && 0 <= p < |u.news[b]| ==> u.news[b][p] != id {
      UnreferencedId(u.k, u.infos, u.news, id);
    }
    TablesOf(u, v);
  }

  lemma TablesOf(u: Tables, v: Tables)
    requires v.k == u.k && v.tried == u.tried && v.news == u.news
    requires TriedTable(u.k, u.infos, u.tried) && NewTable(u.k, u.infos, u.news) && RefsWithin(u.infos) && -1 !in u.infos
    requires forall id :: id in v.infos <==> id in u.infos && id !in Prunable(u.infos)
    requires forall id <- v.infos :: v.infos[id].Facts() == u.infos[id].Facts()
    requires forall id <- Prunable(u.infos) :: forall b, p :: 0 <= b < |u.news| && 0 <= p < |u.news[b]| ==> u.news[b][p] != id
    ensures TriedTable(v.k, v.infos, v.tried) && NewTable(v.k, v.infos, v.news) && RefBounds(v.infos, {}, {})
  {
    hide Buckets;
    forall id <- v.infos ensures v.infos[id].service == u.infos[id].service && v.infos[id].fInTried == u.infos[id].fInTried
      ensures v.infos[id].nRefCount == u.infos[id].nRefCount
    {
      assert v.infos[id].Facts() == u.infos[id].Facts();
    }
  }

  lemma PrunedCounts(u: Tables, v: Tables, infos: seq<Saved>, n: nat, src: seq<nat>)
    requires Loading(u, infos, n, src) && PrunedFrom(u, v) && u.nNew == n
    ensures Counts(v.infos, |src| - n, v.nNew, {})
  {
    hide RandomIndex, TriedTable, NewTable, RefsWithin, LastIndexed, Sourced, SameBut;
    forall id ensures id in v.infos <==> id in u.infos && id !in Prunable(u.infos)
      ensures id in v.infos ==> v.infos[id].fInTried == u.infos[id].fInTried
    {
      FactsStay(u, v, id);
      if id in v.infos {
        assert v.infos[id].Facts().fInTried == u.infos[id].Facts().fInTried;
      }
    }
    assert TriedIds(v.infos) == TriedIds(u.infos);
    assert NewIds(v.infos, {}) == NewIds(u.infos, {}) - Prunable(u.infos);
    assert Prunable(u.infos) <= NewIds(u.infos, {});
  }

  /** What is left of a loaded state is consistent exactly if every entry in it had its address for itself. */
  lemma PrunedIsConsistentIff(u: Tables, v: Tables, infos: seq<Saved>, n: nat, src: seq<nat>)
    requires Loading(u, infos, n, src) && PrunedFrom(u, v) && u.nNew == n && u.nTried == |src| - n
    ensures Consistent(v, {}, {}) <==> Alone(u.infos)
  {
    hide TriedTable, NewTable, RefsWithin, Sourced, LastIndexed, SameBut, AddrIndex, RefBounds, Counts, Alone;
    PrunedIndexed(u, v, infos, n, src);
    PrunedTables(u, v, infos, n, src);
    PrunedCounts(u, v, infos, n, src);
  }

  /** A file in which no address occurs twice leaves every entry its address. */
  lemma DistinctIsAlone(k: Placement, file: PeersFile)
    requires !Refused(file) && file.nNew >= 0
    requires forall i, j :: 0 <= i < j < |file.infos| ==> file.infos[i].service.addr != file.infos[j].service.addr
    ensures Alone(FileLoaded(k, file).infos)
  {
    var src := FileLoading(k, file);
    EachItsOwn(FileLoaded(k, file).infos, file.infos, file.nNew, src);
  }

  lemma EachItsOwn(m: Infos, infos: seq<Saved>, n: nat, src: seq<nat>)
    requires Sourced(m, infos, n, src)
    requires forall i, j :: 0 <= i < j < |infos| ==> infos[i].service.addr != infos[j].service.addr
    ensures Alone(m)
  {
    forall i, j | i in m && j in m && i != j ensures m[i].service.addr != m[j].service.addr {
      var x, y := if i < j then i else j, if i < j then j else i;
      assert src[x] < src[y];
      assert infos[src[x]].service.addr != infos[src[y]].service.addr;
    }
  }

  /** A file of version 0 with the same new entry twice: the second finds its slot taken, and takes the address of the first with it. */
  lemma DuplicateExample(k: Placement, s: Saved, nKey: nat)
    ensures var file := PeersFile(0, KEY_SIZE, nKey, 2, 0, 0, [s, s], []);
            !Refused(file) && !Alone(FileLoaded(k, file).infos)
  {
    var file := PeersFile(0, KEY_SIZE, nKey, 2, 0, 0, [s, s], []);
    var b := k.newBucket(s.service, s.source);
    var none := NoEntries(k);
    var one := NewStep(none, s, false);
    assert News(none, file.infos, 0, false) == none;
    assert News(none, file.infos, 1, false) == one;
    assert one.news[b][k.position(true, b, s.service)] == 0 && one.infos[0].nRefCount == 1 && one.nIdCount == 1;
    var two := NewStep(one, s, false);
    assert News(none, file.infos, 2, false) == two;
    assert two.infos[0] == one.infos[0] && two.infos[1].service == s.service;
    assert 0 !in Prunable(two.infos);
    assert Trieds(two.(nIdCount := 2), file.infos, 2, 0) == two.(nIdCount := 2);
    assert FileLoaded(k, file).infos == two.infos;
  }

  lemma CountersRight(t: Tables)
    requires Consistent(t, {}, {})
    ensures 0 <= t.nNew && 0 <= t.nTried
  {
  }

  /**
   Replaces the state of `m` by the one in a file, whatever is in it.  The result is
   consistent exactly if the counters are not negative and every entry that stays
   had its address for itself; an exception leaves the state unspecified.
   */
  method Unserialize(m: AddrManager, file: PeersFile, randomKey: nat) returns (thrown: bool)
    requires m.vvTried != m.vvNew && m.vvTried.Length == TRIED_BUCKET_COUNT && m.vvNew.Length == NEW_BUCKET_COUNT
    modifies m, m.vvTried, m.vvNew
    ensures thrown <==> Refused(file)
    ensures !thrown ==> m.nKey == file.nKey && m.nLastGood == 1 && PrunedFrom(FileLoaded(Keyed(m.env, file.nKey), file), m.T())
    ensures !thrown ==> (m.Valid() <==> 0 <= file.nNew && 0 <= file.nTried && Alone(FileLoaded(Keyed(m.env, file.nKey), file).infos))
  {
    hide Consistent, Keyed, FileLoaded, EntriesOf, Rows, Alone, Loading, Prunable, XorBit30, RandomIndex;
    m.Clear(randomKey);
    if file.nKeySize != KEY_SIZE {
      return true;
    }
    m.nKey := file.nKey;
    m.nNew := file.nNew;
    m.nTried := file.nTried;
    var nUBuckets := BucketCount(file);
    if m.nNew > NEW_BUCKET_COUNT * BUCKET_SIZE || m.nTried > TRIED_BUCKET_COUNT * BUCKET_SIZE {
      return true;
    }
    var nLost;
    thrown, nLost := LoadEntries(m, file);
    if thrown {
      return true;
    }
    m.nTried := m.nTried - nLost;
    thrown := LoadRows(m, file, nUBuckets);
    if thrown {
      return true;
    }
    ghost var u := m.T();
    LoadedIs(m.K(), file, u);
    ghost var src := [];
    if file.nNew >= 0 {
      src := FileLoading(m.K(), file);
      LoadingPlaces(u, file.infos, file.nNew, src);
    } else {
      NegativeLoading(m.K(), file);
    }
    Prune(m);
    LoadedValid(file, u, m.T(), src);
  }

  lemma LoadedIs(k: Placement, file: PeersFile, u: Tables)
    requires !Refused(file)
    requires u == if Usable(file) then Rows(EntriesOf(k, file), file.buckets, NEW_BUCKET_COUNT, file.nNew) else EntriesOf(k, file)
    ensures u == FileLoaded(k, file)
  {
  }

  lemma LoadingPlaces(u: Tables, infos: seq<Saved>, n: nat, src: seq<nat>)
    requires Loading(u, infos, n, src)
    ensures RandomIndex(u.infos, u.random)
  {
  }

  lemma LoadedValid(file: PeersFile, u: Tables, v: Tables, src: seq<nat>)
    requires !Refused(file) && u == FileLoaded(u.k, file) && PrunedFrom(u, v)
    requires if file.nNew < 0 then u.nNew < 0
             else Loading(u, file.infos, file.nNew, src) && u.nNew == file.nNew
                  && u.nTried == if file.nTried < 0 then file.nTried else |src| - file.nNew
    ensures Consistent(v, {}, {}) <==> 0 <= file.nNew && 0 <= file.nTried && Alone(u.infos)
    ensures Open(v)
  {
    hide Consistent, Loading, Alone, FileLoaded;
    if 0 <= file.nNew && 0 <= file.nTried {
      PrunedIsConsistentIff(u, v, file.infos, file.nNew, src);
    } else if Consistent(v, {}, {}) {
      CountersRight(v);
    }
  }

  /** Saving a manager and loading the file into another gives the same state, up to the names of its ids. */
  method SaveAndLoad(m: AddrManager, randomKey: nat) returns (r: AddrManager, ghost all: seq<int>)
    requires m.Valid()
    ensures r.Valid() && SameUpToIds(m.T(), all, r.T()) && r.nKey == m.nKey
    ensures Times(m.mapInfo) ==> Times(r.mapInfo)
  {
    hide Consistent, Keyed, Times, SameUpToIds, FileLoaded, Alone;
    var file := Serialize(m);
    TablesFacts(m.T());
    all :| Holds(file, m.T(), m.nKey, all, m.nNew);
    r := new AddrManager(m.env, randomKey);
    ExactLoad(m.T(), all, file);
    var thrown := Unserialize(r, file, randomKey);
  }
}
