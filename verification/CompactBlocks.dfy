/**
 Compact blocks: placing prefilled transactions and short ids, matching known
 transactions, filling in the missing ones, and the differential index coding.
 */
module CompactBlocks {
  datatype Option<T> = None | Some(value: T)

  const MAX_U16 := 0xFFFF

  // ------------------------------------------------------------- differential index coding

  /** The index a list of differences leads to at entry `j`: their sum plus the entries before. */
  ghost function Position(d: seq<nat>, j: nat): nat
    requires j < |d|
    decreases j
  {
    if j == 0 then d[0] else Position(d, j - 1) + d[j] + 1
  }

  predicate Increasing(s: seq<nat>) {
    forall i, j :: 0 <= i < j < |s| ==> s[i] < s[j]
  }

  lemma {:induction false} PositionsIncrease(d: seq<nat>, i: nat, j: nat)
    requires i < j < |d|
    ensures Position(d, i) < Position(d, j)
    decreases j
  {
    if i < j - 1 {
      PositionsIncrease(d, i, j - 1);
    }
  }

  lemma {:induction false} PositionPrefix(a: seq<nat>, b: seq<nat>, j: nat)
    requires a <= b && j < |a|
    ensures Position(a, j) == Position(b, j)
  {
    if j > 0 {
      PositionPrefix(a, b, j - 1);
    }
  }

  /** `d` are the differences that lead to `indexes`. */
  ghost predicate Differences(d: seq<nat>, indexes: seq<nat>) {
    |d| == |indexes| && forall j :: 0 <= j < |d| ==> Position(d, j) == indexes[j]
  }

  lemma OneMoreDifference(d: seq<nat>, indexes: seq<nat>, x: nat, index: nat)
    requires Differences(d, indexes) && index == x + if d == [] then 0 else indexes[|d| - 1] + 1
    ensures Differences(d + [x], indexes + [index])
  {
    forall j | 0 <= j < |d| ensures Position(d + [x], j) == Position(d, j) {
      PositionPrefix(d, d + [x], j);
    }
  }

  /** `BlockTransactionsRequest` writing: each index as its distance from the one after the last. */
  method WriteIndexes(indexes: seq<nat>) returns (d: seq<nat>)
    requires Increasing(indexes)
    ensures Differences(d, indexes)
  {
    hide Differences;
    d := [];
    NoDifferences(indexes);
    for i := 0 to |indexes|
      invariant Differences(d, indexes[..i]) && |d| == i
    {
      var x := indexes[i] - if i == 0 then 0 else indexes[i - 1] + 1;
      OneMoreDifference(d, indexes[..i], x, indexes[i]);
      assert indexes[..i + 1] == indexes[..i] + [indexes[i]];
      d := d + [x];
    }
    assert indexes[..|indexes|] == indexes;
  }

  lemma NoDifferences(indexes: seq<nat>)
    ensures Differences([], indexes[..0])
  {
  }

  /** `offset = index + 1` on 16 bits. */
  function NextOffset(index: nat): nat {
    (index + 1) % (MAX_U16 + 1)
  }

  /** The index read at entry `j`: the running offset is a 16-bit number, so it wraps after index 65535. */
  ghost function ReadAt(d: seq<nat>, j: nat): nat
    requires j < |d|
    decreases j
  {
    if j == 0 then d[0] else d[j] + NextOffset(ReadAt(d, j - 1))
  }

  /** Reading; `None` is the exception for a difference or an index out of range. */
  method ReadIndexes(d: seq<nat>) returns (r: Option<seq<nat>>)
    ensures r.Some? <==> forall j :: 0 <= j < |d| ==> d[j] <= MAX_U16 && ReadAt(d, j) <= MAX_U16
    ensures r.Some? ==> |r.value| == |d| && forall j :: 0 <= j < |d| ==> r.value[j] == ReadAt(d, j)
  {
    hide NextOffset;
    for i := 0 to |d|
      invariant forall j :: 0 <= j < i ==> d[j] <= MAX_U16
    {
      if d[i] > MAX_U16 {
        return None;
      }
    }
    var indexes: seq<nat> := [];
    var offset := 0;
    for j := 0 to |d|
      invariant |indexes| == j && forall k :: 0 <= k < j ==> indexes[k] == ReadAt(d, k) <= MAX_U16
      invariant offset == if j == 0 then 0 else NextOffset(ReadAt(d, j - 1))
    {
      if d[j] + offset > MAX_U16 {
        assert ReadAt(d, j) > MAX_U16;
        return None;
      }
      indexes := indexes + [d[j] + offset];
      offset := NextOffset(indexes[j]);
    }
    return Some(indexes);
  }

  lemma {:induction false} ReadExact(d: seq<nat>, j: nat)
    requires j < |d| && Position(d, j) <= MAX_U16
    ensures ReadAt(d, j) == Position(d, j)
    decreases j
  {
    if j > 0 {
      PositionsIncrease(d, j - 1, j);
      ReadExact(d, j - 1);
    }
  }

  /** Past the 16-bit range, what is read is refused or starts again below. */
  lemma {:induction false} ReadWraps(d: seq<nat>, j: nat)
    requires j < |d| && Position(d, j) > MAX_U16
    ensures (exists k :: 0 <= k <= j && ReadAt(d, k) > MAX_U16) || exists k :: 0 < k <= j && ReadAt(d, k) <= ReadAt(d, k - 1)
    decreases j
  {
    if j == 0 {
      assert ReadAt(d, 0) > MAX_U16;
    } else if Position(d, j - 1) > MAX_U16 {
      ReadWraps(d, j - 1);
    } else {
      ReadExact(d, j - 1);
      if ReadAt(d, j) <= MAX_U16 {
        assert ReadAt(d, j) <= ReadAt(d, j - 1);
      }
    }
  }

  /** The indexes read are the increasing ones meant exactly when the last of those fits in 16 bits. */
  lemma ReadIsExactIff(d: seq<nat>, indexes: seq<nat>)
    requires |indexes| == |d| && forall j :: 0 <= j < |d| ==> indexes[j] == ReadAt(d, j) <= MAX_U16
    ensures Increasing(indexes) <==> d == [] || Position(d, |d| - 1) <= MAX_U16
    ensures Increasing(indexes) <==> Differences(d, indexes)
  {
    if d != [] {
      if Position(d, |d| - 1) <= MAX_U16 {
        forall j | 0 <= j < |d| ensures indexes[j] == Position(d, j) {
          if j < |d| - 1 {
            PositionsIncrease(d, j, |d| - 1);
          }
          ReadExact(d, j);
        }
        forall i, j | 0 <= i < j < |d| ensures indexes[i] < indexes[j] {
          PositionsIncrease(d, i, j);
        }
      } else {
        ReadWraps(d, |d| - 1);
        var k :| 0 < k < |d| && ReadAt(d, k) <= ReadAt(d, k - 1);
        assert indexes[k] <= indexes[k - 1];
        assert indexes[|d| - 1] < Position(d, |d| - 1);
      }
    }
  }

  /** An index list that wraps: 65535 and one more. */
  lemma WrapExample()
    ensures ReadAt([MAX_U16, 0], 0) == MAX_U16 && ReadAt([MAX_U16, 0], 1) == 0
  {
  }

  /** What is written is read back. */
  method WriteRead(indexes: seq<nat>) returns (r: Option<seq<nat>>)
    requires Increasing(indexes) && forall i :: 0 <= i < |indexes| ==> indexes[i] <= MAX_U16
    ensures r == Some(indexes)
  {
    var d := WriteIndexes(indexes);
    WrittenReads(d, indexes);
    r := ReadIndexes(d);
    assert r.value == indexes;
  }

  lemma WrittenReads(d: seq<nat>, indexes: seq<nat>)
    requires Differences(d, indexes) && forall i :: 0 <= i < |indexes| ==> indexes[i] <= MAX_U16
    ensures forall j :: 0 <= j < |d| ==> d[j] <= MAX_U16 && ReadAt(d, j) == indexes[j]
  {
    forall j | 0 <= j < |d| ensures d[j] <= MAX_U16 && ReadAt(d, j) == indexes[j] {
      assert Position(d, j) == indexes[j];
      ReadExact(d, j);
    }
  }

  // ------------------------------------------------------------------------ compact blocks

  type Hash = nat
  type ShortId = nat
  datatype Tx = Tx(hash: Hash, witnessHash: Hash, isNull: bool)
  datatype Prefilled = Prefilled(index: nat, tx: Tx)
  datatype CompactBlock = CompactBlock(headerIsNull: bool, shorttxids: seq<ShortId>, prefilledtxn: seq<Prefilled>, shortId: Hash -> ShortId)
  datatype ReadStatus = Ok | Invalid | Failed | CheckBlockFailed

  type Slots = seq<Option<Tx>>

  function Offsets(pf: seq<Prefilled>): (r: seq<nat>)
    ensures |r| == |pf| && forall i :: 0 <= i < |pf| ==> r[i] == pf[i].index
  {
    seq(|pf|, i requires 0 <= i < |pf| => pf[i].index)
  }

  /** Where prefilled transaction `i` goes. */
  ghost function PrefilledAt(c: CompactBlock, i: nat): nat
    requires i < |c.prefilledtxn|
  {
    Position(Offsets(c.prefilledtxn), i)
  }

  function TxCount(c: CompactBlock): nat {
    |c.shorttxids| + |c.prefilledtxn|
  }

  /** The prefilled transactions are real, and none is placed beyond the short ids and prefilled ones before it. */
  ghost predicate WellPlaced(c: CompactBlock) {
    forall i :: 0 <= i < |c.prefilledtxn| ==>
                  && !c.prefilledtxn[i].tx.isNull && PrefilledAt(c, i) <= MAX_U16
                  && PrefilledAt(c, i) <= |c.shorttxids| + i
  }

  /** The first `n` prefilled transactions are in their places, and nothing else. */
  ghost predicate Placed(c: CompactBlock, n: nat, s: Slots)
    requires n <= |c.prefilledtxn|
  {
    && |s| == TxCount(c)
    && (forall i :: 0 <= i < n ==> PrefilledAt(c, i) < |s| && s[PrefilledAt(c, i)] == Some(c.prefilledtxn[i].tx))
    && (forall p :: 0 <= p < |s| && s[p].Some? ==> exists i :: 0 <= i < n && PrefilledAt(c, i) == p)
  }

  lemma PrefilledIncrease(c: CompactBlock, i: nat, j: nat)
    requires i < j < |c.prefilledtxn|
    ensures PrefilledAt(c, i) < PrefilledAt(c, j)
  {
    PositionsIncrease(Offsets(c.prefilledtxn), i, j);
  }

  lemma PlaceOneMore(c: CompactBlock, n: nat, s: Slots)
    requires n < |c.prefilledtxn| && Placed(c, n, s) && PrefilledAt(c, n) < |s|
    ensures Placed(c, n + 1, s[PrefilledAt(c, n) := Some(c.prefilledtxn[n].tx)])
  {
    hide PrefilledAt;
    var s' := s[PrefilledAt(c, n) := Some(c.prefilledtxn[n].tx)];
    forall i | 0 <= i < n ensures s'[PrefilledAt(c, i)] == Some(c.prefilledtxn[i].tx) {
      PrefilledIncrease(c, i, n);
    }
    forall p | 0 <= p < |s'| && s'[p].Some? ensures exists i :: 0 <= i < n + 1 && PrefilledAt(c, i) == p {
      if p == PrefilledAt(c, n) {
        assert PrefilledAt(c, n) == p;
      } else {
        var i :| 0 <= i < n && PrefilledAt(c, i) == p;
      }
    }
  }

  /** The first loop of `InitData`. */
  method PlacePrefilled(c: CompactBlock) returns (ok: bool, s: Slots)
    ensures ok <==> WellPlaced(c)
    ensures ok ==> Placed(c, |c.prefilledtxn|, s)
  {
    hide Placed, Position;
    s := seq(TxCount(c), _ => None);
    NothingPlaced(c, s);
    var last := -1;
    for i := 0 to |c.prefilledtxn|
      invariant last == if i == 0 then -1 else PrefilledAt(c, i - 1)
      invariant Placed(c, i, s) && |s| == TxCount(c)
      invariant forall j :: 0 <= j < i ==>
                  !c.prefilledtxn[j].tx.isNull && PrefilledAt(c, j) <= MAX_U16 && PrefilledAt(c, j) <= |c.shorttxids| + j
    {
      if c.prefilledtxn[i].tx.isNull {
        return false, s;
      }
      NextPosition(c, i);
      last := last + c.prefilledtxn[i].index + 1;
      if last > MAX_U16 {
        return false, s;
      }
      if last > |c.shorttxids| + i {
        return false, s;
      }
      PlaceOneMore(c, i, s);
      s := s[last := Some(c.prefilledtxn[i].tx)];
    }
    return true, s;
  }

  lemma NothingPlaced(c: CompactBlock, s: Slots)
    requires s == seq(TxCount(c), _ => None)
    ensures Placed(c, 0, s)
  {
  }

  lemma NextPosition(c: CompactBlock, i: nat)
    requires i < |c.prefilledtxn|
    ensures PrefilledAt(c, i) == (if i == 0 then -1 else PrefilledAt(c, i - 1)) + c.prefilledtxn[i].index + 1
  {
  }

  // ----------------------------------------------------------------- slots of the short ids

  /** `slots` lists the empty places in order. */
  ghost predicate Slotted(s: Slots, slots: seq<nat>) {
    && Increasing(slots)
    && (forall i :: 0 <= i < |slots| ==> slots[i] < |s| && s[slots[i]].None?)
    && (forall p :: 0 <= p < |s| && s[p].None? ==> p in slots)
  }

  /** Among the places below `q`, the first `n` prefilled ones are exactly the used ones. */
  ghost predicate Between(c: CompactBlock, q: nat, n: nat) {
    && n <= |c.prefilledtxn|
    && (n > 0 ==> PrefilledAt(c, n - 1) < q)
    && (n < |c.prefilledtxn| ==> q <= PrefilledAt(c, n))
  }

  /** The places below `q`: `slots` are the empty ones. */
  ghost predicate SlottedBelow(s: Slots, q: nat, slots: seq<nat>) {
    && q <= |s| && Increasing(slots)
    && (forall i :: 0 <= i < |slots| ==> slots[i] < q && s[slots[i]].None?)
    && (forall p :: 0 <= p < q && s[p].None? ==> p in slots)
  }

  /** There is an empty place left for every short id. */
  lemma PlaceLeft(c: CompactBlock, s: Slots, i: nat, n: nat)
    requires WellPlaced(c) && i < |c.shorttxids| && Between(c, i + n, n) && |s| == TxCount(c)
    ensures i + n < |s|
  {
  }

  /** A used place is the next prefilled one. */
  lemma UsedPlace(c: CompactBlock, s: Slots, q: nat, n: nat)
    requires Placed(c, |c.prefilledtxn|, s) && Between(c, q, n) && q < |s| && s[q].Some?
    ensures n < |c.prefilledtxn| && PrefilledAt(c, n) == q && Between(c, q + 1, n + 1)
  {
    hide PrefilledAt;
    var k :| 0 <= k < |c.prefilledtxn| && PrefilledAt(c, k) == q;
    if k < n {
      if k < n - 1 {
        PrefilledIncrease(c, k, n - 1);
      }
      assert false;
    }
    if n < k {
      PrefilledIncrease(c, n, k);
      assert false;
    }
    if n + 1 < |c.prefilledtxn| {
      PrefilledIncrease(c, n, n + 1);
    }
  }

  /** An empty place goes to the short id. */
  lemma EmptyPlace(c: CompactBlock, s: Slots, q: nat, n: nat, slots: seq<nat>)
    requires Placed(c, |c.prefilledtxn|, s) && Between(c, q, n) && q < |s| && s[q].None? && SlottedBelow(s, q, slots)
    ensures Between(c, q + 1, n) && SlottedBelow(s, q + 1, slots + [q])
  {
    hide PrefilledAt;
    if n < |c.prefilledtxn| {
      assert s[PrefilledAt(c, n)].Some?;
    }
    forall p | 0 <= p < q + 1 && s[p].None? ensures p in slots + [q] {
      if p < q {
        assert p in slots;
      }
    }
  }

  /** After the last short id only prefilled places follow. */
  lemma {:induction false} RestIsPrefilled(c: CompactBlock, s: Slots, q: nat, n: nat)
    requires WellPlaced(c) && Placed(c, |c.prefilledtxn|, s) && Between(c, q, n) && q == |c.shorttxids| + n
    ensures forall p :: q <= p < |s| ==> s[p].Some?
    decreases |c.prefilledtxn| - n
  {
    if n < |c.prefilledtxn| {
      assert PrefilledAt(c, n) == q;
      UsedPlace(c, s, q, n);
      RestIsPrefilled(c, s, q + 1, n + 1);
    }
  }

  predicate AllDistinct(s: seq<ShortId>) {
    forall i, j :: 0 <= i < j < |s| ==> s[i] != s[j]
  }

  /** A place as a 16-bit number. */
  function Place(p: nat): nat {
    p % (MAX_U16 + 1)
  }

  /** The map sends every short id to its place, on 16 bits; it is smaller exactly when two short ids collide. */
  ghost predicate Mapped(ids: map<ShortId, nat>, short: seq<ShortId>, slots: seq<nat>)
  {
    && |slots| == |short|
    && (forall id :: id in ids <==> id in short)
    && |ids| <= |short|
    && (|ids| == |short| <==> AllDistinct(short))
    && (|ids| == |short| ==> forall i :: 0 <= i < |short| ==> ids[short[i]] == Place(slots[i]))
  }

  lemma MapOneMore(ids: map<ShortId, nat>, short: seq<ShortId>, slots: seq<nat>, id: ShortId, q: nat)
    requires Mapped(ids, short, slots)
    ensures Mapped(ids[id := Place(q)], short + [id], slots + [q])
  {
    hide Place;
    var ids', short', slots' := ids[id := Place(q)], short + [id], slots + [q];
    if id in ids {
      assert ids'.Keys == ids.Keys;
      assert |ids'| == |ids|;
      var i :| 0 <= i < |short| && short[i] == id;
      assert short'[i] == short'[|short|];
    } else {
      assert ids'.Keys == ids.Keys + {id};
      assert |ids'| == |ids| + 1;
      forall i | 0 <= i < |short| ensures short[i] != id {
        assert short[i] in short;
      }
      assert AllDistinct(short') ==> AllDistinct(short) by {
        assert forall i :: 0 <= i < |short| ==> short'[i] == short[i];
      }
    }
  }

  /** The 16-bit offset after counting on `n` times. */
  function CountOn(offset: nat, n: nat): nat {
    Place(offset + n)
  }

  /** No place that the offset ever reaches by counting on is empty. */
  ghost predicate Diverges(s: Slots, i: nat, offset: nat) {
    forall n: nat :: i + CountOn(offset, n) < |s| && s[i + CountOn(offset, n)].Some?
  }

  lemma {:induction false} AtLeastIndex(c: CompactBlock, i: nat)
    requires i < |c.prefilledtxn|
    ensures i <= PrefilledAt(c, i)
  {
    if i > 0 {
      AtLeastIndex(c, i - 1);
      PrefilledIncrease(c, i - 1, i);
    }
  }

  /** Well placed messages have at most 65536 prefilled transactions. */
  lemma PrefilledCount(c: CompactBlock)
    requires WellPlaced(c)
    ensures |c.prefilledtxn| <= MAX_U16 + 1
  {
    if |c.prefilledtxn| > 0 {
      AtLeastIndex(c, |c.prefilledtxn| - 1);
    }
  }

  lemma {:induction false} AtMostIndex(c: CompactBlock, i: nat)
    requires WellPlaced(c) && |c.prefilledtxn| == MAX_U16 + 1 && i <= MAX_U16
    ensures PrefilledAt(c, i) <= i
    decreases MAX_U16 - i
  {
    if i < MAX_U16 {
      AtMostIndex(c, i + 1);
      PrefilledIncrease(c, i, i + 1);
    }
  }

  /** If there are that many, they fill all places a 16-bit number can name. */
  lemma PrefilledFill(c: CompactBlock, s: Slots, p: nat)
    requires WellPlaced(c) && Placed(c, |c.prefilledtxn|, s) && |c.prefilledtxn| == MAX_U16 + 1 && p <= MAX_U16
    ensures p < |s| && s[p].Some?
  {
    AtLeastIndex(c, p);
    AtMostIndex(c, p);
    assert PrefilledAt(c, p) == p;
  }

  /**
   The search for the next empty place.  The counter has 16 bits: once it has
   gone round without finding one, the search goes on for ever.
   */
  method Scan(c: CompactBlock, s: Slots, i: nat, from: nat, ghost slots: seq<nat>) returns (hangs: bool, offset: nat)
    requires WellPlaced(c) && Placed(c, |c.prefilledtxn|, s) && i < |c.shorttxids| && from <= MAX_U16
    requires Between(c, i + from, from) && SlottedBelow(s, i + from, slots)
    requires |c.prefilledtxn| <= MAX_U16 || (i == 0 && from == 0)
    ensures hangs <==> Diverges(s, i, from)
    ensures hangs <==> |c.prefilledtxn| == MAX_U16 + 1
    ensures !hangs ==> from <= offset <= MAX_U16 && i + offset < |s| && s[i + offset].None?
    ensures !hangs ==> Between(c, i + offset, offset) && SlottedBelow(s, i + offset, slots)
  {
    hide WellPlaced, Placed, Between, SlottedBelow, Place, Diverges;
    PrefilledCount(c);
    FewerPassed(c, i + from, from);
    SmallPlace(0);
    offset := from;
    SameSize(c, s);
    if |c.prefilledtxn| <= MAX_U16 {
      PlaceLeft(c, s, i, from);
    } else {
      PrefilledFill(c, s, 0);
    }
    for n := 0 to MAX_U16 + 1
      invariant i + offset < |s|
      invariant if |c.prefilledtxn| <= MAX_U16
                then offset == from + n && Between(c, i + offset, offset) && SlottedBelow(s, i + offset, slots) && offset <= |c.prefilledtxn|
                else offset == Place(n)
    {
      if s[i + offset].None? {
        if |c.prefilledtxn| > MAX_U16 {
          SmallPlace(n);
          PrefilledFill(c, s, n);
          assert false;
        }
        EndsAt(s, i, from, n);
        return false, offset;
      }
      if |c.prefilledtxn| <= MAX_U16 {
        UsedPlace(c, s, i + offset, offset);
        PassPlace(s, i + offset, slots);
        PlaceLeft(c, s, i, offset + 1);
        SmallPlace(offset + 1);
      } else {
        NextPlace(n);
        PlaceBound(n + 1);
        PrefilledFill(c, s, Place(n + 1));
      }
      offset := Place(offset + 1);
    }
    GoesRound(c, s);
    return true, offset;
  }

  lemma FewerPassed(c: CompactBlock, q: nat, n: nat)
    requires Between(c, q, n)
    ensures n <= |c.prefilledtxn|
  {
  }

  lemma SameSize(c: CompactBlock, s: Slots)
    requires Placed(c, |c.prefilledtxn|, s)
    ensures |s| == TxCount(c)
  {
  }

  lemma SmallPlace(p: nat)
    ensures Place(p) == p <==> p <= MAX_U16
  {
  }

  lemma PlaceBound(p: nat)
    ensures Place(p) <= MAX_U16
  {
  }

  lemma NextPlace(p: nat)
    ensures Place(Place(p) + 1) == Place(p + 1)
  {
  }

  lemma EndsAt(s: Slots, i: nat, from: nat, n: nat)
    requires from + n <= MAX_U16 && i + from + n < |s| && s[i + from + n].None?
    ensures !Diverges(s, i, from)
  {
    assert CountOn(from, n) == from + n;
  }

  lemma GoesRound(c: CompactBlock, s: Slots)
    requires WellPlaced(c) && Placed(c, |c.prefilledtxn|, s) && |c.prefilledtxn| == MAX_U16 + 1
    ensures Diverges(s, 0, 0)
  {
    hide WellPlaced, Placed;
    forall n: nat ensures 0 + CountOn(0, n) < |s| && s[0 + CountOn(0, n)].Some? {
      PlaceBound(n);
      PrefilledFill(c, s, CountOn(0, n));
    }
  }

  /** 65536 prefilled transactions and a short id. */
  predicate Endless(c: CompactBlock) {
    |c.prefilledtxn| > MAX_U16 && c.shorttxids != []
  }

  /**
   The second loop of `InitData`; `crowded` says whether the hash bucket of a
   short id just entered has become too big.
   */
  method SlotShortIds(c: CompactBlock, s: Slots, crowded: nat -> bool)
    returns (hangs: bool, ids: Option<map<ShortId, nat>>, ghost slots: seq<nat>)
    requires WellPlaced(c) && Placed(c, |c.prefilledtxn|, s)
    ensures hangs <==> Endless(c)
    ensures hangs ==> Diverges(s, 0, 0)
    ensures !hangs ==> (ids.None? <==> exists i :: 0 <= i < |c.shorttxids| && crowded(i))
    ensures !hangs && ids.Some? ==> Mapped(ids.value, c.shorttxids, slots) && Slotted(s, slots)
  {
    hide Placed, WellPlaced, Between, SlottedBelow, Mapped, Increasing, Place, Diverges;
    var shorttxids: map<ShortId, nat> := map[];
    slots := [];
    hangs := false;
    var indexOffset := 0;
    Start(c, s);
    PrefilledCount(c);
    for i := 0 to |c.shorttxids|
      invariant !hangs && 0 <= indexOffset <= MAX_U16 && (i > 0 ==> |c.prefilledtxn| <= MAX_U16) && (i == 0 ==> indexOffset == 0)
      invariant Between(c, i + indexOffset, indexOffset) && SlottedBelow(s, i + indexOffset, slots)
      invariant Mapped(shorttxids, c.shorttxids[..i], slots)
      invariant forall j :: 0 <= j < i ==> !crowded(j)
    {
      hangs, indexOffset := Scan(c, s, i, indexOffset, slots);
      if hangs {
        return true, None, slots;
      }
      EmptyPlace(c, s, i + indexOffset, indexOffset, slots);
      MapOneMore(shorttxids, c.shorttxids[..i], slots, c.shorttxids[i], i + indexOffset);
      assert c.shorttxids[..i + 1] == c.shorttxids[..i] + [c.shorttxids[i]];
      shorttxids := shorttxids[c.shorttxids[i] := Place(i + indexOffset)];
      slots := slots + [i + indexOffset];
      if crowded(i) {
        return false, None, slots;
      }
    }
    assert c.shorttxids[..|c.shorttxids|] == c.shorttxids;
    RestIsPrefilled(c, s, |c.shorttxids| + indexOffset, indexOffset);
    AllSlotted(s, |c.shorttxids| + indexOffset, slots);
    return false, Some(shorttxids), slots;
  }

  /** The 16-bit places are the right ones exactly if there are at most 65536 transactions. */
  lemma PlacesRightIff(c: CompactBlock, s: Slots, slots: seq<nat>)
    requires WellPlaced(c) && Placed(c, |c.prefilledtxn|, s) && Slotted(s, slots)
    ensures (forall i :: 0 <= i < |slots| ==> Place(slots[i]) == slots[i]) <==> TxCount(c) <= MAX_U16 + 1
  {
    hide Increasing, PrefilledAt;
    var last := TxCount(c) - 1;
    if last > MAX_U16 {
      assert s[last].None?;
      var i :| 0 <= i < |slots| && slots[i] == last;
      SmallPlace(slots[i]);
    } else {
      forall i | 0 <= i < |slots| ensures Place(slots[i]) == slots[i] {
        SmallPlace(slots[i]);
      }
    }
  }

  lemma Start(c: CompactBlock, s: Slots)
    requires Placed(c, |c.prefilledtxn|, s)
    ensures Between(c, 0, 0) && SlottedBelow(s, 0, []) && Mapped(map[], c.shorttxids[..0], []) && |s| == TxCount(c)
  {
  }

  lemma PassPlace(s: Slots, q: nat, slots: seq<nat>)
    requires SlottedBelow(s, q, slots) && q < |s| && s[q].Some?
    ensures SlottedBelow(s, q + 1, slots)
  {
  }

  lemma AllSlotted(s: Slots, q: nat, slots: seq<nat>)
    requires SlottedBelow(s, q, slots) && forall p :: q <= p < |s| ==> s[p].Some?
    ensures Slotted(s, slots)
  {
  }

  // -------------------------------------------------------------- matching known transactions

  type Known = seq<(Hash, Tx)>

  /** A known transaction has short id number `i`. */
  ghost predicate HasShortId(c: CompactBlock, known: Known, i: nat, tx: Tx)
    requires i < |c.shorttxids|
  {
    exists e :: e in known && c.shortId(e.0) == c.shorttxids[i] && e.1 == tx
  }

  /** Known transaction `k` has short id number `i`. */
  ghost predicate Matches(c: CompactBlock, known: Known, k: nat, i: nat)
    requires k < |known| && i < |c.shorttxids|
  {
    c.shortId(known[k].0) == c.shorttxids[i]
  }

  /** It is the only one that has. */
  ghost predicate OnlyMatch(c: CompactBlock, known: Known, k: nat, i: nat)
    requires k < |known| && i < |c.shorttxids|
  {
    Matches(c, known, k, i) && forall j :: 0 <= j < |known| && j != k ==> !Matches(c, known, j, i)
  }

  /** Known transaction `k` has a short id that the map sends to place `p`. */
  ghost predicate Hits(c: CompactBlock, ids: map<ShortId, nat>, known: Known, k: nat, p: nat)
    requires k < |known|
  {
    c.shortId(known[k].0) in ids && ids[c.shortId(known[k].0)] == p
  }

  /** Of all known transactions only `k` has. */
  ghost predicate OnlyHit(c: CompactBlock, ids: map<ShortId, nat>, known: Known, k: nat, p: nat)
    requires k < |known|
  {
    Hits(c, ids, known, k, p) && forall j :: 0 <= j < |known| && j != k ==> !Hits(c, ids, known, j, p)
  }

  /**
   Place `p` after the first `n` known transactions: as it was if none hit it,
   otherwise marked, and empty or filled by one that hit it; filled for sure by
   one that is the only one.
   */
  ghost predicate SettledAt(c: CompactBlock, ids: map<ShortId, nat>, known: Known, n: nat, s0: Slots, s: Slots, have: seq<bool>, p: nat)
    requires n <= |known| && |s| == |s0| == |have| && p < |s|
  {
    && (have[p] <==> exists k :: 0 <= k < n && Hits(c, ids, known, k, p))
    && (!have[p] ==> s[p] == s0[p])
    && (have[p] && s[p].Some? ==> exists k :: 0 <= k < n && Hits(c, ids, known, k, p) && s[p] == Some(known[k].1))
    && (forall k :: 0 <= k < n && OnlyHit(c, ids, known, k, p) ==> s[p] == Some(known[k].1))
  }

  ghost predicate Settled(c: CompactBlock, ids: map<ShortId, nat>, known: Known, n: nat, s0: Slots, s: Slots, have: seq<bool>) {
    && n <= |known| && |s| == |s0| == |have|
    && forall p :: 0 <= p < |s| ==> SettledAt(c, ids, known, n, s0, s, have, p)
  }

  /** The places that hold a match, which `mempool_count` counts. */
  ghost function Held(s: Slots, have: seq<bool>): set<nat> {
    set p | 0 <= p < |s| && p < |have| && have[p] && s[p].Some?
  }

  lemma HeldAfter(s: Slots, have: seq<bool>, p: nat, v: Option<Tx>)
    requires |s| == |have| && p < |s|
    ensures |Held(s[p := v], have[p := true])| == |Held(s, have)| + (if v.Some? then 1 else 0) - if p in Held(s, have) then 1 else 0
  {
    var a, b := Held(s, have), Held(s[p := v], have[p := true]);
    assert a - {p} == b - {p};
    assert |a| == |a - {p}| + if p in a then 1 else 0;
    assert |b| == |b - {p}| + if p in b then 1 else 0;
  }

  lemma SettledPlace(c: CompactBlock, ids: map<ShortId, nat>, known: Known, n: nat, s0: Slots, s: Slots, have: seq<bool>, p: nat)
    requires Settled(c, ids, known, n, s0, s, have) && p < |s|
    ensures SettledAt(c, ids, known, n, s0, s, have, p)
  {
  }

  /** A transaction that does not hit a place leaves it settled. */
  lemma SettleOther(c: CompactBlock, ids: map<ShortId, nat>, known: Known, n: nat, s0: Slots, s: Slots, have: seq<bool>,
                    s': Slots, have': seq<bool>, p: nat)
    requires Settled(c, ids, known, n, s0, s, have) && n < |known| && !Hits(c, ids, known, n, p)
    requires |s'| == |have'| == |s| && p < |s| && s'[p] == s[p] && have'[p] == have[p]
    ensures SettledAt(c, ids, known, n + 1, s0, s', have', p)
  {
    hide Hits;
    SettledPlace(c, ids, known, n, s0, s, have, p);
  }

  /** The first transaction to hit a place fills it, and a later one leaves it or empties it. */
  lemma SettleHit(c: CompactBlock, ids: map<ShortId, nat>, known: Known, n: nat, s0: Slots, s: Slots, have: seq<bool>,
                  s': Slots, have': seq<bool>, p: nat)
    requires Settled(c, ids, known, n, s0, s, have) && n < |known| && Hits(c, ids, known, n, p)
    requires |s'| == |have'| == |s| && p < |s| && have'[p]
    requires if have[p] then s'[p] == s[p] || s'[p].None? else s'[p] == Some(known[n].1)
    ensures SettledAt(c, ids, known, n + 1, s0, s', have', p)
  {
    hide Hits;
    SettledPlace(c, ids, known, n, s0, s, have, p);
    if have[p] {
      var j :| 0 <= j < n && Hits(c, ids, known, j, p);
      assert forall k :: 0 <= k < n + 1 ==> !OnlyHit(c, ids, known, k, p) by {
        forall k | 0 <= k < n + 1 ensures !OnlyHit(c, ids, known, k, p) {
          assert k != j || k != n;
        }
      }
    }
  }

  /** The whole step: place `p` is hit and the others are not. */
  lemma SettleStep(c: CompactBlock, ids: map<ShortId, nat>, known: Known, n: nat, s0: Slots, s: Slots, have: seq<bool>, p: nat, v: Option<Tx>)
    requires Settled(c, ids, known, n, s0, s, have) && n < |known| && Hits(c, ids, known, n, p) && p < |s|
    requires if have[p] then v == s[p] || v.None? else v == Some(known[n].1)
    ensures Settled(c, ids, known, n + 1, s0, s[p := v], have[p := true])
  {
    hide SettledAt;
    var s', have', n' := s[p := v], have[p := true], n + 1;
    forall q | 0 <= q < |s| ensures SettledAt(c, ids, known, n', s0, s', have', q) {
      if q == p {
        SettleHit(c, ids, known, n, s0, s, have, s', have', q);
      } else {
        SettleOther(c, ids, known, n, s0, s, have, s', have', q);
      }
    }
  }

  lemma SettlePass(c: CompactBlock, ids: map<ShortId, nat>, known: Known, n: nat, s0: Slots, s: Slots, have: seq<bool>)
    requires Settled(c, ids, known, n, s0, s, have) && n < |known| && c.shortId(known[n].0) !in ids
    ensures Settled(c, ids, known, n + 1, s0, s, have)
  {
    hide SettledAt;
    var n' := n + 1;
    forall p | 0 <= p < |s| ensures SettledAt(c, ids, known, n', s0, s, have, p) {
      SettleOther(c, ids, known, n, s0, s, have, s, have, p);
    }
  }

  lemma {:induction false} ValuesFit<K, V>(m: map<K, V>)
    ensures |m.Values| <= |m|
    decreases |m|
  {
    if m == map[] {
      assert m.Values == {};
    } else {
      var k :| k in m;
      ValuesFit(m - {k});
      assert m.Values == (m - {k}).Values + {m[k]} by {
        forall v <- m.Values ensures v in (m - {k}).Values + {m[k]} {
          var j :| j in m && m[j] == v;
          assert j == k || j in m - {k};
        }
      }
    }
  }

  /** A held place is the place of a short id. */
  lemma HeldArePlaces(c: CompactBlock, ids: map<ShortId, nat>, known: Known, n: nat, s0: Slots, s: Slots, have: seq<bool>)
    requires Settled(c, ids, known, n, s0, s, have)
    ensures Held(s, have) <= ids.Values
  {
    hide Hits;
    forall p <- Held(s, have) ensures p in ids.Values {
      SettledPlace(c, ids, known, n, s0, s, have, p);
      var k :| 0 <= k < n && Hits(c, ids, known, k, p);
      HitIsPlace(c, ids, known, k, p);
    }
  }

  lemma HitIsPlace(c: CompactBlock, ids: map<ShortId, nat>, known: Known, k: nat, p: nat)
    requires k < |known| && Hits(c, ids, known, k, p)
    ensures p in ids.Values
  {
  }

  lemma SameSets<T>(a: set<T>, b: set<T>)
    requires a <= b && |b| <= |a|
    ensures a == b
  {
    assert b == a + (b - a);
  }

  /** When as many places hold a match as there are short ids, the rest of the list can be passed over. */
  lemma SettleFull(c: CompactBlock, ids: map<ShortId, nat>, known: Known, n: nat, m: nat, s0: Slots, s: Slots, have: seq<bool>)
    requires Settled(c, ids, known, n, s0, s, have) && n <= m <= |known| && |Held(s, have)| == |ids|
    ensures Settled(c, ids, known, m, s0, s, have)
  {
    hide Hits, Held;
    HeldArePlaces(c, ids, known, n, s0, s, have);
    ValuesFit(ids);
    SameSets(Held(s, have), ids.Values);
    forall p | 0 <= p < |s| ensures SettledAt(c, ids, known, m, s0, s, have, p) {
      SettledPlace(c, ids, known, n, s0, s, have, p);
      FullPlace(c, ids, known, n, m, s0, s, have, p);
    }
  }

  lemma FullPlace(c: CompactBlock, ids: map<ShortId, nat>, known: Known, n: nat, m: nat, s0: Slots, s: Slots, have: seq<bool>, p: nat)
    requires n <= m <= |known| && |s| == |s0| == |have| && p < |s| && SettledAt(c, ids, known, n, s0, s, have, p)
    requires Held(s, have) == ids.Values
    ensures SettledAt(c, ids, known, m, s0, s, have, p)
  {
    hide Hits;
    forall k | n <= k < m && Hits(c, ids, known, k, p) ensures have[p] && !OnlyHit(c, ids, known, k, p) {
      HitIsPlace(c, ids, known, k, p);
      assert p in Held(s, have);
      var j :| 0 <= j < n && Hits(c, ids, known, j, p);
    }
  }

  /**
   The loops over the mempool and over the extra transactions: the first match
   fills a place, a second one empties it, unless it is the same transaction and
   the loop compares witness hashes.
   */
  method MatchKnown(c: CompactBlock, ids: map<ShortId, nat>, entries: Known, compare: bool, s: Slots, have: seq<bool>, count: nat,
                    ghost known: Known, ghost from: nat, ghost s0: Slots)
    returns (s': Slots, have': seq<bool>, count': nat)
    requires forall id <- ids :: ids[id] < |s0|
    requires from + |entries| <= |known| && entries == known[from..from + |entries|]
    requires Settled(c, ids, known, from, s0, s, have) && count == |Held(s, have)|
    ensures Settled(c, ids, known, from + |entries|, s0, s', have') && count' == |Held(s', have')|
  {
    hide SettledAt, Held;
    s', have', count' := s, have, count;
    for i := 0 to |entries|
      invariant Settled(c, ids, known, from + i, s0, s', have') && count' == |Held(s', have')|
    {
      var shortid := c.shortId(entries[i].0);
      assert entries[i] == known[from + i];
      if shortid in ids {
        var p := ids[shortid];
        HeldAt(s', have', p);
        if !have'[p] {
          SettleStep(c, ids, known, from + i, s0, s', have', p, Some(entries[i].1));
          HeldAfter(s', have', p, Some(entries[i].1));
          s' := s'[p := Some(entries[i].1)];
          have' := have'[p := true];
          count' := count' + 1;
        } else {
          assert have'[p := true] == have' && s'[p := s'[p]] == s';
          SettleStep(c, ids, known, from + i, s0, s', have', p, s'[p]);
          if s'[p].Some? && (!compare || s'[p].value.witnessHash != entries[i].1.witnessHash) {
            SettleStep(c, ids, known, from + i, s0, s', have', p, None);
            HeldAfter(s', have', p, None);
            s' := s'[p := None];
            count' := count' - 1;
          }
        }
      } else {
        SettlePass(c, ids, known, from + i, s0, s', have');
      }
      if count' == |ids| {
        SettleFull(c, ids, known, from + i + 1, from + |entries|, s0, s', have');
        break;
      }
    }
  }

  lemma HeldAt(s: Slots, have: seq<bool>, p: nat)
    requires |s| == |have| && p < |s|
    ensures p in Held(s, have) <==> have[p] && s[p].Some?
    ensures p in Held(s, have) ==> |Held(s, have)| > 0
  {
  }

  // -------------------------------------------------------------------- the partial block

  /** Known transaction `k` has a short id whose place is `p` on 16 bits. */
  ghost predicate HitsPlace(c: CompactBlock, known: Known, slots: seq<nat>, k: nat, p: nat)
    requires k < |known| && |slots| == |c.shorttxids|
  {
    exists i :: 0 <= i < |slots| && Matches(c, known, k, i) && Place(slots[i]) == p
  }

  /** Of all known transactions only `k` has. */
  ghost predicate OnlyHitsPlace(c: CompactBlock, known: Known, slots: seq<nat>, k: nat, p: nat)
    requires k < |known| && |slots| == |c.shorttxids|
  {
    HitsPlace(c, known, slots, k, p) && forall j :: 0 <= j < |known| && j != k ==> !HitsPlace(c, known, slots, j, p)
  }

  /** Prefilled and short-id places share out all the places, each in order. */
  ghost predicate Shared(c: CompactBlock, slots: seq<nat>) {
    && WellPlaced(c) && |slots| == |c.shorttxids| && Increasing(slots)
    && (forall i :: 0 <= i < |slots| ==> slots[i] < TxCount(c))
    && (forall p :: 0 <= p < TxCount(c) ==> (p in slots <==> !exists i :: 0 <= i < |c.prefilledtxn| && PrefilledAt(c, i) == p))
  }

  /** A place that no known transaction hits: the prefilled transaction, or nothing. */
  ghost predicate Untouched(c: CompactBlock, slots: seq<nat>, s: Slots, p: nat)
    requires p < |s|
  {
    && (forall i :: 0 <= i < |c.prefilledtxn| && PrefilledAt(c, i) == p ==> s[p] == Some(c.prefilledtxn[i].tx))
    && (p in slots ==> s[p].None?)
  }

  /** What `InitData` promises of a place for messages of every size. */
  ghost predicate RebuiltAt(c: CompactBlock, known: Known, slots: seq<nat>, s: Slots, p: nat)
    requires |slots| == |c.shorttxids| && p < |s|
  {
    && ((forall k :: 0 <= k < |known| ==> !HitsPlace(c, known, slots, k, p)) ==> Untouched(c, slots, s, p))
    && (s[p].Some? ==> Untouched(c, slots, s, p) ||
                       exists k :: 0 <= k < |known| && HitsPlace(c, known, slots, k, p) && s[p] == Some(known[k].1))
    && (forall k :: 0 <= k < |known| && OnlyHitsPlace(c, known, slots, k, p) ==> s[p] == Some(known[k].1))
  }

  ghost predicate Rebuilt(c: CompactBlock, known: Known, slots: seq<nat>, s: Slots) {
    && Shared(c, slots) && |s| == TxCount(c)
    && forall p :: 0 <= p < |s| ==> RebuiltAt(c, known, slots, s, p)
  }

  /** What `InitData` promises of messages whose places fit in 16 bits: matches are in the places of their own short ids. */
  ghost predicate Initialized(c: CompactBlock, known: Known, slots: seq<nat>, s: Slots) {
    && Shared(c, slots) && |s| == TxCount(c)
    && (forall i :: 0 <= i < |c.prefilledtxn| ==> PrefilledAt(c, i) < |s| && s[PrefilledAt(c, i)] == Some(c.prefilledtxn[i].tx))
    && (forall i :: 0 <= i < |slots| ==> s[slots[i]].Some? ==> HasShortId(c, known, i, s[slots[i]].value))
  }

  /** A transaction that is the only one with a short id fills its place. */
  ghost predicate OnlyMatchesFill(c: CompactBlock, known: Known, slots: seq<nat>, s: Slots)
    requires |slots| == |c.shorttxids| && forall i :: 0 <= i < |slots| ==> slots[i] < |s|
  {
    forall i, k :: 0 <= i < |slots| && 0 <= k < |known| && OnlyMatch(c, known, k, i) ==> s[slots[i]] == Some(known[k].1)
  }

  /** The places filled with known transactions. */
  ghost function Recovered(c: CompactBlock, known: Known, slots: seq<nat>, s: Slots): set<nat>
    requires |slots| == |c.shorttxids|
  {
    set p | 0 <= p < |s| && s[p].Some? && exists k :: 0 <= k < |known| && HitsPlace(c, known, slots, k, p)
  }

  lemma HitsAgree(c: CompactBlock, ids: map<ShortId, nat>, known: Known, slots: seq<nat>, k: nat, p: nat)
    requires Mapped(ids, c.shorttxids, slots) && |ids| == |c.shorttxids| && k < |known|
    ensures Hits(c, ids, known, k, p) <==> HitsPlace(c, known, slots, k, p)
  {
    hide Place;
    if Hits(c, ids, known, k, p) {
      var id := c.shortId(known[k].0);
      var i :| 0 <= i < |c.shorttxids| && c.shorttxids[i] == id;
      assert Matches(c, known, k, i);
    }
    if HitsPlace(c, known, slots, k, p) {
      var i :| 0 <= i < |slots| && Matches(c, known, k, i) && Place(slots[i]) == p;
      assert c.shorttxids[i] in c.shorttxids;
    }
  }

  lemma AllShared(c: CompactBlock, s0: Slots, slots: seq<nat>)
    requires WellPlaced(c) && Placed(c, |c.prefilledtxn|, s0) && Slotted(s0, slots) && |slots| == |c.shorttxids|
    ensures Shared(c, slots) && |s0| == TxCount(c)
    ensures forall s, p :: |s| == |s0| && 0 <= p < |s| && s[p] == s0[p] ==> Untouched(c, slots, s, p)
  {
    hide PrefilledAt, Increasing;
    forall p | 0 <= p < |s0| ensures p in slots <==> !exists i :: 0 <= i < |c.prefilledtxn| && PrefilledAt(c, i) == p {
      assert p in slots <==> s0[p].None?;
    }
  }

  lemma AllRebuilt(c: CompactBlock, ids: map<ShortId, nat>, known: Known, s0: Slots, slots: seq<nat>, s: Slots, have: seq<bool>)
    requires WellPlaced(c) && Placed(c, |c.prefilledtxn|, s0) && Slotted(s0, slots)
    requires Mapped(ids, c.shorttxids, slots) && |ids| == |c.shorttxids|
    requires Settled(c, ids, known, |known|, s0, s, have)
    ensures Rebuilt(c, known, slots, s) && Held(s, have) == Recovered(c, known, slots, s)
  {
    hide WellPlaced, Placed, Slotted, Mapped, Hits, HitsPlace, Untouched, Shared;
    SameLength(ids, c.shorttxids, slots);
    AllShared(c, s0, slots);
    forall k, p | 0 <= k < |known| ensures Hits(c, ids, known, k, p) <==> HitsPlace(c, known, slots, k, p) {
      HitsAgree(c, ids, known, slots, k, p);
    }
    forall p | 0 <= p < |s| ensures RebuiltAt(c, known, slots, s, p) && (p in Held(s, have) <==> p in Recovered(c, known, slots, s)) {
      SettledPlace(c, ids, known, |known|, s0, s, have, p);
      assert s[p] == s0[p] ==> Untouched(c, slots, s, p);
    }
  }

  lemma SameLength(ids: map<ShortId, nat>, short: seq<ShortId>, slots: seq<nat>)
    requires Mapped(ids, short, slots)
    ensures |slots| == |short| && (|ids| == |short| <==> AllDistinct(short))
  {
  }

  /** With places of 16 bits, only the transactions with short id `i` hit its place. */
  lemma OwnHits(c: CompactBlock, known: Known, slots: seq<nat>, k: nat, i: nat)
    requires Shared(c, slots) && TxCount(c) <= MAX_U16 + 1 && k < |known| && i < |slots|
    ensures HitsPlace(c, known, slots, k, slots[i]) <==> Matches(c, known, k, i)
  {
    hide Matches, WellPlaced, PrefilledAt;
    forall j | 0 <= j < |slots| ensures Place(slots[j]) == slots[j] && (slots[j] == slots[i] ==> j == i) {
      SmallPlace(slots[j]);
      if j != i {
        Distinct(slots, i, j);
      }
    }
  }

  lemma Distinct(slots: seq<nat>, i: nat, j: nat)
    requires Increasing(slots) && i < |slots| && j < |slots| && i != j
    ensures slots[i] != slots[j]
  {
  }

  /** With places of 16 bits, nothing hits a prefilled place. */
  lemma PrefilledSafe(c: CompactBlock, known: Known, slots: seq<nat>, k: nat, n: nat)
    requires Shared(c, slots) && TxCount(c) <= MAX_U16 + 1 && k < |known| && n < |c.prefilledtxn|
    ensures !HitsPlace(c, known, slots, k, PrefilledAt(c, n))
  {
    hide Matches, PrefilledAt, Increasing;
    assert PrefilledAt(c, n) < TxCount(c);
    assert PrefilledAt(c, n) !in slots;
    forall j | 0 <= j < |slots| ensures Place(slots[j]) != PrefilledAt(c, n) {
      SmallPlace(slots[j]);
    }
  }

  lemma NarrowPlace(c: CompactBlock, known: Known, slots: seq<nat>, s: Slots, i: nat)
    requires Rebuilt(c, known, slots, s) && TxCount(c) <= MAX_U16 + 1 && i < |slots|
    ensures s[slots[i]].Some? ==> HasShortId(c, known, i, s[slots[i]].value)
    ensures forall k :: 0 <= k < |known| && OnlyMatch(c, known, k, i) ==> s[slots[i]] == Some(known[k].1)
  {
    hide HitsPlace, WellPlaced, PrefilledAt;
    assert RebuiltAt(c, known, slots, s, slots[i]) && slots[i] in slots;
    forall k | 0 <= k < |known| ensures HitsPlace(c, known, slots, k, slots[i]) <==> Matches(c, known, k, i) {
      OwnHits(c, known, slots, k, i);
    }
    if s[slots[i]].Some? {
      var k :| 0 <= k < |known| && HitsPlace(c, known, slots, k, slots[i]) && s[slots[i]] == Some(known[k].1);
      assert known[k] in known;
    }
  }

  lemma NarrowPrefilled(c: CompactBlock, known: Known, slots: seq<nat>, s: Slots, i: nat)
    requires Rebuilt(c, known, slots, s) && TxCount(c) <= MAX_U16 + 1 && i < |c.prefilledtxn|
    ensures PrefilledAt(c, i) < |s| && s[PrefilledAt(c, i)] == Some(c.prefilledtxn[i].tx)
  {
    hide HitsPlace, PrefilledAt, Increasing;
    assert PrefilledAt(c, i) < |s|;
    assert RebuiltAt(c, known, slots, s, PrefilledAt(c, i));
    forall k | 0 <= k < |known| ensures !HitsPlace(c, known, slots, k, PrefilledAt(c, i)) {
      PrefilledSafe(c, known, slots, k, i);
    }
  }

  /** Messages of at most 65536 transactions are put together rightly. */
  lemma NarrowIsRight(c: CompactBlock, known: Known, slots: seq<nat>, s: Slots)
    requires Rebuilt(c, known, slots, s) && TxCount(c) <= MAX_U16 + 1
    ensures Initialized(c, known, slots, s) && OnlyMatchesFill(c, known, slots, s)
  {
    hide RebuiltAt, OnlyMatch, HasShortId, PrefilledAt, Increasing;
    forall i | 0 <= i < |c.prefilledtxn| ensures PrefilledAt(c, i) < |s| && s[PrefilledAt(c, i)] == Some(c.prefilledtxn[i].tx) {
      NarrowPrefilled(c, known, slots, s, i);
    }
    forall i | 0 <= i < |slots|
      ensures s[slots[i]].Some? ==> HasShortId(c, known, i, s[slots[i]].value)
      ensures forall k :: 0 <= k < |known| && OnlyMatch(c, known, k, i) ==> s[slots[i]] == Some(known[k].1)
    {
      NarrowPlace(c, known, slots, s, i);
    }
  }

  /** In longer messages the places from 65536 on stay empty. */
  lemma WidePlace(c: CompactBlock, known: Known, slots: seq<nat>, s: Slots, p: nat)
    requires Rebuilt(c, known, slots, s) && MAX_U16 < p < |s|
    ensures p in slots && s[p].None?
  {
    hide Matches, PrefilledAt, Increasing;
    assert forall k :: 0 <= k < |known| ==> !HitsPlace(c, known, slots, k, p);
    assert RebuiltAt(c, known, slots, s, p);
  }

  /** So the last short id is never matched. */
  lemma WideMisses(c: CompactBlock, known: Known, slots: seq<nat>, s: Slots)
    requires Rebuilt(c, known, slots, s) && TxCount(c) > MAX_U16 + 1
    ensures exists i :: 0 <= i < |slots| && s[slots[i]].None? && slots[i] == TxCount(c) - 1
  {
    hide RebuiltAt, Increasing, PrefilledAt;
    WidePlace(c, known, slots, s, TxCount(c) - 1);
  }

  ghost function Gaps(s: Slots): nat {
    if s == [] then 0 else Gaps(s[..|s| - 1]) + if s[|s| - 1].None? then 1 else 0
  }

  /** The places filled, the gaps with the missing transactions in order. */
  ghost function Filled(s: Slots, missing: seq<Tx>): (r: seq<Tx>)
    requires |missing| == Gaps(s)
    ensures |r| == |s|
    decreases |s|
  {
    if s == [] then []
    else
      var n := |s| - 1;
      match s[n]
      case Some(tx) => Filled(s[..n], missing) + [tx]
      case None => Filled(s[..n], missing[..|missing| - 1]) + [missing[|missing| - 1]]
  }

  datatype CheckResult = Good | Corrupt | Bad

  class PartiallyDownloadedBlock {
    var txn_available: Slots
    var headerIsNull: bool
    var prefilled_count: nat
    var mempool_count: nat

    constructor ()
      ensures headerIsNull && txn_available == [] && mempool_count == 0
    {
      headerIsNull, txn_available, prefilled_count, mempool_count := true, [], 0, 0;
    }

    /**
     `maxTxs` is MAX_BLOCK_WEIGHT / MIN_SERIALIZABLE_TRANSACTION_WEIGHT, and `hangs`
     says that the call does not return.
     */
    method InitData(c: CompactBlock, pool: Known, extra: Known, maxTxs: nat, crowded: nat -> bool)
      returns (hangs: bool, status: ReadStatus, ghost slots: seq<nat>)
      requires headerIsNull && txn_available == [] && mempool_count == 0
      modifies this
      ensures hangs <==> Sound(c, maxTxs) && Endless(c)
      ensures !hangs ==> (status == Invalid <==> !Sound(c, maxTxs))
      ensures !hangs ==> (status == Failed <==> Sound(c, maxTxs) && (!AllDistinct(c.shorttxids) || exists i :: 0 <= i < |c.shorttxids| && crowded(i)))
      ensures !hangs ==> status != CheckBlockFailed
      ensures !hangs && status == Ok ==>
                && !headerIsNull && prefilled_count == |c.prefilledtxn| && Rebuilt(c, pool + extra, slots, txn_available)
                && mempool_count == |Recovered(c, pool + extra, slots, txn_available)|
      ensures !hangs && status == Ok && TxCount(c) <= MAX_U16 + 1 ==>
                Initialized(c, pool + extra, slots, txn_available) && OnlyMatchesFill(c, pool + extra, slots, txn_available)
    {
      hide WellPlaced, Placed, Mapped, Slotted, Rebuilt, Initialized, SettledAt, OnlyMatchesFill, Held, Recovered;
      slots := [];
      hangs := false;
      if c.headerIsNull || (|c.shorttxids| == 0 && |c.prefilledtxn| == 0) {
        return false, Invalid, slots;
      }
      if |c.shorttxids| + |c.prefilledtxn| > maxTxs {
        return false, Invalid, slots;
      }
      headerIsNull := false;
      var ok, s0 := PlacePrefilled(c);
      txn_available := s0;
      if !ok {
        return false, Invalid, slots;
      }
      prefilled_count := |c.prefilledtxn|;
      var ids;
      hangs, ids, slots := SlotShortIds(c, s0, crowded);
      if hangs {
        return true, Ok, slots;
      }
      if ids.None? {
        return false, Failed, slots;
      }
      SameLength(ids.value, c.shorttxids, slots);
      if |ids.value| != |c.shorttxids| {
        return false, Failed, slots;
      }
      ghost var known := pool + extra;
      var have := seq(|s0|, _ => false);
      MapInRange(ids.value, c.shorttxids, s0, slots);
      NothingSettled(c, ids.value, known, s0, have);
      var s, count := s0, mempool_count;
      s, have, count := MatchKnown(c, ids.value, pool, false, s, have, count, known, 0, s0);
      s, have, count := MatchKnown(c, ids.value, extra, true, s, have, count, known, |pool|, s0);
      txn_available := s;
      mempool_count := count;
      AllRebuilt(c, ids.value, known, s0, slots, s, have);
      if TxCount(c) <= MAX_U16 + 1 {
        NarrowIsRight(c, known, slots, s);
      }
      return false, Ok, slots;
    }

    /** `check` is the outcome of `CheckBlock` on the rebuilt transactions. */
    method FillBlock(missing: seq<Tx>, check: seq<Tx> -> CheckResult) returns (status: ReadStatus, vtx: seq<Tx>)
      requires !headerIsNull
      modifies this
      ensures |missing| < old(Gaps(txn_available)) ==>
                status == Invalid && !headerIsNull && MovedOut(old(txn_available), |missing|, txn_available)
      ensures |missing| > old(Gaps(txn_available)) ==> status == Invalid && headerIsNull && txn_available == []
      ensures |missing| == old(Gaps(txn_available)) ==>
                && vtx == Filled(old(txn_available), missing) && headerIsNull && txn_available == [] && status == Outcome(check, vtx)
    {
      hide Gaps, Filled, EmptiedTo;
      vtx := [];
      var offset := 0;
      AllThere(txn_available);
      ghost var s := txn_available;
      NoGaps(s, missing);
      for i := 0 to |txn_available|
        invariant EmptiedTo(s, i, txn_available) && |txn_available| == |s| && !headerIsNull
        invariant 0 <= offset == Gaps(s[..i]) <= |missing| && vtx == Filled(s[..i], missing[..offset])
      {
        EmptyOne(s, i, txn_available);
        GapsMonotone(s, i + 1);
        OneMorePlace(s, i, missing, offset);
        if txn_available[i].None? {
          if |missing| <= offset {
            return Invalid, vtx;
          }
          vtx := vtx + [missing[offset]];
          offset := offset + 1;
        } else {
          vtx := vtx + [txn_available[i].value];
          txn_available := txn_available[i := None];
        }
      }
      assert s[..|s|] == s;
      headerIsNull := true;
      txn_available := [];
      if |missing| != offset {
        return Invalid, vtx;
      }
      assert missing[..offset] == missing;
      match check(vtx)
      case Good => return Ok, vtx;
      case Corrupt => return Failed, vtx;
      case Bad => return CheckBlockFailed, vtx;
    }

    /**
     A call with too few transactions, and another with exactly those that were
     missing at first: it succeeds exactly if the first call had nothing to move
     out, which is so if there are only gaps up to the one it could not fill.
     */
    method FillAgain(few: seq<Tx>, right: seq<Tx>, check: seq<Tx> -> CheckResult) returns (first: ReadStatus, second: ReadStatus, vtx: seq<Tx>)
      requires !headerIsNull && |few| < Gaps(txn_available) == |right|
      modifies this
      ensures first == Invalid
      ensures if OnlyGaps(old(txn_available), |few| + 1) then vtx == Filled(old(txn_available), right) && second == Outcome(check, vtx)
              else second == Invalid
    {
      hide Gaps, Filled, OnlyGaps;
      ghost var s := txn_available;
      first, vtx := FillBlock(few, check);
      GapsAfterMove(s, |few|, txn_available);
      second, vtx := FillBlock(right, check);
    }
  }

  function Outcome(check: seq<Tx> -> CheckResult, vtx: seq<Tx>): ReadStatus {
    match check(vtx)
    case Good => Ok
    case Corrupt => Failed
    case Bad => CheckBlockFailed
  }

  /** The first `i` places have been emptied. */
  ghost predicate EmptiedTo(s: Slots, i: nat, s': Slots) {
    i <= |s| && s' == seq(i, _ => None) + s[i..]
  }

  lemma AllThere(s: Slots)
    ensures EmptiedTo(s, 0, s)
  {
  }

  lemma EmptyOne(s: Slots, i: nat, s': Slots)
    requires EmptiedTo(s, i, s') && i < |s|
    ensures |s'| == |s| && s'[i] == s[i] && EmptiedTo(s, i + 1, s'[i := None])
    ensures s[i].None? ==> EmptiedTo(s, i + 1, s')
  {
    assert s'[i] == s[i..][0];
    assert s'[i := None] == seq(i + 1, _ => None) + s[i + 1..];
    if s[i].None? {
      assert s'[i := None] == s';
    }
  }

  /** What is left of `s` when gap number `n` could not be filled: every place before it has been emptied. */
  ghost predicate MovedOut(s: Slots, n: nat, s': Slots) {
    exists i :: 0 <= i < |s| && s[i].None? && Gaps(s[..i]) == n && EmptiedTo(s, i, s')
  }

  ghost predicate OnlyGaps(s: Slots, n: nat) {
    n <= |s| && forall p :: 0 <= p < n ==> s[p].None?
  }

  lemma {:induction false} GapsSplit(a: Slots, b: Slots)
    ensures Gaps(a + b) == Gaps(a) + Gaps(b)
  {
    if b == [] {
      assert a + b == a;
    } else {
      var n := |b| - 1;
      GapsSplit(a, b[..n]);
      assert (a + b)[..|a| + n] == a + b[..n];
    }
  }

  lemma {:induction false} GapsAtMost(s: Slots)
    ensures Gaps(s) <= |s| && (Gaps(s) == |s| <==> OnlyGaps(s, |s|))
  {
    if s != [] {
      var n := |s| - 1;
      GapsAtMost(s[..n]);
      assert OnlyGaps(s, |s|) <==> OnlyGaps(s[..n], n) && s[n].None?;
    }
  }

  /** Emptied places are new gaps. */
  lemma GapsAfterMove(s: Slots, n: nat, s': Slots)
    requires MovedOut(s, n, s')
    ensures Gaps(s') >= Gaps(s) && (Gaps(s') == Gaps(s) <==> OnlyGaps(s, n + 1)) && (OnlyGaps(s, n + 1) ==> s' == s)
  {
    hide Gaps;
    var i :| 0 <= i < |s| && s[i].None? && Gaps(s[..i]) == n && EmptiedTo(s, i, s');
    var none: Slots := seq(i, _ => None);
    assert s == s[..i] + s[i..];
    GapsSplit(s[..i], s[i..]);
    GapsSplit(none, s[i..]);
    GapsAtMost(none);
    GapsAtMost(s[..i]);
    OnlyFront(s, i, n);
    if OnlyGaps(s[..i], i) {
      assert s[..i] == none;
    }
  }

  /** The places before gap number `n` are all gaps exactly if the first `n + 1` places are. */
  lemma OnlyFront(s: Slots, i: nat, n: nat)
    requires i < |s| && s[i].None? && Gaps(s[..i]) == n
    ensures OnlyGaps(s[..i], i) <==> OnlyGaps(s, n + 1)
  {
    hide Gaps;
    GapsAtMost(s[..i]);
    if OnlyGaps(s[..i], i) {
      forall p | 0 <= p < n + 1 ensures s[p].None? {
        assert p < i ==> s[p] == s[..i][p];
      }
    } else if OnlyGaps(s, n + 1) {
      assert n < i;
      FrontGaps(s[..i], n + 1);
    }
  }

  lemma FrontGaps(s: Slots, n: nat)
    requires OnlyGaps(s, n)
    ensures Gaps(s) >= n
  {
    GapsAtMost(s[..n]);
    GapsSplit(s[..n], s[n..]);
    assert s == s[..n] + s[n..];
  }

  /** A transaction in place and a gap: after an empty answer the right one does not help. */
  method FillAgainExample(tx: Tx, other: Tx, check: seq<Tx> -> CheckResult) returns (first: ReadStatus, second: ReadStatus)
    ensures first == Invalid && second == Invalid
  {
    var node := new PartiallyDownloadedBlock();
    node.headerIsNull, node.txn_available := false, [Some(tx), None];
    OneGap(tx);
    var vtx;
    first, second, vtx := node.FillAgain([], [other], check);
  }

  lemma OneGap(tx: Tx)
    ensures Gaps([Some(tx), None]) == 1
  {
    var s: Slots := [Some(tx), None];
    assert s[..1] == [Some(tx)];
    assert s[..1][..0] == [];
    assert Gaps(s[..1]) == 0;
  }

  /** What the tests of `InitData` on the whole message accept. */
  ghost predicate Sound(c: CompactBlock, maxTxs: nat) {
    !c.headerIsNull && 0 < TxCount(c) <= maxTxs && WellPlaced(c)
  }

  lemma MapInRange(ids: map<ShortId, nat>, short: seq<ShortId>, s0: Slots, slots: seq<nat>)
    requires Mapped(ids, short, slots) && |ids| == |short| && Slotted(s0, slots)
    ensures forall id <- ids :: ids[id] < |s0|
  {
    hide Increasing;
    forall id <- ids ensures ids[id] < |s0| {
      var i :| 0 <= i < |short| && short[i] == id;
      PlaceSmaller(slots[i]);
    }
  }

  lemma PlaceSmaller(p: nat)
    ensures Place(p) <= p
  {
  }

  lemma NothingSettled(c: CompactBlock, ids: map<ShortId, nat>, known: Known, s0: Slots, have: seq<bool>)
    requires |have| == |s0| && forall p :: 0 <= p < |have| ==> !have[p]
    ensures Settled(c, ids, known, 0, s0, s0, have) && |Held(s0, have)| == 0
  {
    assert Held(s0, have) == {};
  }

  lemma {:induction false} FrontPlaces(c: CompactBlock, i: nat)
    requires i < |c.prefilledtxn| && forall j :: 0 <= j < |c.prefilledtxn| ==> c.prefilledtxn[j].index == 0
    ensures PrefilledAt(c, i) == i
  {
    NextPosition(c, i);
    if i > 0 {
      FrontPlaces(c, i - 1);
    }
  }

  /** 65536 prefilled transactions in a row and one short id: the call does not return. */
  method HangExample(tx: Tx, crowded: nat -> bool) returns (hangs: bool)
    requires !tx.isNull
    ensures hangs
  {
    var c := CompactBlock(false, [7], seq(MAX_U16 + 1, _ => Prefilled(0, tx)), h => h);
    forall i | 0 <= i < |c.prefilledtxn| ensures PrefilledAt(c, i) == i {
      FrontPlaces(c, i);
    }
    var node := new PartiallyDownloadedBlock();
    var status;
    ghost var slots;
    hangs, status, slots := node.InitData(c, [], [], 100000, crowded);
  }

  lemma {:induction false} FullOrder(slots: seq<nat>, i: nat)
    requires Increasing(slots) && i < |slots| && forall j :: 0 <= j < |slots| ==> slots[j] < |slots|
    ensures slots[i] == i
  {
    AboveIndex(slots, i);
    BelowIndex(slots, i);
  }

  lemma {:induction false} AboveIndex(slots: seq<nat>, i: nat)
    requires Increasing(slots) && i < |slots|
    ensures slots[i] >= i
  {
    if i > 0 {
      AboveIndex(slots, i - 1);
    }
  }

  lemma {:induction false} BelowIndex(slots: seq<nat>, i: nat)
    requires Increasing(slots) && i < |slots| && slots[|slots| - 1] < |slots|
    ensures slots[i] <= i
    decreases |slots| - i
  {
    if i < |slots| - 1 {
      BelowIndex(slots, i + 1);
    }
  }

  /** One known transaction, with short id number 65536, ends up in place 0. */
  lemma WrongPlace(c: CompactBlock, tx: Tx, slots: seq<nat>, s: Slots)
    requires c == CompactBlock(false, seq(MAX_U16 + 2, i => i), [], h => h)
    requires Rebuilt(c, [(MAX_U16 + 1, tx)], slots, s)
    ensures |s| == MAX_U16 + 2 && s[0] == Some(tx) && s[MAX_U16 + 1].None?
  {
    var known := [(MAX_U16 + 1, tx)];
    WidePlace(c, known, slots, s, MAX_U16 + 1);
    FullOrder(slots, MAX_U16 + 1);
    assert Matches(c, known, 0, MAX_U16 + 1);
    assert HitsPlace(c, known, slots, 0, 0);
    assert RebuiltAt(c, known, slots, s, 0);
    assert OnlyHitsPlace(c, known, slots, 0, 0);
  }

  /** 65537 short ids: the transaction of the last one is put in the first place. */
  method WideExample(tx: Tx) returns (hangs: bool, status: ReadStatus, first: Option<Tx>, last: Option<Tx>)
    ensures !hangs && status == Ok && first == Some(tx) && last == None
  {
    var c := CompactBlock(false, seq(MAX_U16 + 2, i => i), [], h => h);
    var node := new PartiallyDownloadedBlock();
    ghost var slots;
    hangs, status, slots := node.InitData(c, [(MAX_U16 + 1, tx)], [], 100000, _ => false);
    assert [(MAX_U16 + 1, tx)] + [] == [(MAX_U16 + 1, tx)];
    WrongPlace(c, tx, slots, node.txn_available);
    first, last := node.txn_available[0], node.txn_available[MAX_U16 + 1];
  }

  lemma NoGaps(s: Slots, missing: seq<Tx>)
    ensures Gaps(s[..0]) == 0 && Filled(s[..0], missing[..0]) == []
  {
  }

  lemma {:induction false} GapsMonotone(s: Slots, i: nat)
    requires i <= |s|
    ensures Gaps(s[..i]) <= Gaps(s)
    decreases |s| - i
  {
    if i < |s| {
      GapsMonotone(s, i + 1);
      assert s[..i + 1][..i] == s[..i];
    } else {
      assert s[..i] == s;
    }
  }

  lemma OneMorePlace(s: Slots, i: nat, missing: seq<Tx>, offset: nat)
    requires i < |s| && offset == Gaps(s[..i]) <= |missing|
    ensures Gaps(s[..i + 1]) == offset + if s[i].None? then 1 else 0
    ensures s[i].Some? ==> Filled(s[..i + 1], missing[..offset]) == Filled(s[..i], missing[..offset]) + [s[i].value]
    ensures s[i].None? && offset < |missing| ==>
              Filled(s[..i + 1], missing[..offset + 1]) == Filled(s[..i], missing[..offset]) + [missing[offset]]
  {
    assert s[..i + 1][..i] == s[..i];
    if s[i].None? && offset < |missing| {
      assert missing[..offset + 1][..offset] == missing[..offset];
    }
  }

  // ------------------------------------------------------------------------ rebuilding a block

  /** The compact block carries the prefilled transactions of `vtx` in their places. */
  ghost predicate Describes(c: CompactBlock, vtx: seq<Tx>) {
    && |vtx| == TxCount(c)
    && forall i :: 0 <= i < |c.prefilledtxn| ==> PrefilledAt(c, i) < |vtx| && vtx[PrefilledAt(c, i)] == c.prefilledtxn[i].tx
  }

  /** Known transactions with a short id of the block are the transactions of the block. */
  ghost predicate Genuine(c: CompactBlock, known: Known, slots: seq<nat>, vtx: seq<Tx>)
    requires |slots| == |c.shorttxids| && forall i :: 0 <= i < |slots| ==> slots[i] < |vtx|
  {
    forall i, e :: 0 <= i < |slots| && e in known && c.shortId(e.0) == c.shorttxids[i] ==> e.1 == vtx[slots[i]]
  }

  /** Every transaction in place is the right one. */
  ghost predicate PartOf(s: Slots, vtx: seq<Tx>) {
    |s| == |vtx| && forall p :: 0 <= p < |s| && s[p].Some? ==> s[p].value == vtx[p]
  }

  lemma GenuineParts(c: CompactBlock, known: Known, slots: seq<nat>, s: Slots, vtx: seq<Tx>)
    requires Initialized(c, known, slots, s) && Describes(c, vtx) && Genuine(c, known, slots, vtx)
    ensures PartOf(s, vtx)
  {
    hide PrefilledAt, Increasing;
    forall p | 0 <= p < |s| && s[p].Some? ensures s[p].value == vtx[p] {
      if p in slots {
        var i :| 0 <= i < |slots| && slots[i] == p;
        assert HasShortId(c, known, i, s[p].value);
      } else {
        var i :| 0 <= i < |c.prefilledtxn| && PrefilledAt(c, i) == p;
      }
    }
  }

  /** The transactions of `vtx` at the gaps, in order. */
  function MissingOf(s: Slots, vtx: seq<Tx>): (r: seq<Tx>)
    requires |s| == |vtx|
  {
    if s == [] then []
    else MissingOf(s[..|s| - 1], vtx[..|s| - 1]) + if s[|s| - 1].None? then [vtx[|s| - 1]] else []
  }

  /** Filling the gaps with exactly the missing transactions gives the block back. */
  lemma {:induction false} FilledIsBlock(s: Slots, vtx: seq<Tx>)
    requires PartOf(s, vtx)
    ensures |MissingOf(s, vtx)| == Gaps(s) && Filled(s, MissingOf(s, vtx)) == vtx
  {
    if s != [] {
      var n := |s| - 1;
      FilledIsBlock(s[..n], vtx[..n]);
      var m := MissingOf(s[..n], vtx[..n]);
      if s[n].None? {
        assert (m + [vtx[n]])[..|m|] == m;
      } else {
        assert MissingOf(s, vtx) == m;
      }
      assert vtx == vtx[..n] + [vtx[n]];
    }
  }

  /** `CBlockHeaderAndShortTxIDs`: the coinbase prefilled, short ids for the rest. */
  method MakeCompact(vtx: seq<Tx>, key: Tx -> Hash, shortId: Hash -> ShortId) returns (c: CompactBlock)
    requires |vtx| > 0
    ensures c == CompactBlock(false, c.shorttxids, [Prefilled(0, vtx[0])], shortId)
    ensures |c.shorttxids| == |vtx| - 1 && forall i :: 1 <= i < |vtx| ==> c.shorttxids[i - 1] == shortId(key(vtx[i]))
  {
    var ids: seq<ShortId> := [];
    for i := 1 to |vtx|
      invariant |ids| == i - 1 && forall j :: 1 <= j < i ==> ids[j - 1] == shortId(key(vtx[j]))
    {
      ids := ids + [shortId(key(vtx[i]))];
    }
    c := CompactBlock(false, ids, [Prefilled(0, vtx[0])], shortId);
  }

  lemma CoinbaseFirst(c: CompactBlock, tx: Tx)
    requires c.prefilledtxn == [Prefilled(0, tx)]
    ensures PrefilledAt(c, 0) == 0 && (WellPlaced(c) <==> !tx.isNull)
  {
  }

  /** With the first place taken, the short ids get the others one by one. */
  lemma {:induction false} SlotsFollow(slots: seq<nat>, i: nat)
    requires Increasing(slots) && i < |slots| && slots[0] >= 1 && slots[|slots| - 1] <= |slots|
    ensures slots[i] == i + 1
  {
    AtLeast(slots, i);
    AtMost(slots, i);
  }

  lemma {:induction false} AtLeast(slots: seq<nat>, i: nat)
    requires Increasing(slots) && i < |slots| && slots[0] >= 1
    ensures slots[i] >= i + 1
  {
    if i > 0 {
      AtLeast(slots, i - 1);
    }
  }

  lemma {:induction false} AtMost(slots: seq<nat>, i: nat)
    requires Increasing(slots) && i < |slots| && slots[|slots| - 1] <= |slots|
    ensures slots[i] <= i + 1
    decreases |slots| - i
  {
    if i < |slots| - 1 {
      AtMost(slots, i + 1);
    }
  }

  lemma CompactSlots(c: CompactBlock, tx: Tx, known: Known, slots: seq<nat>, s: Slots, i: nat)
    requires c.prefilledtxn == [Prefilled(0, tx)] && Initialized(c, known, slots, s) && i < |slots|
    ensures slots[i] == i + 1
  {
    hide HasShortId, PrefilledAt;
    CoinbaseFirst(c, tx);
    assert slots[0] in slots;
    SlotsFollow(slots, i);
  }

  /**
   A block sent in compact form, to a node whose matches are genuine and that
   is then sent exactly what it misses, arrives unchanged.
   */
  method Transfer(vtx: seq<Tx>, key: Tx -> Hash, shortId: Hash -> ShortId, pool: Known, extra: Known, maxTxs: nat,
                  crowded: nat -> bool, check: seq<Tx> -> CheckResult)
    returns (init: ReadStatus, status: ReadStatus, block: seq<Tx>)
    requires 0 < |vtx| <= maxTxs && !vtx[0].isNull && check(vtx) == Good
    requires forall i, e :: 1 <= i < |vtx| && e in pool + extra && shortId(e.0) == shortId(key(vtx[i])) ==> e.1 == vtx[i]
    ensures init == Ok && |vtx| <= MAX_U16 + 1 ==> status == Ok && block == vtx
    ensures init == Ok <==> && (forall i, j :: 1 <= i < j < |vtx| ==> shortId(key(vtx[i])) != shortId(key(vtx[j])))
                            && forall i :: 0 <= i < |vtx| - 1 ==> !crowded(i)
  {
    hide Initialized, Describes, Genuine, PartOf, WellPlaced, Gaps, Filled;
    var c := MakeCompact(vtx, key, shortId);
    CoinbaseFirst(c, vtx[0]);
    IdsDistinct(vtx, key, c);
    var node := new PartiallyDownloadedBlock();
    ghost var slots;
    var hangs;
    hangs, init, slots := node.InitData(c, pool, extra, maxTxs, crowded);
    status, block := init, [];
    if init == Ok && |vtx| <= MAX_U16 + 1 {
      AllGenuine(c, vtx, key, pool + extra, slots, node.txn_available);
      FilledIsBlock(node.txn_available, vtx);
      status, block := node.FillBlock(MissingOf(node.txn_available, vtx), check);
    }
  }

  lemma IdsDistinct(vtx: seq<Tx>, key: Tx -> Hash, c: CompactBlock)
    requires |c.shorttxids| == |vtx| - 1 && forall i :: 1 <= i < |vtx| ==> c.shorttxids[i - 1] == c.shortId(key(vtx[i]))
    ensures AllDistinct(c.shorttxids) <==> forall i, j :: 1 <= i < j < |vtx| ==> c.shortId(key(vtx[i])) != c.shortId(key(vtx[j]))
  {
    if forall i, j :: 1 <= i < j < |vtx| ==> c.shortId(key(vtx[i])) != c.shortId(key(vtx[j])) {
      forall i, j | 0 <= i < j < |c.shorttxids| ensures c.shorttxids[i] != c.shorttxids[j] {
        assert c.shorttxids[(i + 1) - 1] == c.shortId(key(vtx[i + 1])) && c.shorttxids[(j + 1) - 1] == c.shortId(key(vtx[j + 1]));
      }
    }
    if AllDistinct(c.shorttxids) {
      forall i, j | 1 <= i < j < |vtx| ensures c.shortId(key(vtx[i])) != c.shortId(key(vtx[j])) {
        assert c.shorttxids[i - 1] != c.shorttxids[j - 1];
      }
    }
  }

  lemma AllGenuine(c: CompactBlock, vtx: seq<Tx>, key: Tx -> Hash, known: Known, slots: seq<nat>, s: Slots)
    requires |vtx| > 0 && c.prefilledtxn == [Prefilled(0, vtx[0])] && Initialized(c, known, slots, s)
    requires |c.shorttxids| == |vtx| - 1 && forall i :: 1 <= i < |vtx| ==> c.shorttxids[i - 1] == c.shortId(key(vtx[i]))
    requires forall i, e :: 1 <= i < |vtx| && e in known && c.shortId(e.0) == c.shortId(key(vtx[i])) ==> e.1 == vtx[i]
    ensures PartOf(s, vtx)
  {
    hide PrefilledAt, HasShortId, PartOf;
    CoinbaseFirst(c, vtx[0]);
    forall i | 0 <= i < |slots| ensures slots[i] == i + 1 {
      CompactSlots(c, vtx[0], known, slots, s, i);
    }
    forall i, e | 0 <= i < |slots| && e in known && c.shortId(e.0) == c.shorttxids[i] ensures e.1 == vtx[slots[i]] {
      assert c.shorttxids[i] == c.shorttxids[(i + 1) - 1] == c.shortId(key(vtx[i + 1]));
    }
    GenuineParts(c, known, slots, s, vtx);
  }
}
