/**
 The cuckoo cache: a table in which each element has eight possible slots, with
 lazily collected garbage and an epoch heuristic.  Insertion may push elements
 along a chain of slots and may drop the last one; the results here say that no
 chain loses more than one element, invents one, or misplaces one, and that the
 cheap epoch counter keeps the current epoch within bounds.
 */
module CuckooCache {
  const UINT32 := 0x1_0000_0000

  // ------------------------------------------------------------------ garbage flags

  /** A byte as its bits. */
  type Octet = b: seq<bool> | |b| == 8 witness [false, false, false, false, false, false, false, false]

  /** `1 << i` for a position in a byte. */
  function Mask(i: nat): Octet {
    seq(8, k => k == i)
  }

  function Or(x: Octet, y: Octet): Octet {
    seq(8, k requires 0 <= k < 8 => x[k] || y[k])
  }

  function And(x: Octet, y: Octet): Octet {
    seq(8, k requires 0 <= k < 8 => x[k] && y[k])
  }

  function Not(x: Octet): Octet {
    seq(8, k requires 0 <= k < 8 => !x[k])
  }

  predicate IsZero(x: Octet) {
    forall k :: 0 <= k < 8 ==> !x[k]
  }

  lemma SamePlace(s: nat, x: nat)
    ensures s / 8 == x / 8 && s % 8 == x % 8 <==> s == x
  {
  }

  /** Garbage flags packed eight to a byte. */
  class BitPackedFlags {
    var mem: array<Octet>

    /** The flags as a plain sequence. */
    ghost function Bits(): (bits: seq<bool>)
      reads this, mem
      ensures |bits| == 8 * mem.Length
    {
      seq(8 * mem.Length, s requires 0 <= s < 8 * mem.Length reads this, mem => mem[s / 8][s % 8])
    }

    /** Room for `size` flags, except that for the seven largest sizes the padding wraps around and gives none. */
    constructor (size: nat)
      requires size < UINT32
      ensures fresh(mem) && forall s :: 0 <= s < |Bits()| ==> Bits()[s]
      ensures if size + 7 < UINT32 then size <= |Bits()| < size + 8 else |Bits()| == 0
    {
      var n := (size + 7) % UINT32 / 8;
      mem := new Octet[n](_ => seq(8, _ => true));
    }

    method BitSet(s: nat)
      requires s < |Bits()|
      modifies mem
      ensures Bits() == old(Bits())[s := true]
    {
      mem[s / 8] := Or(mem[s / 8], Mask(s % 8));
      forall x | 0 <= x < |Bits()| ensures Bits()[x] == old(Bits())[s := true][x] {
        SamePlace(s, x);
      }
    }

    method BitUnset(s: nat)
      requires s < |Bits()|
      modifies mem
      ensures Bits() == old(Bits())[s := false]
    {
      mem[s / 8] := And(mem[s / 8], Not(Mask(s % 8)));
      forall x | 0 <= x < |Bits()| ensures Bits()[x] == old(Bits())[s := false][x] {
        SamePlace(s, x);
      }
    }

    method BitIsSet(s: nat) returns (r: bool)
      requires s < |Bits()|
      ensures r == Bits()[s]
    {
      var b := And(Mask(s % 8), mem[s / 8]);
      r := !IsZero(b);
      assert b[s % 8] == mem[s / 8][s % 8];
    }
  }

  /** The largest size the header allows, and the largest one that works. */
  method FlagsExample() returns (none: nat, enough: nat)
    ensures none == 0 && enough == UINT32 - 8
  {
    var flags := new BitPackedFlags(UINT32 - 2);
    none := 8 * flags.mem.Length;
    assert none == |flags.Bits()|;
    flags := new BitPackedFlags(UINT32 - 8);
    enough := 8 * flags.mem.Length;
    assert enough == |flags.Bits()|;
  }

  // --------------------------------------------------------------- tables, as values

  /** Table entries; the default-constructed value fills unused slots. */
  type Element = nat
  const BLANK: Element := 0

  type HashFunction = (nat, Element) -> nat

  /** The slot given by hash number `k`: a 32-bit hash as a fraction of the table size. */
  function SlotOf(hash: HashFunction, size: nat, k: nat, e: Element): (loc: nat)
    requires 0 < size
    ensures loc < size
  {
    var h := hash(k, e) % UINT32;
    assert h * size <= (UINT32 - 1) * size;
    h * size / UINT32
  }

  /** The eight slots an element may occupy. */
  function Slots(hash: HashFunction, size: nat, e: Element): (locs: seq<nat>)
    requires 0 < size
    ensures |locs| == 8 && forall k :: 0 <= k < 8 ==> locs[k] < size
  {
    seq(8, k requires 0 <= k < 8 => SlotOf(hash, size, k, e))
  }

  ghost predicate Shaped(table: seq<Element>, garbage: seq<bool>, size: nat) {
    |table| == size && size <= |garbage|
  }

  /** The elements that have not been given up for collection. */
  ghost function Live(table: seq<Element>, garbage: seq<bool>): set<Element>
    requires |table| <= |garbage|
  {
    set i | 0 <= i < |table| && !garbage[i] :: table[i]
  }

  /** Every element is in one of its slots, at most once, and live slots hold real elements. */
  ghost predicate Placed(hash: HashFunction, table: seq<Element>, garbage: seq<bool>)
    requires 0 < |table| <= |garbage|
  {
    && (forall i :: 0 <= i < |table| && table[i] != BLANK ==> i in Slots(hash, |table|, table[i]))
    && (forall i, j :: 0 <= i < j < |table| && table[i] == table[j] ==> table[i] == BLANK)
    && (forall i :: 0 <= i < |table| && !garbage[i] ==> table[i] != BLANK)
  }

  /** The number of live entries of the current epoch among the first `n`. */
  ghost function Recent(epoch: seq<bool>, garbage: seq<bool>, n: nat): nat
    requires n <= |epoch| && n <= |garbage|
  {
    if n == 0 then 0 else Recent(epoch, garbage, n - 1) + if epoch[n - 1] && !garbage[n - 1] then 1 else 0
  }

  /** Changing the flags of one slot changes the number by that slot alone. */
  lemma {:induction false} RecentUpdate(epoch: seq<bool>, garbage: seq<bool>, n: nat, i: nat, e: bool, g: bool)
    requires n <= |epoch| && n <= |garbage| && i < |epoch| && i < |garbage|
    ensures Recent(epoch[i := e], garbage[i := g], n) ==
            if i < n then Recent(epoch, garbage, n) - (if epoch[i] && !garbage[i] then 1 else 0) + (if e && !g then 1 else 0)
            else Recent(epoch, garbage, n)
  {
    if n > 0 {
      RecentUpdate(epoch, garbage, n - 1, i, e, g);
    }
  }

  /** An element not at any of its slots is nowhere in the table. */
  lemma NotInTable(hash: HashFunction, table: seq<Element>, garbage: seq<bool>, e: Element)
    requires 0 < |table| <= |garbage| && Placed(hash, table, garbage) && e != BLANK
    requires forall loc <- Slots(hash, |table|, e) :: table[loc] != e
    ensures e !in table
  {
  }

  /** Putting an absent element into one of its slots, live afterwards. */
  lemma StoreKeeps(hash: HashFunction, table: seq<Element>, garbage: seq<bool>, loc: nat, e: Element)
    requires 0 < |table| <= |garbage| && Placed(hash, table, garbage)
    requires e != BLANK && e !in table && loc in Slots(hash, |table|, e) && loc < |table|
    ensures Placed(hash, table[loc := e], garbage[loc := false])
    ensures Live(table[loc := e], garbage[loc := false]) ==
            (if garbage[loc] then Live(table, garbage) else Live(table, garbage) - {table[loc]}) + {e}
    ensures table[loc] != BLANK ==> table[loc] !in table[loc := e]
  {
    var table', garbage' := table[loc := e], garbage[loc := false];
    var live, live' := Live(table, garbage), Live(table', garbage');
    var expected := (if garbage[loc] then live else live - {table[loc]}) + {e};
    forall x ensures x in live' <==> x in expected {
      if x in live' {
        var i :| 0 <= i < |table'| && !garbage'[i] && table'[i] == x;
        assert i != loc ==> table[i] == x;
      }
      if x in expected && x != e {
        var i :| 0 <= i < |table| && !garbage[i] && table[i] == x;
        assert i != loc;
        assert table'[i] == x;
      }
      if x == e {
        assert table'[loc] == e;
      }
    }
  }

  /** Reviving an element that is in the table. */
  lemma KeepKeeps(hash: HashFunction, table: seq<Element>, garbage: seq<bool>, loc: nat)
    requires 0 < |table| <= |garbage| && Placed(hash, table, garbage) && loc < |table| && table[loc] != BLANK
    ensures Placed(hash, table, garbage[loc := false])
    ensures Live(table, garbage[loc := false]) == Live(table, garbage) + {table[loc]}
  {
    var garbage' := garbage[loc := false];
    var live, live' := Live(table, garbage), Live(table, garbage');
    forall x ensures x in live' <==> x in live + {table[loc]} {
      if x in live {
        var i :| 0 <= i < |table| && !garbage[i] && table[i] == x;
        assert !garbage'[i];
      }
      assert !garbage'[loc];
    }
  }

  /** Giving up the slot of one element removes that element. */
  lemma EraseKeeps(hash: HashFunction, table: seq<Element>, garbage: seq<bool>, loc: nat)
    requires 0 < |table| <= |garbage| && Placed(hash, table, garbage) && loc < |table| && table[loc] != BLANK
    ensures Placed(hash, table, garbage[loc := true])
    ensures Live(table, garbage[loc := true]) == Live(table, garbage) - {table[loc]}
  {
    var garbage' := garbage[loc := true];
    var live, live' := Live(table, garbage), Live(table, garbage');
    forall x ensures x in live' <==> x in live - {table[loc]} {
      if x in live && x != table[loc] {
        var i :| 0 <= i < |table| && !garbage[i] && table[i] == x;
        assert !garbage'[i];
      }
    }
  }

  /** Giving up more slots only removes live elements. */
  lemma CollectKeeps(hash: HashFunction, table: seq<Element>, garbage: seq<bool>, garbage': seq<bool>)
    requires 0 < |table| <= |garbage| == |garbage'| && Placed(hash, table, garbage)
    requires forall i :: 0 <= i < |table| && garbage[i] ==> garbage'[i]
    ensures Placed(hash, table, garbage') && Live(table, garbage') <= Live(table, garbage)
  {
  }

  /** The flags after an epoch change: the old epoch is given up and the current one becomes the old one. */
  ghost predicate Aged(epoch: seq<bool>, garbage: seq<bool>, epoch': seq<bool>, garbage': seq<bool>, size: nat)
    requires size == |epoch| == |epoch'| && size <= |garbage| == |garbage'|
  {
    forall i :: 0 <= i < size ==> !epoch'[i] && garbage'[i] == (garbage[i] || !epoch[i])
  }

  lemma {:induction false} AgedHasNoRecent(epoch: seq<bool>, garbage: seq<bool>, n: nat)
    requires n <= |epoch| && n <= |garbage| && forall i :: 0 <= i < n ==> !epoch[i]
    ensures Recent(epoch, garbage, n) == 0
  {
    if n > 0 {
      AgedHasNoRecent(epoch, garbage, n - 1);
    }
  }

  lemma LostOne(all: set<Element>, left: set<Element>, e: Element)
    requires left + {e} == all
    ensures left <= all && |all - left| <= 1
  {
    assert all - left <= {e};
    if e in left {
      assert all - left == {};
    } else {
      assert all - left == {e};
    }
  }

  /** The table holds only elements that were inserted. */
  ghost predicate AllKnown(table: seq<Element>, inserted: set<Element>) {
    forall i :: 0 <= i < |table| && table[i] != BLANK ==> table[i] in inserted
  }

  lemma KnownAfterStore(table: seq<Element>, inserted: set<Element>, loc: nat, e: Element)
    requires AllKnown(table, inserted) && e in inserted && loc < |table|
    ensures AllKnown(table[loc := e], inserted)
    ensures table[loc] != BLANK ==> table[loc] in inserted
  {
  }

  /** Some slot of the element may be overwritten. */
  ghost predicate HasFreeSlot(hash: HashFunction, size: nat, garbage: seq<bool>, e: Element)
    requires 0 < size <= |garbage|
  {
    exists loc <- Slots(hash, size, e) :: garbage[loc]
  }

  lemma FreeStaysFree(hash: HashFunction, size: nat, garbage: seq<bool>, garbage': seq<bool>, e: Element)
    requires 0 < size <= |garbage| == |garbage'| && forall i :: 0 <= i < size && garbage[i] ==> garbage'[i]
    ensures HasFreeSlot(hash, size, garbage, e) ==> HasFreeSlot(hash, size, garbage', e)
  {
  }

  /** Between pushes, the live elements and the one in hand are what there was at the start. */
  ghost predicate InHand(live0: set<Element>, e0: Element, live: set<Element>, e: Element) {
    live + {e} == live0 + {e0} && e !in live && |live| == |live0|
  }

  lemma StartInHand(table: seq<Element>, garbage: seq<bool>, e: Element)
    requires |table| <= |garbage| && e !in table
    ensures InHand(Live(table, garbage), e, Live(table, garbage), e)
  {
  }

  lemma PushKeeps(live0: set<Element>, e0: Element, live: set<Element>, e: Element, out: Element)
    requires InHand(live0, e0, live, e) && out in live
    ensures InHand(live0, e0, live - {out} + {e}, out)
  {
    assert live - {out} + {e} + {out} == live + {e};
  }

  /** Of the live elements and the new one at most one is gone, and nothing else came. */
  ghost predicate LosesAtMostOne(live0: set<Element>, e0: Element, live: set<Element>) {
    live <= live0 + {e0} && |live0 + {e0} - live| <= 1 && |live| >= |live0|
  }

  lemma PushEnds(live0: set<Element>, e0: Element, live: set<Element>, e: Element)
    requires InHand(live0, e0, live, e)
    ensures LosesAtMostOne(live0, e0, live)
    ensures live + {e} == live0 + {e0} && LosesAtMostOne(live0, e0, live + {e})
  {
    LostOne(live0 + {e0}, live, e);
  }

  lemma AddOne(live: set<Element>, e: Element)
    ensures |live + {e}| >= |live| && live + {e} - (live + {e}) == {}
  {
    if e in live {
      assert live + {e} == live;
    }
  }

  /** The first position of a value, or the length if it does not occur. */
  function IndexOf(locs: seq<nat>, loc: nat): (k: nat)
    ensures k <= |locs|
  {
    if locs == [] then 0 else if locs[0] == loc then 0 else 1 + IndexOf(locs[1..], loc)
  }

  /** `loc` is the first of the slots that may be overwritten. */
  ghost predicate FirstGarbage(locs: seq<nat>, garbage: seq<bool>, loc: nat)
    requires forall k :: 0 <= k < |locs| ==> locs[k] < |garbage|
  {
    exists k :: 0 <= k < |locs| && locs[k] == loc && garbage[loc] && forall j :: 0 <= j < k ==> !garbage[locs[j]]
  }

  /** `loc` comes after the first occurrence of `last`, the first slot after the last one; it is the second slot if `last` is none. */
  ghost predicate Follows(locs: seq<nat>, last: nat, loc: nat)
    requires |locs| == 8
  {
    if last in locs then exists k :: 0 <= k < 8 && locs[k] == last && last !in locs[..k] && loc == locs[if k == 7 then 0 else k + 1]
    else loc == locs[1]
  }

  lemma {:induction false} IndexFollows(locs: seq<nat>, loc: nat)
    ensures var k := IndexOf(locs, loc);
            k <= |locs| && loc !in locs[..k] && (k < |locs| ==> locs[k] == loc)
  {
    if locs != [] && locs[0] != loc {
      IndexFollows(locs[1..], loc);
      var k := IndexOf(locs[1..], loc);
      assert locs[..k + 1] == [locs[0]] + locs[1..][..k];
    }
  }

  /** The first swap of an insertion, which starts with the invalid slot number, uses the second slot. */
  lemma FirstSwap(hash: HashFunction, size: nat, e: Element, loc: nat)
    requires 0 < size < UINT32
    ensures Follows(Slots(hash, size, e), UINT32 - 1, loc) <==> loc == Slots(hash, size, e)[1]
  {
    assert UINT32 - 1 !in Slots(hash, size, e);
  }

  /** 45 % of the size, in 32-bit arithmetic, and at least one. */
  function EpochSize(size: nat): nat {
    Max(1, 45 * size % UINT32 / 100)
  }

  /** It is 45 % exactly if the product fits in 32 bits. */
  lemma EpochExactIff(size: nat)
    ensures 1 <= EpochSize(size)
    ensures EpochSize(size) == Max(1, 45 * size / 100) <==> 45 * size < UINT32
  {
    if 45 * size >= UINT32 {
      assert 45 * size % UINT32 <= 45 * size - UINT32;
      assert 45 * size % UINT32 / 100 < 45 * size / 100;
    }
  }

  /** The smallest size at which the product wraps around: an epoch of one element instead of 42949673. */
  lemma EpochExample()
    ensures EpochSize(95443718) == 1 && 45 * 95443718 / 100 == 42949673
    ensures EpochSize(95443717) == 45 * 95443717 / 100
  {
  }

  function Max(a: nat, b: nat): nat {
    if a < b then b else a
  }

  // ----------------------------------------------------------------------- the cache

  class Cache {
    const hash: HashFunction
    const size: nat
    const table: array<Element>
    const collection_flags: BitPackedFlags
    const epoch_flags: array<bool>
    const epoch_size: nat
    const depth_limit: nat
    var epoch_heuristic_counter: nat
    ghost var inserted: set<Element>

    ghost function Garbage(): seq<bool>
      reads this, collection_flags, collection_flags.mem
    {
      collection_flags.Bits()
    }

    /** Live entries of the current epoch. */
    ghost function EpochLoad(): nat
      requires epoch_flags.Length == size <= |Garbage()|
      reads this, epoch_flags, collection_flags, collection_flags.mem
    {
      Recent(epoch_flags[..], Garbage(), size)
    }

    /** The most live entries the current epoch ever has. */
    function EpochBound(): nat {
      epoch_size + Max(1, epoch_size / 16)
    }

    /** The arrays are distinct objects. */
    ghost predicate Separate()
      reads collection_flags
    {
      && table as object != epoch_flags && table as object != collection_flags.mem
      && epoch_flags as object != collection_flags.mem
    }

    ghost predicate Valid()
      reads this, table, epoch_flags, collection_flags, collection_flags.mem
    {
      && Separate()
      && 2 <= size == table.Length == epoch_flags.Length && size <= |Garbage()|
      && 1 <= epoch_size
      && Placed(hash, table[..], Garbage())
      && EpochLoad() + epoch_heuristic_counter <= EpochBound()
      && AllKnown(table[..], inserted)
    }

    ghost function LiveSet(): set<Element>
      requires Valid()
      reads this, table, epoch_flags, collection_flags, collection_flags.mem
    {
      Live(table[..], Garbage())
    }

    /**
     `setup`; the depth limit is the base-2 logarithm of the size, taken as a
     parameter.  The result is usable exactly if its flags are.
     */
    constructor (hash: HashFunction, new_size: nat, depth_limit: nat)
      requires new_size < UINT32
      ensures Valid() <==> new_size + 7 < UINT32
      ensures Valid() ==> LiveSet() == {}
      ensures inserted == {} && size == Max(2, new_size) && epoch_size == EpochSize(size)
      ensures epoch_size == Max(1, 45 * size / 100) <==> 45 * size < UINT32
      ensures fresh(table) && fresh(epoch_flags) && fresh(collection_flags) && fresh(collection_flags.mem)
    {
      hide EpochSize, BitPackedFlags.Bits;
      this.hash, this.depth_limit := hash, depth_limit;
      var n := Max(2, new_size);
      size := n;
      table := new Element[n](_ => BLANK);
      var flags := new BitPackedFlags(n);
      collection_flags := flags;
      epoch_flags := new bool[n](_ => false);
      epoch_size := EpochSize(n);
      epoch_heuristic_counter := EpochSize(n);
      inserted := {};
      new;
      EpochExactIff(size);
      if new_size + 7 < UINT32 {
        AgedHasNoRecent(epoch_flags[..], Garbage(), size);
        assert LiveSet() == {};
      }
    }

    /** The scan of `epoch_check`. */
    method CountRecent() returns (epoch_unused_count: nat)
      requires Valid()
      ensures epoch_unused_count == EpochLoad()
    {
      hide Placed, BitPackedFlags.Bits;
      epoch_unused_count := 0;
      for i := 0 to size
        invariant epoch_unused_count == Recent(epoch_flags[..], Garbage(), i)
      {
        var discarded := collection_flags.BitIsSet(i);
        if epoch_flags[i] && !discarded {
          epoch_unused_count := epoch_unused_count + 1;
        }
      }
    }

    /** Allows erasing the old epoch and demotes the current one. */
    method AgeEpochs()
      requires Separate() && 2 <= size == table.Length == epoch_flags.Length && size <= |Garbage()| && Placed(hash, table[..], Garbage())
      modifies epoch_flags, collection_flags.mem
      ensures |Garbage()| == |old(Garbage())| && Aged(old(epoch_flags[..]), old(Garbage()), epoch_flags[..], Garbage(), size)
      ensures EpochLoad() == 0
      ensures Placed(hash, table[..], Garbage()) && Live(table[..], Garbage()) <= old(Live(table[..], Garbage()))
    {
      hide Placed, BitPackedFlags.Bits, Recent, Live;
      for i := 0 to size
        invariant |Garbage()| == |old(Garbage())|
        invariant forall j :: 0 <= j < i ==> !epoch_flags[j] && Garbage()[j] == (old(Garbage())[j] || !old(epoch_flags[j]))
        invariant forall j :: i <= j < size ==> epoch_flags[j] == old(epoch_flags[j]) && Garbage()[j] == old(Garbage())[j]
      {
        if epoch_flags[i] {
          epoch_flags[i] := false;
        } else {
          collection_flags.BitSet(i);
        }
      }
      AgedHasNoRecent(epoch_flags[..], Garbage(), size);
      CollectKeeps(hash, table[..], old(Garbage()), Garbage());
    }

    /** Ages the epochs when the cheap counter has run out and the current epoch is full. */
    method EpochCheck()
      requires Valid()
      modifies this`epoch_heuristic_counter, epoch_flags, collection_flags.mem
      ensures Valid() && LiveSet() <= old(LiveSet())
      ensures EpochLoad() + epoch_heuristic_counter < EpochBound()
      ensures if old(epoch_heuristic_counter) == 0 && old(EpochLoad()) >= epoch_size
              then |Garbage()| == |old(Garbage())| && Aged(old(epoch_flags[..]), old(Garbage()), epoch_flags[..], Garbage(), size)
              else epoch_flags[..] == old(epoch_flags[..]) && Garbage() == old(Garbage())
    {
      hide Placed, BitPackedFlags.Bits, Recent, Live;
      if epoch_heuristic_counter != 0 {
        epoch_heuristic_counter := epoch_heuristic_counter - 1;
        return;
      }
      var epoch_unused_count := CountRecent();
      if epoch_unused_count >= epoch_size {
        AgeEpochs();
        epoch_heuristic_counter := epoch_size;
      } else {
        epoch_heuristic_counter := Max(1, Max(epoch_size / 16, epoch_size - epoch_unused_count));
      }
    }

    /** Looks for an element at its slots; -1 if it is at none. */
    method FindElement(e: Element) returns (loc: int)
      requires Valid()
      ensures loc == -1 ==> forall l <- Slots(hash, size, e) :: table[l] != e
      ensures loc != -1 ==> 0 <= loc < size && table[loc] == e
    {
      var locs := Slots(hash, size, e);
      for k := 0 to 8
        invariant forall j :: 0 <= j < k ==> table[locs[j]] != e
      {
        if table[locs[k]] == e {
          return locs[k];
        }
      }
      return -1;
    }

    /** Looks for a slot that may be overwritten; -1 if there is none. */
    method FindGarbage(locs: seq<nat>) returns (loc: int)
      requires size <= |Garbage()| && forall k :: 0 <= k < |locs| ==> locs[k] < size
      ensures loc == -1 ==> forall l <- locs :: !Garbage()[l]
      ensures loc != -1 ==> 0 <= loc < size && FirstGarbage(locs, Garbage(), loc)
    {
      for k := 0 to |locs|
        invariant forall j :: 0 <= j < k ==> !Garbage()[locs[j]]
      {
        var free := collection_flags.BitIsSet(locs[k]);
        if free {
          return locs[k];
        }
      }
      return -1;
    }

    /** Reports whether an element is in the table, and lets it be erased if asked to. */
    method Contains(e: Element, erase: bool) returns (r: bool)
      requires Valid() && e != BLANK
      modifies collection_flags.mem
      ensures Valid() && table[..] == old(table[..])
      ensures r <==> e in table[..]
      ensures r ==> e in inserted
      ensures e in old(LiveSet()) ==> r
      ensures LiveSet() == if r && erase then old(LiveSet()) - {e} else old(LiveSet())
    {
      hide BitPackedFlags.Bits, Slots;
      var loc := FindElement(e);
      ghost var garbage := Garbage();
      if loc == -1 {
        NotInTable(hash, table[..], garbage, e);
        return false;
      }
      if erase {
        EraseKeeps(hash, table[..], garbage, loc);
        RecentUpdate(epoch_flags[..], garbage, size, loc, epoch_flags[loc], true);
        assert epoch_flags[..][loc := epoch_flags[loc]] == epoch_flags[..];
        collection_flags.BitSet(loc);
      }
      return true;
    }

    /** Puts an absent element into a slot and takes what was there, with its epoch. */
    method SwapInto(loc: nat, e: Element, epoch: bool) returns (e': Element, epoch': bool)
      requires Separate() && 2 <= size == table.Length == epoch_flags.Length && size <= |Garbage()|
      requires Placed(hash, table[..], Garbage()) && e != BLANK && e !in table[..]
      requires loc in Slots(hash, size, e) && loc < size && !Garbage()[loc]
      modifies table, epoch_flags
      ensures Placed(hash, table[..], Garbage()) && e' != BLANK && e' !in table[..]
      ensures e' == old(table[loc]) && table[..] == old(table[..])[loc := e]
      ensures Live(table[..], Garbage()) == old(Live(table[..], Garbage())) - {e'} + {e} && e' in old(Live(table[..], Garbage()))
      ensures EpochLoad() + (if epoch' then 1 else 0) == old(EpochLoad()) + if epoch then 1 else 0
    {
      hide BitPackedFlags.Bits, Slots;
      StoreKeeps(hash, table[..], Garbage(), loc, e);
      assert Garbage()[loc := false] == Garbage();
      RecentUpdate(epoch_flags[..], Garbage(), size, loc, epoch, false);
      e' := table[loc];
      table[loc] := e;
      epoch' := epoch_flags[loc];
      epoch_flags[loc] := epoch;
    }

    /** Overwrites a collectable slot. */
    method StoreAt(loc: nat, e: Element, epoch: bool)
      requires Separate() && 2 <= size == table.Length == epoch_flags.Length && size <= |Garbage()|
      requires Placed(hash, table[..], Garbage()) && e != BLANK && e !in table[..]
      requires loc in Slots(hash, size, e) && loc < size && Garbage()[loc]
      modifies table, epoch_flags, collection_flags.mem
      ensures |Garbage()| == |old(Garbage())| && Placed(hash, table[..], Garbage())
      ensures table[..] == old(table[..])[loc := e]
      ensures Live(table[..], Garbage()) == old(Live(table[..], Garbage())) + {e}
      ensures EpochLoad() == old(EpochLoad()) + if epoch then 1 else 0
    {
      hide BitPackedFlags.Bits, Slots;
      StoreKeeps(hash, table[..], Garbage(), loc, e);
      RecentUpdate(epoch_flags[..], Garbage(), size, loc, epoch, false);
      table[loc] := e;
      collection_flags.BitUnset(loc);
      epoch_flags[loc] := epoch;
    }

    /** One iteration of the loop of `insert`: stores the element in a free slot, or swaps it with another. */
    method PushOnce(e: Element, epoch: bool, last_loc: nat) returns (stored: bool, e': Element, epoch': bool, loc: nat)
      requires Separate() && 2 <= size == table.Length == epoch_flags.Length && size <= |Garbage()|
      requires Placed(hash, table[..], Garbage()) && e != BLANK && e !in table[..]
      modifies table, epoch_flags, collection_flags.mem
      ensures |Garbage()| == |old(Garbage())| && Placed(hash, table[..], Garbage())
      ensures loc < size && table[..] == old(table[..])[loc := e]
      ensures stored == HasFreeSlot(hash, size, old(Garbage()), e)
      // where the element goes: the first free slot, or the one after `last_loc`
      ensures stored ==> FirstGarbage(Slots(hash, size, e), old(Garbage()), loc)
      ensures !stored ==> Follows(Slots(hash, size, e), last_loc, loc)
      ensures stored ==>
                && Live(table[..], Garbage()) == old(Live(table[..], Garbage())) + {e}
                && EpochLoad() == old(EpochLoad()) + if epoch then 1 else 0
      ensures !stored ==>
                && Garbage() == old(Garbage()) && e' != BLANK && e' !in table[..] && e' == old(table[loc])
                && e' in old(Live(table[..], Garbage()))
                && Live(table[..], Garbage()) == old(Live(table[..], Garbage())) - {e'} + {e}
                && EpochLoad() + (if epoch' then 1 else 0) == old(EpochLoad()) + if epoch then 1 else 0
    {
      hide BitPackedFlags.Bits, Slots, Placed, Live, Recent;
      var locs := Slots(hash, size, e);
      var free := FindGarbage(locs);
      if free != -1 {
        StoreAt(free, e, epoch);
        return true, e, epoch, free;
      }
      IndexFollows(locs, last_loc);
      loc := locs[(1 + IndexOf(locs, last_loc)) % 8];
      e', epoch' := SwapInto(loc, e, epoch);
      stored := false;
    }

    /** Between pushes: the element in hand is out of the table, and all else is as at the start. */
    ghost predicate Pushing(e0: Element, live0: set<Element>, load0: nat, garbage: seq<bool>, e: Element, epoch: bool)
      reads this, table, epoch_flags, collection_flags, collection_flags.mem
    {
      && Separate() && 2 <= size == table.Length == epoch_flags.Length && size <= |Garbage()|
      && e != BLANK && e !in table[..] && e in inserted
      && Garbage() == garbage && Placed(hash, table[..], garbage) && AllKnown(table[..], inserted)
      && InHand(live0, e0, Live(table[..], garbage), e)
      && EpochLoad() + (if epoch then 1 else 0) == load0 + 1
    }

    /** An iteration either ends with every element in the table, or leaves another one in hand. */
    method PushStep(e: Element, epoch: bool, last_loc: nat, ghost e0: Element, ghost live0: set<Element>, ghost load0: nat, ghost garbage: seq<bool>)
      returns (stored: bool, e': Element, epoch': bool, loc: nat)
      requires Pushing(e0, live0, load0, garbage, e, epoch)
      modifies table, epoch_flags, collection_flags.mem
      ensures stored ==> |Garbage()| == |garbage| && Placed(hash, table[..], Garbage()) && AllKnown(table[..], inserted)
      ensures stored ==> Live(table[..], Garbage()) == live0 + {e0} && EpochLoad() == load0 + 1
      ensures stored == HasFreeSlot(hash, size, garbage, e)
      ensures !stored ==> Pushing(e0, live0, load0, garbage, e', epoch')
    {
      hide BitPackedFlags.Bits, Slots, Placed, Live, Recent, InHand, HasFreeSlot, AllKnown, LosesAtMostOne;
      ghost var live, t := Live(table[..], garbage), table[..];
      PushEnds(live0, e0, live, e);
      stored, e', epoch', loc := PushOnce(e, epoch, last_loc);
      KnownAfterStore(t, inserted, loc, e);
      if !stored {
        PushKeeps(live0, e0, live, e, e');
      }
    }

    /** The loop of `insert`: places an absent element, pushing others along, up to the depth limit. */
    method PushIn(e0: Element)
      requires Valid() && e0 != BLANK && e0 !in table[..] && e0 in inserted
      requires EpochLoad() + epoch_heuristic_counter < EpochBound()
      modifies table, epoch_flags, collection_flags.mem
      ensures Valid() && LosesAtMostOne(old(LiveSet()), e0, LiveSet())
      ensures depth_limit > 0 && HasFreeSlot(hash, size, old(Garbage()), e0) ==> LiveSet() == old(LiveSet()) + {e0}
    {
      hide BitPackedFlags.Bits, Slots, Placed, Live, Recent, InHand, HasFreeSlot, AllKnown, LosesAtMostOne;
      ghost var live0, load0, garbage := LiveSet(), EpochLoad(), Garbage();
      StartInHand(table[..], garbage, e0);
      PushEnds(live0, e0, live0, e0);
      var e, epoch: bool, last_loc: nat := e0, true, UINT32 - 1;
      for depth := 0 to depth_limit
        invariant Pushing(e0, live0, load0, garbage, e, epoch)
        invariant if depth == 0 then e == e0 else !HasFreeSlot(hash, size, garbage, e0)
      {
        var stored;
        stored, e, epoch, last_loc := PushStep(e, epoch, last_loc, e0, live0, load0, garbage);
        if stored {
          return;
        }
      }
      PushEnds(live0, e0, Live(table[..], garbage), e);
    }

    /** `insert` after its `epoch_check`: at most one element of the live ones and the new one is lost. */
    method InsertElement(e: Element)
      requires Valid() && e != BLANK && EpochLoad() + epoch_heuristic_counter < EpochBound()
      modifies table, epoch_flags, collection_flags.mem, this`inserted
      ensures Valid() && inserted == old(inserted) + {e}
      ensures LiveSet() <= old(LiveSet()) + {e} && |old(LiveSet()) + {e} - LiveSet()| <= 1
      ensures |LiveSet()| >= |old(LiveSet())|
      ensures e in old(table[..]) || (depth_limit > 0 && HasFreeSlot(hash, size, old(Garbage()), e)) ==> LiveSet() == old(LiveSet()) + {e}
    {
      hide BitPackedFlags.Bits, Slots, Placed, Live, Recent;
      inserted := inserted + {e};
      var loc := FindElement(e);
      if loc != -1 {
        KeepKeeps(hash, table[..], Garbage(), loc);
        RecentUpdate(epoch_flags[..], Garbage(), size, loc, true, false);
        collection_flags.BitUnset(loc);
        epoch_flags[loc] := true;
        AddOne(old(LiveSet()), e);
      } else {
        NotInTable(hash, table[..], Garbage(), e);
        PushIn(e);
      }
    }

    /** Inserts an element; `aged` is what the epoch check left alive. */
    method Insert(e: Element) returns (ghost aged: set<Element>)
      requires Valid() && e != BLANK
      modifies this`epoch_heuristic_counter, table, epoch_flags, collection_flags.mem, this`inserted
      ensures Valid() && inserted == old(inserted) + {e}
      ensures aged <= old(LiveSet()) && LiveSet() <= aged + {e} && |aged + {e} - LiveSet()| <= 1
      ensures |LiveSet()| >= |aged|
      ensures old(epoch_heuristic_counter) > 0 || old(EpochLoad()) < epoch_size ==> aged == old(LiveSet())
      ensures e in old(table[..]) || (depth_limit > 0 && HasFreeSlot(hash, size, old(Garbage()), e)) ==> LiveSet() == aged + {e}
    {
      hide BitPackedFlags.Bits, Placed, Live, Recent, Slots;
      EpochCheck();
      aged := LiveSet();
      FreeStaysFree(hash, size, old(Garbage()), Garbage(), e);
      InsertElement(e);
    }
  }

  datatype Call = Put(e: Element) | Look(e: Element, erase: bool)

  /**
   Any run of inserts and lookups on a new cache: nothing is reported that was not
   inserted before, and the current epoch never exceeds its bound.
   */
  method Run(hash: HashFunction, new_size: nat, depth_limit: nat, calls: seq<Call>)
    returns (reports: seq<bool>, ghost loads: seq<nat>, ghost bound: nat)
    requires new_size + 7 < UINT32 && forall c <- calls :: c.e != BLANK
    ensures |reports| == |loads| == |calls|
    ensures forall i :: 0 <= i < |calls| && calls[i].Look? && reports[i] ==> Put(calls[i].e) in calls[..i]
    ensures bound == (var es := EpochSize(Max(2, new_size)); es + Max(1, es / 16))
    ensures forall i :: 0 <= i < |calls| ==> loads[i] <= bound
  {
    hide Cache.Separate, BitPackedFlags.Bits, Placed, Live, Recent, AllKnown, Max;
    var c := new Cache(hash, new_size, depth_limit);
    reports, loads, bound := [], [], c.EpochBound();
    for i := 0 to |calls|
      invariant c.Valid() && fresh(c) && fresh(c.table) && fresh(c.epoch_flags) && fresh(c.collection_flags.mem)
      invariant |reports| == |loads| == i
      invariant forall x <- c.inserted :: Put(x) in calls[..i]
      invariant forall j :: 0 <= j < i && calls[j].Look? && reports[j] ==> Put(calls[j].e) in calls[..j]
      invariant forall j :: 0 <= j < i ==> loads[j] <= bound
    {
      assert calls[i] in calls;
      assert calls[..i + 1] == calls[..i] + [calls[i]];
      var r := Perform(c, calls[i]);
      reports := reports + [r];
      loads := loads + [c.EpochLoad()];
    }
  }

  method Perform(c: Cache, call: Call) returns (r: bool)
    requires c.Valid() && call.e != BLANK
    modifies c`epoch_heuristic_counter, c.table, c.epoch_flags, c.collection_flags.mem, c`inserted
    ensures c.Valid() && c.inserted == old(c.inserted) + if call.Put? then {call.e} else {}
    ensures call.Look? && r ==> call.e in c.inserted
  {
    hide BitPackedFlags.Bits, Placed, Live, Recent, AllKnown;
    match call {
      case Put(e) =>
        ghost var _ := c.Insert(e);
        return true;
      case Look(e, erase) =>
        r := c.Contains(e, erase);
    }
  }
}
