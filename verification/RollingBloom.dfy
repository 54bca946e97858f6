/**
 The rolling Bloom filter: two bits per position, in separate words, hold the
 generation that last stamped it.
 */
module RollingBloom {
  type Key = seq<bv8>
  type Generation = g: nat | g <= 3

  /** A 64-bit word as its bits, the lowest first. */
  type Word = s: seq<bool> | |s| == 64 witness seq(64, _ => false)

  function And(x: Word, y: Word): Word {
    seq(64, i requires 0 <= i < 64 => x[i] && y[i])
  }

  function Or(x: Word, y: Word): Word {
    seq(64, i requires 0 <= i < 64 => x[i] || y[i])
  }

  function Xor(x: Word, y: Word): Word {
    seq(64, i requires 0 <= i < 64 => x[i] != y[i])
  }

  function Not(x: Word): Word {
    seq(64, i requires 0 <= i < 64 => !x[i])
  }

  function Shl(x: Word, k: nat): Word {
    seq(64, i requires 0 <= i < 64 => i >= k && x[i - k])
  }

  function Shr(x: Word, k: nat): Word {
    seq(64, i requires 0 <= i < 64 => i + k < 64 && x[i + k])
  }

  /** `(uint64_t)v` and `0 - (uint64_t)v` */
  function Small(v: bool): Word {
    seq(64, i => i == 0 && v)
  }

  function Mask(v: bool): Word {
    seq(64, _ => v)
  }

  /** `(x & ~(1 << k)) | (v << k)` */
  function WriteBit(x: Word, k: nat, v: bool): Word {
    Or(And(x, Not(Shl(Small(true), k))), Shl(Small(v), k))
  }

  lemma BitsWritten(x: Word, k: nat, v: bool, j: nat)
    requires j < 64 && k < 64
    ensures WriteBit(x, k, v)[j] == if j == k then v else x[j]
  {
  }

  /** The generation held by two bits; zero is unset. */
  function Stamp(b1: bool, b2: bool): Generation {
    (if b1 then 1 else 0) + (if b2 then 2 else 0)
  }

  predicate FirstBit(g: Generation) {
    g % 2 == 1
  }

  predicate SecondBit(g: Generation) {
    g / 2 == 1
  }

  function WipeMask(p1: Word, p2: Word, g: Generation): Word {
    Or(Xor(p1, Mask(FirstBit(g))), Xor(p2, Mask(SecondBit(g))))
  }

  /** Wiping unsets the positions stamped `g` and no other. */
  lemma WipedStamp(p1: Word, p2: Word, g: Generation, k: nat)
    requires k < 64
    ensures var mask := WipeMask(p1, p2, g);
            Stamp(And(p1, mask)[k], And(p2, mask)[k]) == if Stamp(p1[k], p2[k]) == g then 0 else Stamp(p1[k], p2[k])
  {
  }

  /** A position: a pair of words and a bit. */
  datatype Place = Place(word: nat, bit: nat)

  predicate Within(at: Place, size: nat) {
    at.word < size / 2 && at.bit < 64
  }

  /** The stamp at a position. */
  ghost function StampAt(data: seq<Word>, at: Place): Generation
    requires |data| % 2 == 0 && Within(at, |data|)
  {
    Stamp(data[2 * at.word][at.bit], data[2 * at.word + 1][at.bit])
  }

  /** How many generations back a stamp is, given the current generation. */
  function Age(now: Generation, g: Generation): nat {
    (now + 3 - g) % 3
  }

  function NextGeneration(g: Generation): Generation {
    if g == 3 then 1 else g + 1
  }

  /** All the places carry stamps at most `age` generations old. */
  ghost predicate AllStamped(data: seq<Word>, places: seq<Place>, now: Generation, age: nat) {
    && |data| % 2 == 0
    && forall i :: 0 <= i < |places| ==>
                     && Within(places[i], |data|) && StampAt(data, places[i]) != 0
                     && Age(now, StampAt(data, places[i])) <= age
  }

  /** Exactly the places of a key are stamped; in a new generation, stamps that reuse its number are gone. */
  ghost predicate Inserted(d: seq<Word>, d': seq<Word>, places: seq<Place>, now: Generation, wiped: bool)
    requires |d| % 2 == 0
  {
    && |d'| == |d|
    && forall at: Place :: Within(at, |d|) ==>
         StampAt(d', at) == if at in places then now else if wiped && StampAt(d, at) == now then 0 else StampAt(d, at)
  }

  /** Restamping places with the current generation loses no key. */
  lemma RestampKeeps(d: seq<Word>, d': seq<Word>, places: seq<Place>, now: Generation, age: nat)
    requires AllStamped(d, places, now, age) && |d'| == |d| && now != 0
    requires forall at: Place :: Within(at, |d|) ==> StampAt(d', at) == now || StampAt(d', at) == StampAt(d, at)
    ensures AllStamped(d', places, now, age)
  {
    hide StampAt;
  }

  /** Wiping the number of the next generation loses only keys of the oldest one. */
  lemma WipeKeeps(d: seq<Word>, d': seq<Word>, places: seq<Place>, now: Generation, age: nat)
    requires AllStamped(d, places, now, age) && |d'| == |d| && now != 0 && age < 2
    requires forall at: Place :: Within(at, |d|) ==>
                                   StampAt(d', at) == if StampAt(d, at) == NextGeneration(now) then 0 else StampAt(d, at)
    ensures AllStamped(d', places, NextGeneration(now), age + 1)
  {
    hide StampAt;
  }

  /** Where hash function `n` puts a key. */
  function PlaceIn(hash: (nat, nat, Key) -> nat, tweak: nat, size: nat, n: nat, key: Key): (at: Place)
    requires size > 0 && size % 2 == 0
    ensures Within(at, size)
  {
    var h := hash(n, tweak, key);
    var pos := h / 64 % size;
    Place(pos / 2, h % 64)
  }

  ghost function PlacesIn(hash: (nat, nat, Key) -> nat, tweak: nat, funcs: nat, size: nat, key: Key): (r: seq<Place>)
    requires size > 0 && size % 2 == 0
    ensures |r| == funcs && forall n :: 0 <= n < funcs ==> r[n] == PlaceIn(hash, tweak, size, n, key)
  {
    seq(funcs, n requires n >= 0 => PlaceIn(hash, tweak, size, n, key))
  }

  class RollingBloomFilter {
    const hash: (nat, nat, Key) -> nat
    const nEntriesPerGeneration: nat
    const nHashFuncs: nat
    var nEntriesThisGeneration: nat
    var nGeneration: Generation
    var nTweak: nat
    const data: array<Word>

    /** Keys inserted since the last reset: those forgotten, and those of the last three generations. */
    ghost var forgotten: seq<Key>
    ghost var oldest: seq<Key>
    ghost var previous: seq<Key>
    ghost var current: seq<Key>

    ghost function Places(key: Key): (r: seq<Place>)
      reads this
      requires data.Length > 0 && data.Length % 2 == 0
    {
      PlacesIn(hash, nTweak, nHashFuncs, data.Length, key)
    }

    ghost predicate Shape()
      reads this
    {
      && data.Length > 0 && data.Length % 2 == 0 && nEntriesPerGeneration > 0 && nGeneration != 0
      && |current| == nEntriesThisGeneration <= nEntriesPerGeneration
      && (|previous| == nEntriesPerGeneration || (previous == [] && oldest == [] && forgotten == []))
      && (|oldest| == nEntriesPerGeneration || (oldest == [] && forgotten == []))
    }

    /** The keys of a generation are stamped with it or with a later one. */
    ghost predicate Holds(keys: seq<Key>, age: nat)
      reads this, data
      requires data.Length > 0 && data.Length % 2 == 0
    {
      forall key <- keys :: AllStamped(data[..], Places(key), nGeneration, age)
    }

    ghost predicate Valid()
      reads this, data
    {
      Shape() && Holds(current, 0) && Holds(previous, 1) && Holds(oldest, 2)
    }

    /** All keys inserted since the last reset, in order. */
    ghost function History(): seq<Key>
      reads this
    {
      forgotten + Covered()
    }

    /** The keys of the last three generations. */
    ghost function Covered(): seq<Key>
      reads this
    {
      oldest + previous + current
    }

    constructor (nElements: nat, words: nat, hashFuncs: nat, hash: (nat, nat, Key) -> nat, tweak: nat)
      requires nElements > 0 && words > 0
      ensures Valid() && History() == [] && nEntriesPerGeneration == (nElements + 1) / 2 && fresh(data)
      ensures this.hash == hash && nHashFuncs == hashFuncs && nTweak == tweak
    {
      this.hash := hash;
      nHashFuncs := hashFuncs;
      nEntriesPerGeneration := (nElements + 1) / 2;
      data := new Word[2 * words](_ => Mask(false));
      nEntriesThisGeneration, nGeneration, nTweak := 0, 1, tweak;
      forgotten, oldest, previous, current := [], [], [], [];
      new;
      Reset(tweak);
    }

    method Reset(tweak: nat)
      requires data.Length > 0 && data.Length % 2 == 0 && nEntriesPerGeneration > 0
      modifies this, data
      ensures Valid() && History() == [] && nTweak == tweak
      ensures forall i :: 0 <= i < data.Length ==> data[i] == Mask(false)
    {
      nTweak := tweak;
      nEntriesThisGeneration := 0;
      nGeneration := 1;
      for i := 0 to data.Length
        modifies data
        invariant forall j :: 0 <= j < i ==> data[j] == Mask(false)
      {
        data[i] := Mask(false);
      }
      forgotten, oldest, previous, current := [], [], [], [];
    }

    /** Clears every position stamped with the current generation number, and no other. */
    method Wipe()
      requires data.Length % 2 == 0
      modifies data
      ensures forall at: Place :: Within(at, data.Length) ==>
                StampAt(data[..], at) == if old(StampAt(data[..], at)) == nGeneration then 0 else old(StampAt(data[..], at))
    {
      hide WipeMask, And, Stamp;
      ghost var was := data[..];
      var p := 0;
      while p < data.Length
        invariant 0 <= p <= data.Length && p % 2 == 0
        invariant forall w :: 0 <= w < p / 2 ==>
                                var mask := WipeMask(was[2 * w], was[2 * w + 1], nGeneration);
                                data[2 * w] == And(was[2 * w], mask) && data[2 * w + 1] == And(was[2 * w + 1], mask)
        invariant forall i :: p <= i < data.Length ==> data[i] == was[i]
      {
        var p1, p2 := data[p], data[p + 1];
        var mask := WipeMask(p1, p2, nGeneration);
        data[p] := And(p1, mask);
        data[p + 1] := And(p2, mask);
        p := p + 2;
      }
      forall at: Place | Within(at, data.Length)
        ensures StampAt(data[..], at) == if StampAt(was, at) == nGeneration then 0 else StampAt(was, at)
      {
        WipedStamp(was[2 * at.word], was[2 * at.word + 1], nGeneration, at.bit);
      }
    }

    /** Stamps one position with the current generation. */
    method StampOne(at: Place)
      requires data.Length % 2 == 0 && Within(at, data.Length)
      modifies data
      ensures forall x: Place :: Within(x, data.Length) ==>
                StampAt(data[..], x) == if x == at then nGeneration else old(StampAt(data[..], x))
    {
      hide WriteBit;
      ghost var was := data[..];
      var i := 2 * at.word;
      data[i] := WriteBit(data[i], at.bit, FirstBit(nGeneration));
      data[i + 1] := WriteBit(data[i + 1], at.bit, SecondBit(nGeneration));
      forall x: Place | Within(x, data.Length)
        ensures StampAt(data[..], x) == if x == at then nGeneration else StampAt(was, x)
      {
        BitsWritten(was[i], at.bit, FirstBit(nGeneration), x.bit);
        BitsWritten(was[i + 1], at.bit, SecondBit(nGeneration), x.bit);
      }
    }

    /** Starts a generation under the number of the oldest one. */
    method NewGeneration()
      requires Valid() && nEntriesThisGeneration == nEntriesPerGeneration
      modifies this, data
      ensures Valid() && nEntriesThisGeneration == 0 && History() == old(History()) && nTweak == old(nTweak)
      ensures Covered() == old(previous + current) && nGeneration == NextGeneration(old(nGeneration))
      ensures forall at: Place :: Within(at, data.Length) ==>
                StampAt(data[..], at) == if old(StampAt(data[..], at)) == nGeneration then 0 else old(StampAt(data[..], at))
    {
      hide StampAt, AllStamped, PlaceIn, PlacesIn;
      ghost var was, now := data[..], nGeneration;
      ghost var keys, earlier := current, previous;
      nEntriesThisGeneration := 0;
      nGeneration := NextGeneration(nGeneration);
      Wipe();
      forgotten, oldest, previous, current := forgotten + oldest, previous, current, [];
      forall key <- keys ensures AllStamped(data[..], Places(key), nGeneration, 1) {
        WipeKeeps(was, data[..], Places(key), now, 0);
      }
      forall key <- earlier ensures AllStamped(data[..], Places(key), nGeneration, 2) {
        WipeKeeps(was, data[..], Places(key), now, 1);
      }
    }

    method Insert(key: Key)
      requires Valid()
      modifies this, data
      ensures Valid() && History() == old(History()) + [key] && nTweak == old(nTweak)
      ensures forgotten != [] ==> 2 * nEntriesPerGeneration < |Covered()| <= 3 * nEntriesPerGeneration
      ensures var full := old(nEntriesThisGeneration) == nEntriesPerGeneration;
              && nGeneration == (if full then NextGeneration(old(nGeneration)) else old(nGeneration))
              && Inserted(old(data[..]), data[..], Places(key), nGeneration, full)
    {
      hide StampAt, AllStamped, PlaceIn, PlacesIn;
      if nEntriesThisGeneration == nEntriesPerGeneration {
        NewGeneration();
      }
      nEntriesThisGeneration := nEntriesThisGeneration + 1;
      ghost var was := data[..];
      for n := 0 to nHashFuncs
        modifies data
        invariant forall at: Place :: Within(at, data.Length) ==>
                    StampAt(data[..], at) == if at in Places(key)[..n] then nGeneration else StampAt(was, at)
      {
        assert Places(key)[..n + 1] == Places(key)[..n] + [Places(key)[n]];
        StampOne(PlaceIn(hash, nTweak, data.Length, n, key));
      }
      assert Places(key)[..nHashFuncs] == Places(key);
      ghost var keys := current;
      current := current + [key];
      AllNow(data[..], Places(key), nGeneration);
      forall k <- keys ensures AllStamped(data[..], Places(k), nGeneration, 0) {
        RestampKeeps(was, data[..], Places(k), nGeneration, 0);
      }
      forall k <- previous ensures AllStamped(data[..], Places(k), nGeneration, 1) {
        RestampKeeps(was, data[..], Places(k), nGeneration, 1);
      }
      forall k <- oldest ensures AllStamped(data[..], Places(k), nGeneration, 2) {
        RestampKeeps(was, data[..], Places(k), nGeneration, 2);
      }
    }

    /** True when every place of the key is set, as for each key of the last three generations. */
    method Contains(key: Key) returns (r: bool)
      requires Valid()
      ensures r <==> forall n :: 0 <= n < nHashFuncs ==> StampAt(data[..], PlaceIn(hash, nTweak, data.Length, n, key)) != 0
      ensures key in Covered() ==> r
    {
      assert key in Covered() ==> forall n :: 0 <= n < nHashFuncs ==> StampAt(data[..], Places(key)[n]) != 0;
      for n := 0 to nHashFuncs
        invariant forall m :: 0 <= m < n ==> StampAt(data[..], PlaceIn(hash, nTweak, data.Length, m, key)) != 0
      {
        var at := PlaceIn(hash, nTweak, data.Length, n, key);
        if !Shr(Or(data[2 * at.word], data[2 * at.word + 1]), at.bit)[0] {
          return false;
        }
      }
      return true;
    }
  }

  lemma AllNow(data: seq<Word>, places: seq<Place>, now: Generation)
    requires |data| % 2 == 0 && now != 0
    requires forall i :: 0 <= i < |places| ==> Within(places[i], |data|) && StampAt(data, places[i]) == now
    ensures AllStamped(data, places, now, 0)
  {
    hide StampAt;
  }

  /** The last `nElements` keys inserted are among those covered. */
  lemma LastKeysCovered(f: RollingBloomFilter, nElements: nat, i: nat)
    requires f.Valid() && f.nEntriesPerGeneration == (nElements + 1) / 2
    requires |f.History()| - nElements <= i < |f.History()|
    ensures f.History()[i] in f.Covered()
  {
    assert i >= |f.forgotten|;
    assert f.History()[i] == f.Covered()[i - |f.forgotten|];
  }

  /** Whatever is inserted, in whatever order, the last `nElements` keys are reported. */
  method InsertAll(f: RollingBloomFilter, keys: seq<Key>, nElements: nat, probe: nat) returns (r: bool)
    requires f.Valid() && f.History() == [] && f.nEntriesPerGeneration == (nElements + 1) / 2
    requires |keys| - nElements <= probe < |keys|
    modifies f, f.data
    ensures f.Valid() && f.History() == keys && r
  {
    for i := 0 to |keys|
      invariant f.Valid() && f.History() == keys[..i]
    {
      f.Insert(keys[i]);
    }
    assert keys[..|keys|] == keys;
    LastKeysCovered(f, nElements, probe);
    r := f.Contains(keys[probe]);
  }
}
