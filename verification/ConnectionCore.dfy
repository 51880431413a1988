/**
  * Two small structures shared by the Modbus connection tables: the set of unit
  * identifiers seen on a connection, kept as a bitmap and as a list, and the
  * router that spreads connections over shards.
  */
module ConnectionCore {
  import opened Bits

  // ---------------------------------------------------------------------------
  // Bits of a word
  // ---------------------------------------------------------------------------

  predicate Bit(w: nat, k: nat) {
    if k == 0 then w % 2 == 1 else Bit(w / 2, k - 1)
  }

  lemma {:induction false} ZeroHasNoBit(k: nat)
    ensures !Bit(0, k)
  {
    if k > 0 {
      ZeroHasNoBit(k - 1);
    }
  }

  /** Testing with a one-bit mask reads that bit. */
  lemma {:induction false} AndReadsBit(w: nat, k: nat)
    ensures And(w, Pow2(k)) != 0 <==> Bit(w, k)
  {
    if w == 0 {
      ZeroHasNoBit(k);
    } else if k == 0 {
      assert And(w / 2, 0) == 0;
    } else {
      AndReadsBit(w / 2, k - 1);
    }
  }

  /** Setting with a one-bit mask sets that bit and leaves the others. */
  lemma {:induction false} OrSetsBit(w: nat, k: nat, j: nat)
    ensures Bit(Or(w, Pow2(k)), j) <==> Bit(w, j) || j == k
  {
    if w == 0 {
      ZeroHasNoBit(j);
      OneBit(k, j);
    } else if k == 0 {
      if j > 0 {
        assert Or(w / 2, 0) == w / 2;
      }
    } else if j > 0 {
      OrSetsBit(w / 2, k - 1, j - 1);
    }
  }

  lemma {:induction false} OneBit(k: nat, j: nat)
    ensures Bit(Pow2(k), j) <==> j == k
  {
    if k == 0 {
      if j > 0 {
        ZeroHasNoBit(j - 1);
      }
    } else if j > 0 {
      OneBit(k - 1, j - 1);
    }
  }

  lemma {:induction false} PowGrows(j: nat, k: nat)
    requires j < k
    ensures Pow2(j) < Pow2(k)
  {
    if j < k - 1 {
      PowGrows(j, k - 1);
    }
  }

  lemma PowOf64()
    ensures Pow2(64) == U64_RANGE
  {
    PowOf16();
    PowAdds(16, 16);
    PowAdds(32, 32);
  }

  lemma PowOf16()
    ensures Pow2(16) == 0x1_0000
  {
    assert Pow2(4) == 0x10;
    PowAdds(4, 4);
    PowAdds(8, 8);
  }

  lemma TwiceProduct(a: nat, b: nat)
    ensures a * (2 * b) == 2 * (a * b)
  {
  }

  lemma {:induction false} PowAdds(j: nat, k: nat)
    ensures Pow2(j + k) == Pow2(j) * Pow2(k)
  {
    if k > 0 {
      PowAdds(j, k - 1);
      TwiceProduct(Pow2(j), Pow2(k - 1));
    }
  }

  // ---------------------------------------------------------------------------
  // The unit identifier set
  // ---------------------------------------------------------------------------

  /** The input with repeats dropped, in the order of first appearance. */
  function FirstSeen(ids: seq<byte>): seq<byte> {
    if ids == [] then []
    else
      var front, id := FirstSeen(ids[..|ids| - 1]), ids[|ids| - 1];
      if id in ids[..|ids| - 1] then front else front + [id]
  }

  predicate Distinct(ids: seq<byte>) {
    forall i, j :: 0 <= i < j < |ids| ==> ids[i] != ids[j]
  }

  class UnitIdSet {
    const bitmap: array<nat>
    var ordered: seq<byte>

    /** The bitmap says that `id` is present. */
    predicate Marked(id: byte)
      requires bitmap.Length == 4
      reads this, bitmap
    {
      Bit(bitmap[id / 64], id % 64)
    }

    /** Four 64-bit words whose set bits are exactly the listed identifiers, each listed once. */
    ghost predicate Valid()
      reads this, bitmap
    {
      && bitmap.Length == 4
      && (forall i :: 0 <= i < 4 ==> bitmap[i] < U64_RANGE)
      && (forall id: byte :: Marked(id) <==> id in ordered)
      && Distinct(ordered)
    }

    constructor ()
      ensures Valid() && ordered == [] && fresh(bitmap)
    {
      bitmap := new nat[4](_ => 0);
      ordered := [];
      new;
      forall id: byte ensures !Marked(id) {
        ZeroHasNoBit(id % 64);
      }
    }

    method Record(unitId: byte) returns (added: bool)
      requires Valid()
      modifies this, bitmap
      ensures Valid()
      ensures added <==> unitId !in old(ordered)
      ensures ordered == if added then old(ordered) + [unitId] else old(ordered)
    {
      var bucket, bit := unitId / 64, Pow2(unitId % 64);
      AndReadsBit(bitmap[bucket], unitId % 64);
      if And(bitmap[bucket], bit) != 0 {
        return false;
      }
      WordFits(bitmap[bucket], unitId % 64);
      ghost var word := bitmap[bucket];
      assert !Marked(unitId) && unitId !in ordered;
      DistinctSnoc(ordered, unitId);
      bitmap[bucket] := Or(bitmap[bucket], bit);
      ordered := ordered + [unitId];
      forall id: byte ensures Marked(id) <==> id in ordered {
        OrSetsBit(word, unitId % 64, id % 64);
        assert id / 64 != bucket ==> bitmap[id / 64] == old(bitmap[id / 64]);
        assert id == unitId <==> id / 64 == bucket && id % 64 == unitId % 64;
        assert id in ordered <==> id in old(ordered) || id == unitId;
        assert old(Marked(id)) <==> id in old(ordered);
      }
      return true;
    }

    method Snapshot() returns (ids: seq<byte>)
      requires Valid()
      ensures ids == ordered && Distinct(ids)
      ensures forall id: byte :: id in ids <==> Marked(id)
    {
      ids := ordered;
    }
  }

  lemma DistinctSnoc(ids: seq<byte>, id: byte)
    requires Distinct(ids) && id !in ids
    ensures Distinct(ids + [id])
  {
  }

  lemma WordFits(w: nat, k: nat)
    requires w < U64_RANGE && k < 64
    ensures Or(w, Pow2(k)) < U64_RANGE
  {
    PowOf64();
    PowGrows(k, 64);
    OrBound(w, Pow2(k), 64);
  }

  /** The identifier at position `i` appears there for the first time. */
  predicate IsNew(ids: seq<byte>, i: nat)
    requires i < |ids|
  {
    ids[i] !in ids[..i]
  }

  /** After any sequence of records, the list is the input with repeats dropped in first-seen order. */
  method RecordAll(units: UnitIdSet, ids: seq<byte>) returns (news: seq<bool>)
    requires units.Valid() && units.ordered == []
    modifies units, units.bitmap
    ensures units.Valid() && units.ordered == FirstSeen(ids)
    ensures |news| == |ids| && forall i :: 0 <= i < |ids| ==> (news[i] <==> IsNew(ids, i))
  {
    news := [];
    for i := 0 to |ids|
      invariant units.Valid() && units.ordered == FirstSeen(ids[..i])
      invariant |news| == i && forall j :: 0 <= j < i ==> (news[j] <==> IsNew(ids, j))
    {
      FirstSeenNext(ids, i);
      var added := units.Record(ids[i]);
      news := news + [added];
    }
    assert ids[..|ids|] == ids;
  }

  lemma FirstSeenNext(ids: seq<byte>, i: nat)
    requires i < |ids|
    ensures ids[i] !in FirstSeen(ids[..i]) <==> IsNew(ids, i)
    ensures FirstSeen(ids[..i + 1]) ==
            if IsNew(ids, i) then FirstSeen(ids[..i]) + [ids[i]] else FirstSeen(ids[..i])
  {
    FirstSeenKeeps(ids[..i]);
    assert ids[..i + 1][..i] == ids[..i];
  }

  lemma {:induction false} FirstSeenKeeps(ids: seq<byte>)
    ensures forall id :: id in FirstSeen(ids) <==> id in ids
    ensures Distinct(FirstSeen(ids))
  {
    if ids != [] {
      var front := ids[..|ids| - 1];
      FirstSeenKeeps(front);
      assert ids == front + [ids[|ids| - 1]];
    }
  }

  /** Where an identifier first appears. */
  function FirstAt(ids: seq<byte>, id: byte): (i: nat)
    requires id in ids
    ensures i < |ids| && ids[i] == id && id !in ids[..i]
  {
    if ids[0] == id then 0 else 1 + FirstAt(ids[1..], id)
  }

  lemma FirstAtUnique(ids: seq<byte>, id: byte, i: nat)
    requires i < |ids| && ids[i] == id && id !in ids[..i]
    ensures FirstAt(ids, id) == i
  {
    assert FirstAt(ids, id) < |ids|;
  }

  /** Listed in the order of first appearance. */
  lemma {:induction false} FirstSeenOrder(ids: seq<byte>, i: nat, j: nat)
    requires i < j < |FirstSeen(ids)|
    ensures FirstSeen(ids)[i] in ids && FirstSeen(ids)[j] in ids
    ensures FirstAt(ids, FirstSeen(ids)[i]) < FirstAt(ids, FirstSeen(ids)[j])
  {
    FirstSeenKeeps(ids);
    var n := |ids| - 1;
    var front, x, y := ids[..n], FirstSeen(ids)[i], FirstSeen(ids)[j];
    assert ids == front + [ids[n]];
    FirstSeenKeeps(front);
    assert x in FirstSeen(front);
    FirstAtUnique(ids, x, FirstAt(front, x)) by {
      assert ids[..FirstAt(front, x)] == front[..FirstAt(front, x)];
    }
    if j < |FirstSeen(front)| {
      FirstSeenOrder(front, i, j);
      assert ids[..FirstAt(front, y)] == front[..FirstAt(front, y)];
      FirstAtUnique(ids, y, FirstAt(front, y));
    } else {
      FirstAtUnique(ids, y, n);
    }
  }

  // ---------------------------------------------------------------------------
  // The shard router
  // ---------------------------------------------------------------------------

  datatype Mask = NoMask | Mask(bits: nat)

  datatype ShardRouter = ShardRouter(shardCount: nat, mask: Mask)

  /** The number of set bits. */
  function Ones(n: nat): nat {
    if n == 0 then 0 else n % 2 + Ones(n / 2)
  }

  predicate IsPowerOfTwo(n: nat) {
    Ones(n) == 1
  }

  /** A router needs at least one shard; the code asserts it. */
  function NewRouter(shardCount: nat): ShardRouter
    requires shardCount > 0
  {
    ShardRouter(shardCount, if IsPowerOfTwo(shardCount) then Mask(shardCount - 1) else NoMask)
  }

  /** The shard of a connection id or of an address hash. */
  function IndexFor(r: ShardRouter, id: nat): nat
    requires r.shardCount > 0
  {
    if r.mask.Mask? then And(id, r.mask.bits) else id % r.shardCount
  }

  lemma {:induction false} NoOnes(n: nat)
    ensures Ones(n) == 0 ==> n == 0
  {
    if n != 0 {
      NoOnes(n / 2);
    }
  }

  lemma {:induction false} SingleOne(n: nat) returns (k: nat)
    requires IsPowerOfTwo(n)
    ensures n == Pow2(k)
  {
    if n % 2 == 1 {
      NoOnes(n / 2);
      k := 0;
    } else {
      k := SingleOne(n / 2);
      k := k + 1;
    }
  }

  /** For every shard count and id, mask or no mask, the shard is the id modulo the count. */
  lemma IndexIsModulo(shardCount: nat, id: nat)
    requires shardCount > 0
    ensures IndexFor(NewRouter(shardCount), id) == id % shardCount < shardCount
  {
    if IsPowerOfTwo(shardCount) {
      var k := SingleOne(shardCount);
      AndMask(id, k);
    }
  }
}
