/** Blocks of object ids owned by a session, used by one request at a time. */
module IdRanges {

  /** The most ids a request is given. */
  const MAX_IDS: int := 20

  function Pow2(n: nat): (p: int)
    ensures p >= 1
  {
    if n == 0 then 1 else 2 * Pow2(n - 1)
  }

  lemma Doubled(n: nat)
    ensures Pow2(n + 1) == 2 * Pow2(n)
  {
  }

  function Min(a: int, b: int): int {
    if a < b then a else b
  }

  function Between(lo: int, hi: int): (ids: set<int>)
    ensures forall id :: id in ids <==> lo <= id < hi
    decreases hi - lo
  {
    if lo >= hi then {} else Between(lo, hi - 1) + {hi - 1}
  }

  lemma {:induction false} BetweenSize(lo: int, hi: int)
    requires lo <= hi
    ensures |Between(lo, hi)| == hi - lo
    decreases hi - lo
  {
    if lo == hi {
      assert Between(lo, hi) == {};
    } else {
      BetweenSize(lo, hi - 1);
      assert Between(lo, hi) == Between(lo, hi - 1) + {hi - 1};
    }
  }

  /** The counter in the database. */
  class IdSequence {
    var value: int

    constructor (value: int)
      ensures this.value == value
    {
      this.value := value;
    }

    method Add(n: int) returns (end: int)
      modifies this
      ensures end == value == old(value) + n
    {
      value := value + n;
      end := value;
    }
  }

  class Range {
    const start: int
    const end: int
    var ptr: int
    var next: Range?

    constructor (start: int, end: int)
      ensures this.start == start && this.end == end && ptr == start && next == null && Given() == {}
    {
      this.start := start;
      this.end := end;
      ptr := start;
      next := null;
    }

    /** The ids of this block that were given away. */
    ghost function Given(): set<int>
      reads this`ptr
    {
      Between(start, Min(ptr, end))
    }

    method TryReserve() returns (ok: bool, lo: int, hi: int)
      requires start <= ptr
      modifies this`ptr
      ensures ok <==> old(ptr) < end
      ensures ok ==> lo == old(ptr)
      ensures ok ==> lo < hi && Given() == old(Given()) + Between(lo, hi) && old(Given()) !! Between(lo, hi)
      ensures ok ==> start <= lo && hi <= end && hi - lo <= 20 && (hi - lo < 20 ==> hi == end)
      ensures ptr >= old(ptr) && (!ok ==> ptr == old(ptr))
    {
      ok, lo, hi := false, 0, 0;
      if ptr < end {
        var result := ptr;
        ptr := ptr + MAX_IDS;
        if result < end {
          ok, lo, hi := true, result, Min(result + MAX_IDS, end);
        }
      }
    }
  }

  /** The ids that a list of blocks gave away. */
  ghost function Handed(blocks: seq<Range>): set<int>
    reads blocks`ptr
  {
    if blocks == [] then {} else Handed(blocks[..|blocks| - 1]) + blocks[|blocks| - 1].Given()
  }

  lemma {:induction false} HandedAre(blocks: seq<Range>)
    ensures forall id :: id in Handed(blocks) <==> exists k :: 0 <= k < |blocks| && id in blocks[k].Given()
  {
    hide Range.Given, Between;
    if blocks != [] {
      var front := blocks[..|blocks| - 1];
      HandedAre(front);
      forall id ensures id in Handed(blocks) <==> exists k :: 0 <= k < |blocks| && id in blocks[k].Given() {
        if k :| 0 <= k < |blocks| && id in blocks[k].Given() {
          assert k < |front| ==> front[k] == blocks[k];
        }
        if id in Handed(front) {
          var k :| 0 <= k < |front| && id in front[k].Given();
          assert blocks[k] == front[k];
        }
      }
    }
  }

  /** Block `k` has 2^(k+1) ids; blocks follow each other, and all but the last are used up. */
  ghost predicate Sized(blocks: seq<Range>)
    reads blocks`ptr
  {
    Doubling(blocks) && (blocks != [] ==> Full(blocks[..|blocks| - 1])) && Chained(blocks)
  }

  ghost predicate Doubling(blocks: seq<Range>)
    reads blocks`ptr
  {
    forall k :: 0 <= k < |blocks| ==> Doubles(blocks[k], k)
  }

  ghost predicate Doubles(block: Range, k: nat)
    reads block`ptr
  {
    block.end - block.start == Pow2(k + 1) && block.start <= block.ptr
  }

  ghost predicate Chained(blocks: seq<Range>) {
    forall j, k :: 0 <= j < k < |blocks| ==> blocks[j].end <= blocks[k].start
  }

  /** All ids of the blocks were given away. */
  ghost predicate Full(blocks: seq<Range>)
    reads blocks`ptr
  {
    forall k :: 0 <= k < |blocks| ==> blocks[k].end <= blocks[k].ptr
  }

  ghost predicate Before(blocks: seq<Range>, value: int) {
    forall k :: 0 <= k < |blocks| ==> blocks[k].end <= value
  }

  lemma BeforeSnoc(front: seq<Range>, last: Range)
    requires Before(front, last.start) && last.start <= last.end
    ensures Before(front + [last], last.end)
  {
  }

  lemma {:induction false} HandedSnoc(front: seq<Range>, last: Range)
    ensures Handed(front + [last]) == Handed(front) + last.Given()
  {
    assert (front + [last])[..|front|] == front;
  }

  lemma {:induction false} SizedSnoc(front: seq<Range>, last: Range)
    ensures Sized(front + [last]) <==>
      && Sized(front) && Full(front) && Before(front, last.start)
      && last.end - last.start == Pow2(|front| + 1) && last.start <= last.ptr
  {
    hide Pow2, Full, Doubling, Chained, Before;
    assert (front + [last])[..|front|] == front;
    DoublingSnoc(front, last);
    ChainedSnoc(front, last);
    FullFront(front);
  }

  lemma FullFront(blocks: seq<Range>)
    ensures Full(blocks) && blocks != [] ==> Full(blocks[..|blocks| - 1])
  {
  }

  lemma DoublingSnoc(front: seq<Range>, last: Range)
    ensures Doubling(front + [last]) <==> Doubling(front) && Doubles(last, |front|)
  {
    hide Doubles;
    var all, n := front + [last], |front|;
    assert all[n] == last && forall k :: 0 <= k < n ==> all[k] == front[k];
    if Doubling(all) {
      assert Doubles(all[n], n);
      forall k | 0 <= k < n ensures Doubles(front[k], k) {
        assert Doubles(all[k], k);
      }
    }
  }

  lemma ChainedSnoc(front: seq<Range>, last: Range)
    ensures Chained(front + [last]) <==> Chained(front) && Before(front, last.start)
  {
    var all, n := front + [last], |front|;
    assert all[n] == last && forall k :: 0 <= k < n ==> all[k] == front[k];
    if Chained(all) {
      forall k | 0 <= k < n ensures front[k].end <= last.start {
        assert all[k].end <= all[n].start;
      }
      forall j, k | 0 <= j < k < n ensures front[j].end <= front[k].start {
        assert all[j].end <= all[k].start;
      }
    }
  }

  lemma FullSnoc(blocks: seq<Range>, k: nat)
    requires k < |blocks|
    ensures Full(blocks[..k + 1]) <==> Full(blocks[..k]) && blocks[k].end <= blocks[k].ptr
  {
    assert blocks[..k + 1] == blocks[..k] + [blocks[k]];
  }

  /** Whatever was given away lies in one of the blocks. */
  lemma {:induction false} HandedWithin(blocks: seq<Range>, start: int, lo: int, hi: int)
    requires Before(blocks, start) && start <= lo
    ensures Handed(blocks) !! Between(lo, hi)
  {
    HandedAre(blocks);
  }

  /** A new block behind used-up blocks keeps them as they are, and hands out ids that none of them did. */
  lemma {:induction false} Extended(was: seq<Range>, owned: Range, lo: int, hi: int)
    requires Sized(was) && Full(was) && Before(was, owned.start)
    requires owned.end - owned.start == Pow2(|was| + 1) && owned.start <= lo && owned.start <= owned.ptr
    ensures Sized(was + [owned]) && Before(was + [owned], owned.end)
    ensures Handed(was + [owned]) == Handed(was) + owned.Given() && Handed(was) !! Between(lo, hi)
  {
    hide Sized, Full, Before, Handed, Range.Given, Between;
    BeforeSnoc(was, owned);
    HandedSnoc(was, owned);
    SizedSnoc(was, owned);
    HandedWithin(was, owned.start, lo, hi);
  }

  /** The blocks are linked one behind the other, the last one to `end`. */
  ghost predicate Chain(blocks: seq<Range>, end: Range?)
    reads blocks`next
  {
    blocks != [] ==> var n := |blocks| - 1; Chain(blocks[..n], blocks[n]) && blocks[n].next == end
  }

  lemma {:induction false} ChainAt(blocks: seq<Range>, end: Range?, k: nat)
    requires Chain(blocks, end) && k < |blocks|
    ensures blocks[k].next == if k + 1 < |blocks| then blocks[k + 1] else end
  {
    if k + 1 < |blocks| {
      ChainAt(blocks[..|blocks| - 1], blocks[|blocks| - 1], k);
    }
  }

  lemma {:induction false} ChainEmpty(end: Range?)
    ensures Chain([], end)
  {
  }

  lemma {:induction false} ChainSnoc(front: seq<Range>, last: Range, end: Range?)
    ensures Chain(front + [last], end) <==> Chain(front, last) && last.next == end
  {
    assert (front + [last])[..|front|] == front;
  }

  class IdOwner {
    var idRanges: Range?
    ghost var blocks: seq<Range>
    /** Every id ever handed to this session. */
    ghost var given: set<int>

    ghost predicate Linked()
      reads `idRanges, `blocks, blocks`next
    {
      idRanges == Block(0) && Chain(blocks, null)
    }

    ghost function Block(k: nat): Range?
      reads `blocks
    {
      if k < |blocks| then blocks[k] else null
    }

    ghost predicate Valid()
      reads this, blocks
    {
      Linked() && Sized(blocks) && given == Handed(blocks)
    }

    constructor ()
      ensures Valid() && given == {} && blocks == []
    {
      idRanges := null;
      blocks := [];
      given := {};
    }

    /** A session owns exactly the ids it was given. */
    method IsOwnerOf(id: int) returns (owner: bool)
      requires Valid()
      ensures owner <==> id in given
    {
      var current := idRanges;
      ghost var k := 0;
      HandedAre(blocks);
      hide Chain, Handed, Sized;
      while current != null
        invariant 0 <= k <= |blocks| && current == Block(k)
        invariant forall j :: 0 <= j < k ==> id !in blocks[j].Given()
        decreases |blocks| - k
      {
        assert id in current.Given() <==> current.start <= id && id < current.ptr && id < current.end;
        AtBlock(k);
        if current.start <= id && id < current.ptr && id < current.end {
          return true;
        }
        current := current.next;
        k := k + 1;
      }
      return false;
    }

    /**
     * Gives the session new ids: the rest of its newest block, or a new block twice as long.
     * A request that is alone on its session always succeeds.
     */
    method RequestIdRange(sequence: IdSequence) returns (served: bool, lo: int, hi: int)
      requires Valid() && Before(blocks, sequence.value)
      modifies this, blocks, sequence
      ensures served && lo < hi
      ensures Valid() && Before(blocks, sequence.value)
      ensures given == old(given) + Between(lo, hi) && old(given) !! Between(lo, hi)
      ensures var n := |old(blocks)|;
              if old(Full(blocks)) then
                && |blocks| == n + 1 && blocks[..n] == old(blocks) && fresh(blocks[n])
                && lo == blocks[n].start == old(sequence.value)
                     && blocks[n].end == sequence.value == old(sequence.value) + Pow2(n + 1)
              else blocks == old(blocks) && sequence.value == old(sequence.value)
    {
      hide Handed, Range.Given, Between, Sized, Full, Before, Linked, Pow2;
      var blockLen := 2;
      var prev: Range? := null;
      var current := idRanges;
      ghost var k, was := 0, blocks;
      LinkedHead();
      while current != null
        invariant 0 <= k <= |blocks| && current == Block(k)
        invariant prev == if k == 0 then null else blocks[k - 1]
        invariant blockLen == Pow2(k + 1)
        invariant Full(blocks[..k])
        invariant unchanged(this) && unchanged(sequence) && unchanged(blocks)
        decreases |blocks| - k
      {
        AtBlock(k);
        FullSnoc(blocks, k);
        ghost var front := blocks[..k];
        assert blocks[..k + 1] == front + [current];
        SizedFront(k);
        HandedSnoc(front, current);
        served, lo, hi := current.TryReserve();
        if served {
          assert blocks == front + [current];
          SizedSnoc(front, current);
          HandedSnoc(front, current);
          HandedWithin(front, current.start, lo, hi);
          given := given + Between(lo, hi);
          return;
        }
        blockLen := 2 * (current.end - current.start);
        Doubled(k + 1);
        prev := current;
        current := current.next;
        k := k + 1;
      }
      assert blocks[..k] == blocks;
      served, lo, hi := Extend(sequence, prev, blockLen);
    }

    /** Takes a new block from the sequence, links it behind `prev` and serves from it. */
    method Extend(sequence: IdSequence, prev: Range?, blockLen: int) returns (served: bool, lo: int, hi: int)
      requires Valid() && Before(blocks, sequence.value) && Full(blocks)
      requires prev == (if blocks == [] then null else blocks[|blocks| - 1]) && blockLen == Pow2(|blocks| + 1)
      modifies this, prev, sequence
      ensures served && lo < hi
      ensures Valid() && Before(blocks, sequence.value)
      ensures given == old(given) + Between(lo, hi) && old(given) !! Between(lo, hi)
      ensures var n := |old(blocks)|;
              && |blocks| == n + 1 && blocks[..n] == old(blocks) && fresh(blocks[n])
              && lo == blocks[n].start == old(sequence.value)
                   && blocks[n].end == sequence.value == old(sequence.value) + blockLen
    {
      hide Handed, Range.Given, Between, Sized, Full, Pow2, IdOwner.Linked, Before;
      ghost var was := blocks;
      var end := sequence.Add(blockLen);
      var owned := new Range(end - blockLen, end);
      StoreAt(prev, owned);
      served, lo, hi := owned.TryReserve();
      given := given + Between(lo, hi);
      Extended(was, owned, lo, hi);
    }

    /** Stores a new block behind `prev`, or as the first one. */
    method StoreAt(prev: Range?, owned: Range)
      requires Linked() && Sized(blocks) && prev == (if blocks == [] then null else blocks[|blocks| - 1])
      requires owned.next == null && owned !in blocks
      modifies `idRanges, `blocks, (if prev == null then {} else {prev})`next
      ensures Linked() && blocks == old(blocks) + [owned]
    {
      hide Chain, Sized;
      LastLink();
      if prev == null {
        idRanges := owned;
        ChainEmpty(owned);
      } else {
        prev.next := owned;
        ChainSnoc(blocks[..|blocks| - 1], prev, owned);
      }
      ChainSnoc(blocks, owned, null);
      blocks := blocks + [owned];
    }

    lemma LastLink()
      requires Linked() && Sized(blocks)
      ensures blocks != [] ==> var n := |blocks| - 1;
                               blocks == blocks[..n] + [blocks[n]] && blocks[n] !in blocks[..n]
                                 && Chain(blocks[..n], blocks[n])
    {
      if blocks != [] {
        SizedFront(|blocks| - 1);
      }
    }

    lemma LinkedHead()
      requires Linked()
      ensures idRanges == Block(0) && Full(blocks[..0]) && Pow2(1) == 2
    {
    }

    lemma {:induction false} SizedFront(k: nat)
      requires Sized(blocks) && k < |blocks|
      ensures var front, last := blocks[..k], blocks[k];
              && Sized(front) && Full(front) && Before(front, last.start) && last !in front
              && last.end - last.start == Pow2(k + 1) && last.start <= last.ptr
    {
      var all := blocks[..k + 1];
      forall j | 0 <= j < k ensures blocks[j].end <= blocks[j].ptr {
        assert blocks[..|blocks| - 1][j] == blocks[j];
      }
      assert all[..k] == blocks[..k];
    }

    lemma {:induction false} AtBlock(k: nat)
      requires Valid() && k < |blocks|
      ensures blocks[k].next == Block(k + 1) && blocks[k].start <= blocks[k].ptr
      ensures blocks[k].end - blocks[k].start == Pow2(k + 1)
      ensures k + 1 < |blocks| ==> blocks[k].end <= blocks[k].ptr
    {
      if k + 1 < |blocks| {
        assert blocks[..|blocks| - 1][k] == blocks[k];
      }
      ChainAt(blocks, null, k);
    }
  }

  /** The ids of the first `n` blocks. */
  ghost function BlockIds(blocks: seq<Range>, n: nat): set<int>
    requires n <= |blocks|
  {
    if n == 0 then {} else BlockIds(blocks, n - 1) + Between(blocks[n - 1].start, blocks[n - 1].end)
  }

  lemma {:induction false} BlockIdsAre(blocks: seq<Range>, n: nat)
    requires n <= |blocks|
    ensures forall id :: id in BlockIds(blocks, n) <==> exists k :: 0 <= k < n && blocks[k].start <= id < blocks[k].end
  {
    if n > 0 {
      BlockIdsAre(blocks, n - 1);
    }
  }

  lemma DisjointSize(a: set<int>, b: set<int>)
    requires a !! b
    ensures |a + b| == |a| + |b|
  {
  }

  /** The blocks of a session cover 2^(n+1) - 2 ids. */
  lemma BlockIdsStep(blocks: seq<Range>, n: nat)
    requires n <= |blocks|
    ensures n == 0 ==> BlockIds(blocks, n) == {} && Pow2(n + 1) == 2
    ensures n > 0 ==> BlockIds(blocks, n) == BlockIds(blocks, n - 1) + Between(blocks[n - 1].start, blocks[n - 1].end)
  {
  }

  lemma {:induction false} BlockIdsSize(blocks: seq<Range>, n: nat)
    requires n <= |blocks|
    requires forall k :: 0 <= k < n ==> blocks[k].end - blocks[k].start == Pow2(k + 1)
    requires forall j, k :: 0 <= j < k < n ==> blocks[j].end <= blocks[k].start
    ensures |BlockIds(blocks, n)| == Pow2(n + 1) - 2
  {
    hide Between, Pow2, BlockIds;
    BlockIdsStep(blocks, n);
    if n > 0 {
      Doubled(n);
      BlockIdsSize(blocks, n - 1);
      BlockIdsAre(blocks, n - 1);
      var last := Between(blocks[n - 1].start, blocks[n - 1].end);
      BetweenSize(blocks[n - 1].start, blocks[n - 1].end);
      DisjointSize(BlockIds(blocks, n - 1), last);
    }
  }

  /** No id is skipped: all blocks but the last are given away whole, and the last one from its start. */
  lemma NoIdSkipped(s: IdOwner)
    requires s.Valid() && s.blocks != []
    ensures var n := |s.blocks|;
            s.given == BlockIds(s.blocks, n - 1) + s.blocks[n - 1].Given()
    ensures |BlockIds(s.blocks, |s.blocks|)| == Pow2(|s.blocks| + 1) - 2
  {
    hide Between, Range.Given, Pow2;
    var n := |s.blocks|;
    HandedFull(s.blocks, n - 1);
    BlockIdsSize(s.blocks, n);
  }

  lemma {:induction false} HandedFull(blocks: seq<Range>, n: nat)
    requires n <= |blocks| && Full(blocks[..n]) && forall k :: 0 <= k < n ==> blocks[k].start < blocks[k].end
    ensures Handed(blocks[..n]) == BlockIds(blocks, n)
  {
    if n > 0 {
      FullSnoc(blocks, n - 1);
      HandedFull(blocks, n - 1);
      assert blocks[..n] == blocks[..n - 1] + [blocks[n - 1]];
      HandedSnoc(blocks[..n - 1], blocks[n - 1]);
    }
  }
}
