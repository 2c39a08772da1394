/** MemoryPoolAllocator (allocators.h): chunks in a linked list, of which only the head serves requests. */
module Allocators {
  import opened Bytes
  import opened Json

  /** RAPIDJSON_ALIGN on a 64-bit platform, the mask written as arithmetic. */
  const WORD: nat := 8

  function Align(n: nat): nat {
    (n + 7) / 8 * 8
  }

  /** The least multiple of the word that is not below `n`. */
  lemma AlignExact(n: nat)
    ensures Align(n) % WORD == 0 && n <= Align(n) < n + WORD
    ensures forall m: nat :: m % WORD == 0 && n <= m ==> Align(n) <= m
  {
  }

  /** sizeof(ChunkHeader), which is aligned. */
  const HEADER: nat := 24

  function Sum(ns: seq<nat>): nat {
    if ns == [] then 0 else Sum(ns[..|ns| - 1]) + ns[|ns| - 1]
  }

  lemma SumAppend(ns: seq<nat>, n: nat)
    ensures Sum(ns + [n]) == Sum(ns) + n
  {
    assert (ns + [n])[..|ns|] == ns;
  }

  /** Sizes that have been granted: positive and aligned. */
  predicate Grants(ns: seq<nat>) {
    forall i :: 0 <= i < |ns| ==> ns[i] > 0 && ns[i] % WORD == 0
  }

  /** Later grants lie behind earlier ones. */
  lemma {:induction false} SumGrows(ns: seq<nat>, i: nat, j: nat)
    requires Grants(ns) && i <= j <= |ns|
    ensures Sum(ns[..i]) <= Sum(ns[..j]) && Sum(ns[..i]) % WORD == 0
    ensures i < j ==> Sum(ns[..i]) + ns[i] <= Sum(ns[..j])
    ensures i + 1 < j ==> Sum(ns[..i]) + ns[i] < Sum(ns[..j])
    decreases j
  {
    if i < j {
      assert ns[..j] == ns[..j - 1] + [ns[j - 1]];
      SumAppend(ns[..j - 1], ns[j - 1]);
      SumGrows(ns, i, j - 1);
    } else if i > 0 {
      SumGrows(ns, i - 1, i - 1);
      assert ns[..i] == ns[..i - 1] + [ns[i - 1]];
      SumAppend(ns[..i - 1], ns[i - 1]);
    }
  }

  /** A chunk: where its header lies, how much it holds, and the sizes granted from it, in order. */
  datatype Chunk = Chunk(address: nat, capacity: nat, grants: seq<nat>)

  function Data(c: Chunk): nat {
    c.address + HEADER
  }

  function End(c: Chunk): nat {
    c.address + HEADER + c.capacity
  }

  /** Grants fill the used part of the chunk without gap. */
  predicate Filled(c: Chunk) {
    Grants(c.grants) && Sum(c.grants) <= c.capacity
  }

  predicate Apart(c: Chunk, d: Chunk) {
    End(c) <= d.address || End(d) <= c.address
  }

  /** Over a list of chunks, oldest first. */
  predicate Sound(cs: seq<Chunk>) {
    (forall i :: 0 <= i < |cs| ==> Filled(cs[i])) && forall i, j :: 0 <= i < j < |cs| ==> Apart(cs[i], cs[j])
  }

  /** Grant `i` of the chunk: `n` bytes at `p`. */
  predicate Granted(c: Chunk, i: nat, p: nat, n: nat) {
    i < |c.grants| && p == Data(c) + Sum(c.grants[..i]) && n == c.grants[i]
  }

  ghost predicate Handed(cs: seq<Chunk>, p: nat, n: nat) {
    exists k: nat, i: nat :: k < |cs| && Granted(cs[k], i, p, n)
  }

  /** All blocks handed out, as address and size. */
  ghost function BlocksOf(cs: seq<Chunk>): iset<(nat, nat)> {
    iset p: nat, n: nat | Handed(cs, p, n) :: (p, n)
  }

  function TotalGrants(cs: seq<Chunk>): nat {
    if cs == [] then 0 else TotalGrants(cs[..|cs| - 1]) + Sum(cs[|cs| - 1].grants)
  }

  function TotalCapacity(cs: seq<Chunk>): nat {
    if cs == [] then 0 else TotalCapacity(cs[..|cs| - 1]) + cs[|cs| - 1].capacity
  }

  /** A grant lies inside its chunk, and is aligned as the chunk is. */
  lemma GrantInside(c: Chunk, i: nat, p: nat, n: nat)
    requires Filled(c) && Granted(c, i, p, n)
    ensures Data(c) <= p && p + n <= Data(c) + Sum(c.grants) <= End(c) && p % WORD == c.address % WORD &&
            n % WORD == 0 && n > 0
    ensures p + n == Data(c) + Sum(c.grants) ==> i == |c.grants| - 1
  {
    hide Sum;
    assert c.grants[..|c.grants|] == c.grants;
    SumGrows(c.grants, i, |c.grants|);
  }

  predicate Separate(p: nat, n: nat, q: nat, m: nat) {
    p + n <= q || q + m <= p
  }

  /** Different grants lie apart. */
  lemma GrantsApart(cs: seq<Chunk>, k: nat, i: nat, p: nat, n: nat, l: nat, j: nat, q: nat, m: nat)
    requires Sound(cs) && k < |cs| && l < |cs| && (k != l || i != j)
    requires Granted(cs[k], i, p, n) && Granted(cs[l], j, q, m)
    ensures Separate(p, n, q, m)
  {
    hide Sum;
    GrantInside(cs[k], i, p, n);
    GrantInside(cs[l], j, q, m);
    if k == l && i < j {
      SumGrows(cs[k].grants, i, j);
    } else if k == l {
      SumGrows(cs[k].grants, j, i);
    }
  }

  /** Blocks are pairwise separate, and inside the used part of a chunk; a block is aligned exactly if its chunk is. */
  lemma BlocksSeparate(cs: seq<Chunk>, p: nat, n: nat, q: nat, m: nat)
    requires Sound(cs) && (p, n) in BlocksOf(cs) && (q, m) in BlocksOf(cs)
    ensures n % WORD == 0 && n > 0
    ensures (p == q && n == m) || Separate(p, n, q, m)
    ensures exists k :: 0 <= k < |cs| && Data(cs[k]) <= p && p + n <= Data(cs[k]) + Sum(cs[k].grants) <= End(cs[k]) &&
                        (p % WORD == 0 <==> cs[k].address % WORD == 0)
  {
    hide Sum;
    var k: nat, i: nat :| k < |cs| && Granted(cs[k], i, p, n);
    var l: nat, j: nat :| l < |cs| && Granted(cs[l], j, q, m);
    GrantInside(cs[k], i, p, n);
    if k != l || i != j {
      GrantsApart(cs, k, i, p, n, l, j, q, m);
    }
  }

  /** A live block ends where the used part of the newest chunk ends only if it is the last grant of that chunk,
      asked for in full: the in-place test of Realloc cannot take another block for it. */
  lemma LastBlock(cs: seq<Chunk>, p: nat, n: nat, asked: nat)
    requires Sound(cs) && cs != [] && (p, n) in BlocksOf(cs) && asked <= n
    requires p + asked == Data(cs[|cs| - 1]) + Sum(cs[|cs| - 1].grants)
    ensures var c := cs[|cs| - 1]; c.grants != [] && Granted(c, |c.grants| - 1, p, n) && n == asked
  {
    hide Sum;
    var k: nat, i: nat :| k < |cs| && Granted(cs[k], i, p, n);
    GrantInside(cs[k], i, p, n);
    assert Filled(cs[|cs| - 1]);
  }

  /** The last grant ends where the used part of its chunk does. */
  lemma LastEnds(c: Chunk, p: nat, n: nat)
    requires c.grants != [] && Granted(c, |c.grants| - 1, p, n)
    ensures p + n == Data(c) + Sum(c.grants)
  {
  }

  lemma CapacityAdded(cs: seq<Chunk>, c: Chunk)
    ensures TotalCapacity(cs + [c]) == TotalCapacity(cs) + c.capacity
  {
    assert (cs + [c])[..|cs|] == cs;
  }

  lemma RegrantedCapacity(cs: seq<Chunk>, grants: seq<nat>)
    requires cs != []
    ensures TotalCapacity(Regranted(cs, grants)) == TotalCapacity(cs)
  {
    assert Regranted(cs, grants)[..|cs| - 1] == cs[..|cs| - 1];
  }

  /** A chunk without grants adds no block. */
  lemma NewChunk(cs: seq<Chunk>, c: Chunk)
    requires Sound(cs) && c.grants == [] && forall i :: 0 <= i < |cs| ==> Apart(cs[i], c)
    ensures Sound(cs + [c]) && BlocksOf(cs + [c]) == BlocksOf(cs)
  {
    forall p: nat, n: nat ensures Handed(cs + [c], p, n) <==> Handed(cs, p, n) {
      if Handed(cs, p, n) {
        var k: nat, i: nat :| k < |cs| && Granted(cs[k], i, p, n);
        assert Granted((cs + [c])[k], i, p, n);
      }
    }
  }

  /** The grants of the newest chunk, changed from its grant number |init| on. */
  function Regranted(cs: seq<Chunk>, grants: seq<nat>): seq<Chunk>
    requires cs != []
  {
    cs[|cs| - 1 := cs[|cs| - 1].(grants := grants)]
  }

  lemma RegrantedSound(cs: seq<Chunk>, grants: seq<nat>)
    requires Sound(cs) && cs != [] && Grants(grants) && Sum(grants) <= cs[|cs| - 1].capacity
    ensures Sound(Regranted(cs, grants))
  {
    hide Sum, Grants;
  }

  /** Blocks of all chunks but the newest, and of the newest one's first grants, do not depend on its other grants. */
  lemma RegrantedKeeps(cs: seq<Chunk>, grants: seq<nat>, init: seq<nat>, k: nat, i: nat, p: nat, n: nat)
    requires cs != [] && k < |cs| && init <= cs[|cs| - 1].grants && init <= grants && (k < |cs| - 1 || i < |init|)
    ensures Granted(Regranted(cs, grants)[k], i, p, n) == Granted(cs[k], i, p, n)
  {
    hide Sum;
    if k == |cs| - 1 {
      assert grants[..i] == init[..i] == cs[k].grants[..i];
    }
  }

  /** One more grant from the newest chunk is one more block, behind all others of the chunk. */
  lemma MoreGranted(cs: seq<Chunk>, n: nat)
    requires Sound(cs) && cs != [] && n > 0 && n % WORD == 0 && Sum(cs[|cs| - 1].grants) + n <= cs[|cs| - 1].capacity
    ensures var c := cs[|cs| - 1];
            var p, ds := Data(c) + Sum(c.grants), Regranted(cs, c.grants + [n]);
            Sound(ds) && (p, n) !in BlocksOf(cs) && BlocksOf(ds) == BlocksOf(cs) + iset{(p, n)}
  {
    hide Sum;
    var last := |cs| - 1;
    var gs := cs[last].grants;
    var p, ds := Data(cs[last]) + Sum(gs), Regranted(cs, gs + [n]);
    SumAppend(gs, n);
    RegrantedSound(cs, gs + [n]);
    assert (gs + [n])[..|gs|] == gs;
    assert Granted(ds[last], |gs|, p, n);
    forall q: nat, m: nat ensures Handed(ds, q, m) <==> Handed(cs, q, m) || (q == p && m == n) {
      if Handed(cs, q, m) {
        var k: nat, i: nat :| k < |cs| && Granted(cs[k], i, q, m);
        RegrantedKeeps(cs, gs + [n], gs, k, i, q, m);
      }
      if Handed(ds, q, m) {
        var k: nat, i: nat :| k < |ds| && Granted(ds[k], i, q, m);
        if k != last || i != |gs| {
          RegrantedKeeps(cs, gs + [n], gs, k, i, q, m);
        }
      }
    }
    if Handed(cs, p, n) {
      var k: nat, i: nat :| k < |cs| && Granted(cs[k], i, p, n);
      RegrantedKeeps(cs, gs + [n], gs, k, i, p, n);
      GrantsApart(ds, k, i, p, n, last, |gs|, p, n);
    }
  }

  /** The last grant of the newest chunk made larger replaces one block. */
  lemma LargerGranted(cs: seq<Chunk>, p: nat, n: nat, increment: nat)
    requires Sound(cs) && cs != [] && cs[|cs| - 1].grants != [] && increment % WORD == 0
    requires var c := cs[|cs| - 1]; Granted(c, |c.grants| - 1, p, n) && Sum(c.grants) + increment <= c.capacity
    ensures var gs := cs[|cs| - 1].grants;
            var hs := gs[..|gs| - 1] + [n + increment];
            var ds := Regranted(cs, hs);
            Sum(hs) == Sum(gs) + increment && Sound(ds) &&
                BlocksOf(ds) == BlocksOf(cs) - iset{(p, n)} + iset{(p, n + increment)}
  {
    hide Sum;
    var last := |cs| - 1;
    var gs := cs[last].grants;
    var init := gs[..|gs| - 1];
    var hs := init + [n + increment];
    var ds := Regranted(cs, hs);
    assert gs == init + [n];
    SumAppend(init, n);
    SumAppend(init, n + increment);
    LargerGrants(init, n, increment);
    RegrantedSound(cs, hs);
    assert hs[..|init|] == init;
    assert Granted(ds[last], |init|, p, n + increment);
    forall q: nat, m: nat ensures Handed(ds, q, m) <==>
        (Handed(cs, q, m) && (q, m) != (p, n)) || (q, m) == (p, n + increment) {
      if Handed(cs, q, m) && (q, m) != (p, n) {
        StillHanded(cs, hs, init, p, n, q, m);
      }
      if Handed(ds, q, m) && (q, m) != (p, n + increment) {
        HandedBefore(cs, hs, init, p, n + increment, q, m);
      }
    }
  }

  /** A block other than the last grant of the newest chunk stays when that grant changes. */
  lemma StillHanded(cs: seq<Chunk>, grants: seq<nat>, init: seq<nat>, p: nat, n: nat, q: nat, m: nat)
    requires cs != [] && cs[|cs| - 1].grants == init + [n] && init <= grants && Granted(cs[|cs| - 1], |init|, p, n)
    requires Handed(cs, q, m) && (q, m) != (p, n)
    ensures Handed(Regranted(cs, grants), q, m)
  {
    hide Sum;
    var k: nat, i: nat :| k < |cs| && Granted(cs[k], i, q, m);
    RegrantedKeeps(cs, grants, init, k, i, q, m);
  }

  /** And no other block comes. */
  lemma HandedBefore(cs: seq<Chunk>, grants: seq<nat>, init: seq<nat>, p: nat, n: nat, q: nat, m: nat)
    requires cs != [] && init <= cs[|cs| - 1].grants && grants == init + [n] && Sound(Regranted(cs, grants))
    requires Granted(Regranted(cs, grants)[|cs| - 1], |init|, p, n) && Handed(Regranted(cs, grants), q, m) &&
             (q, m) != (p, n)
    ensures Handed(cs, q, m) && q != p
  {
    hide Sum;
    var ds := Regranted(cs, grants);
    var k: nat, i: nat :| k < |ds| && Granted(ds[k], i, q, m);
    RegrantedKeeps(cs, grants, init, k, i, q, m);
    GrantsApart(ds, k, i, q, m, |cs| - 1, |init|, p, n);
    GrantInside(ds[k], i, q, m);
    GrantInside(ds[|cs| - 1], |init|, p, n);
  }

  lemma LargerGrants(init: seq<nat>, n: nat, increment: nat)
    requires Grants(init + [n]) && increment % WORD == 0
    ensures Grants(init + [n + increment])
  {
    assert (init + [n])[|init|] == n;
    assert forall i :: 0 <= i < |init| ==> (init + [n])[i] == init[i];
  }

  lemma {:induction false} RegrantedTotal(cs: seq<Chunk>, grants: seq<nat>)
    requires cs != []
    ensures TotalGrants(Regranted(cs, grants)) + Sum(cs[|cs| - 1].grants) == TotalGrants(cs) + Sum(grants)
  {
    assert Regranted(cs, grants)[..|cs| - 1] == cs[..|cs| - 1];
  }

  // ---- Memory ----

  /** Bytes by address; what nobody has written reads as 0. */
  type Memory = map<nat, Byte>

  function ReadIn(memory: Memory, a: nat): Byte {
    if a in memory then memory[a] else 0
  }

  /** The `n` bytes at `p` of one memory equal those at `q` of another. */
  ghost predicate SameBytes(memory: Memory, p: nat, was: Memory, q: nat, n: nat) {
    forall k: nat {:trigger Shift(p, k)} {:trigger Shift(q, k)} :: k < n ==>
        ReadIn(memory, Shift(p, k)) == ReadIn(was, Shift(q, k))
  }

  function Shift(p: nat, k: nat): nat {
    p + k
  }

  /** Address `a` when the first `k` bytes have been copied. */
  function Copied(was: Memory, target: nat, source: nat, k: nat, a: nat): Byte {
    if target <= a < target + k then ReadIn(was, source + (a - target)) else ReadIn(was, a)
  }

  lemma CopiedBytes(memory: Memory, was: Memory, target: nat, source: nat, n: nat)
    requires forall a: nat :: ReadIn(memory, a) == Copied(was, target, source, n, a)
    ensures SameBytes(memory, target, was, source, n)
    ensures forall p: nat, m: nat :: Separate(p, m, target, n) ==> SameBytes(memory, p, was, p, m)
  {
    hide ReadIn;
    forall k: nat | k < n ensures ReadIn(memory, Shift(target, k)) == ReadIn(was, Shift(source, k)) {
      assert Copied(was, target, source, n, target + k) == ReadIn(was, source + k);
    }
    forall p: nat, m: nat | Separate(p, m, target, n) ensures SameBytes(memory, p, was, p, m) {
      forall k: nat | k < m ensures ReadIn(memory, Shift(p, k)) == ReadIn(was, Shift(p, k)) {
        assert Copied(was, target, source, n, p + k) == ReadIn(was, p + k);
      }
    }
  }

  // ---- The allocator ----

  class ChunkHeader {
    const address: nat
    const capacity: nat
    const next: ChunkHeader?
    var size: nat

    constructor (address: nat, capacity: nat, next: ChunkHeader?)
      ensures this.address == address && this.capacity == capacity && this.next == next && size == 0
    {
      this.address := address;
      this.capacity := capacity;
      this.next := next;
      size := 0;
    }

    function Data(): nat {
      address + HEADER
    }
  }

  /** chunkHead_ and the next pointers behind it lead through the list from its newest to its oldest chunk. */
  ghost predicate Linked(head: ChunkHeader?, list: seq<ChunkHeader>) {
    if list == [] then head == null
    else head == list[|list| - 1] && Linked(list[|list| - 1].next, list[..|list| - 1])
  }

  /** The headers are those of the chunks. */
  ghost predicate Heads(list: seq<ChunkHeader>, cs: seq<Chunk>)
    reads list
  {
    && |list| == |cs|
    && (forall i :: 0 <= i < |list| ==>
         list[i].address == cs[i].address && list[i].capacity == cs[i].capacity && list[i].size == Sum(cs[i].grants))
    && forall i, j :: 0 <= i < j < |list| ==> list[i] != list[j]
  }

  class MemoryPoolAllocator {
    var chunkHead: ChunkHeader?
    const chunkCapacity: nat
    const userBuffer: ChunkHeader?
    var memory: Memory
    /** The linked list and its chunks, oldest first. */
    ghost var list: seq<ChunkHeader>
    ghost var chunks: seq<Chunk>

    ghost predicate Valid()
      reads this, list
    {
      Linked(chunkHead, list) && Heads(list, chunks) && Sound(chunks) &&
          (userBuffer != null ==> list != [] && list[0] == userBuffer)
    }

    /** The blocks handed out since the last Clear. */
    ghost function Blocks(): iset<(nat, nat)>
      reads this
    {
      BlocksOf(chunks)
    }

    /** The base allocator's answer: no memory, or an aligned chunk of that capacity apart from all others. */
    ghost predicate Answers(answer: Option<nat>, capacity: nat)
      reads this
    {
      answer.Some? ==> answer.value % WORD == 0 && forall i :: 0 <= i < |chunks| ==>
          Apart(chunks[i], Chunk(answer.value, capacity, []))
    }

    constructor (chunkSize: nat)
      ensures Valid() && Blocks() == iset{} && userBuffer == null && chunkCapacity == chunkSize
    {
      chunkHead := null;
      chunkCapacity := chunkSize;
      userBuffer := null;
      memory := map[];
      list := [];
      chunks := [];
    }

    constructor WithBuffer(buffer: nat, size: nat, chunkSize: nat)
      requires size > HEADER
      ensures Valid() && Blocks() == iset{} && chunkCapacity == chunkSize
      ensures userBuffer != null && fresh(userBuffer) && list == [userBuffer] &&
              chunks == [Chunk(buffer, size - HEADER, [])]
    {
      var c := new ChunkHeader(buffer, size - HEADER, null);
      chunkHead := c;
      chunkCapacity := chunkSize;
      userBuffer := c;
      memory := map[];
      list := [c];
      chunks := [Chunk(buffer, size - HEADER, [])];
    }

    /** The newest chunk can serve `n` more bytes. */
    predicate HasRoom(n: nat)
      reads this, chunkHead
    {
      chunkHead != null && chunkHead.size + n <= chunkHead.capacity
    }

    /** The last grant of the newest chunk is the block of `n` bytes at `p`. */
    ghost predicate LastGrant(p: nat, n: nat)
      reads this
    {
      chunks != [] &&
      var c := chunks[|chunks| - 1];
      c.grants != [] && Granted(c, |c.grants| - 1, p, n)
    }

    /** Growing the block at `p` from `was` to `now` aligned bytes needs no other place. */
    ghost predicate GrowsInPlace(p: nat, was: nat, now: nat)
      reads this, chunkHead
    {
      LastGrant(p, was) && was <= now && HasRoom(now - was)
    }

    /** AddChunk, given what the base allocator answers. */
    method AddChunk(capacity: nat, answer: Option<nat>) returns (ok: bool)
      requires Valid() && Answers(answer, capacity)
      modifies this`chunkHead, this`list, this`chunks
      ensures Valid() && ok == answer.Some? && Blocks() == old(Blocks())
      ensures if ok then chunks == old(chunks) + [Chunk(answer.value, capacity, [])] &&
              list[..|list| - 1] == old(list) && fresh(list[|list| - 1])
              else chunks == old(chunks) && list == old(list) && chunkHead == old(chunkHead)
    {
      hide BlocksOf, Sound;
      if answer.None? {
        return false;
      }
      var c := new ChunkHeader(answer.value, capacity, chunkHead);
      NewChunk(chunks, Chunk(answer.value, capacity, []));
      chunkHead := c;
      list := list + [c];
      assert list[..|list| - 1] == old(list);
      chunks := chunks + [Chunk(answer.value, capacity, [])];
      ok := true;
    }

    /** The unused rest of the newest chunk serves `n` more bytes. */
    method Take(n: nat) returns (p: nat)
      requires Valid() && list != [] && n > 0 && n % WORD == 0 && HasRoom(n)
      modifies this`chunks, list[|list| - 1]
      ensures Valid() && (p, n) !in old(Blocks()) && Blocks() == old(Blocks()) + iset{(p, n)}
      ensures p == old(chunkHead.Data() + chunkHead.size) && TotalGrants(chunks) == old(TotalGrants(chunks)) + n
      ensures TotalCapacity(chunks) == old(TotalCapacity(chunks))
    {
      hide BlocksOf, Sound, Sum, TotalGrants, TotalCapacity;
      p := chunkHead.Data() + chunkHead.size;
      MoreGranted(chunks, n);
      ghost var grants := chunks[|chunks| - 1].grants + [n];
      SumAppend(chunks[|chunks| - 1].grants, n);
      RegrantedTotal(chunks, grants);
      RegrantedCapacity(chunks, grants);
      chunkHead.size := chunkHead.size + n;
      chunks := Regranted(chunks, grants);
    }

    /** Malloc, given what the base allocator answers if it is asked for a chunk. */
    method Malloc(size: nat, answer: Option<nat>) returns (p: Option<nat>)
      requires Valid() && Answers(answer, Max(chunkCapacity, Align(size)))
      modifies this`chunkHead, this`list, this`chunks, list
      ensures Valid() && old(list) <= list && forall i :: |old(list)| <= i < |list| ==> fresh(list[i])
      ensures p.None? <==> size == 0 || (answer.None? && !old(HasRoom(Align(size))))
      ensures p.None? ==> Blocks() == old(Blocks()) && chunks == old(chunks)
      ensures p.Some? ==>
                (p.value, Align(size)) !in old(Blocks()) && Blocks() == old(Blocks()) + iset{(p.value, Align(size))}
      ensures p.Some? ==> p.value == if old(HasRoom(Align(size))) then old(chunkHead.Data() + chunkHead.size)
              else answer.value + HEADER
      ensures TotalGrants(chunks) == old(TotalGrants(chunks)) + if p.Some? then Align(size) else 0
      ensures TotalCapacity(chunks) == old(TotalCapacity(chunks)) +
              if p.Some? && !old(HasRoom(Align(size))) then Max(chunkCapacity, Align(size)) else 0
    {
      hide BlocksOf, Sound, Sum, Align, TotalGrants, TotalCapacity;
      p := None;
      if size == 0 {
        return;
      }
      var n := Align(size);
      AlignExact(size);
      if chunkHead == null || chunkHead.size + n > chunkHead.capacity {
        var ok := AddChunk(Max(chunkCapacity, n), answer);
        if !ok {
          return;
        }
        NoneGranted(old(chunks), chunks[|chunks| - 1]);
        CapacityAdded(old(chunks), chunks[|chunks| - 1]);
      }
      var q := Take(n);
      p := Some(q);
    }

    /** memcpy between blocks that do not overlap. */
    method Copy(target: nat, source: nat, n: nat)
      requires Separate(target, n, source, n)
      modifies this`memory
      ensures SameBytes(memory, target, old(memory), source, n)
      ensures forall p: nat, m: nat :: Separate(p, m, target, n) ==> SameBytes(memory, p, old(memory), p, m)
    {
      hide Shift;
      ghost var was := memory;
      var k := 0;
      while k < n
        invariant k <= n
        invariant forall a: nat :: ReadIn(memory, a) == Copied(was, target, source, k, a)
      {
        var b := ReadIn(memory, source + k);
        assert b == Copied(was, target, source, k, source + k) == ReadIn(was, source + k);
        ghost var m := memory;
        memory := memory[target + k := b];
        forall a: nat ensures ReadIn(memory, a) == Copied(was, target, source, k + 1, a) {
          assert ReadIn(m, a) == Copied(was, target, source, k, a);
        }
        k := k + 1;
      }
      CopiedBytes(memory, was, target, source, n);
    }

    /** The last grant of the newest chunk grows by `increment` bytes in place. */
    method Extend(ghost p: nat, ghost n: nat, increment: nat)
      requires Valid() && list != [] && increment % WORD == 0 && HasRoom(increment)
      requires var c := chunks[|chunks| - 1]; c.grants != [] && Granted(c, |c.grants| - 1, p, n)
      modifies this`chunks, list[|list| - 1]
      ensures Valid() && Blocks() == old(Blocks()) - iset{(p, n)} + iset{(p, n + increment)}
      ensures TotalGrants(chunks) == old(TotalGrants(chunks)) + increment
      ensures TotalCapacity(chunks) == old(TotalCapacity(chunks))
    {
      hide BlocksOf, Sound, Sum, TotalGrants, TotalCapacity, Granted;
      LargerGranted(chunks, p, n, increment);
      ghost var gs := chunks[|chunks| - 1].grants;
      ghost var hs := gs[..|gs| - 1] + [n + increment];
      RegrantedTotal(chunks, hs);
      RegrantedCapacity(chunks, hs);
      chunkHead.size := chunkHead.size + increment;
      chunks := Regranted(chunks, hs);
    }

    /** Realloc. `originalPtr` is a block of which the caller knows `originalSize` bytes. */
    method Realloc(originalPtr: Option<nat>, originalSize: nat, newSize: nat, answer: Option<nat>)
        returns (r: Option<nat>)
      requires Valid() && Answers(answer, Max(chunkCapacity, Align(newSize)))
      requires originalPtr.Some? ==> exists n: nat :: (originalPtr.value, n) in Blocks() && Align(originalSize) <= n
      modifies this`chunkHead, this`list, this`chunks, this`memory, list
      ensures Valid() && old(list) <= list && forall i :: |old(list)| <= i < |list| ==> fresh(list[i])
      // The result is a block of the new size, and the bytes known of the old one are in it.
      ensures r.Some? ==> exists n: nat :: (r.value, n) in Blocks() && newSize <= n
      ensures r.Some? && originalPtr.Some? ==>
                SameBytes(memory, r.value, old(memory), originalPtr.value, if originalSize < newSize then originalSize
                    else newSize)
      // All other blocks and their bytes are as they were; a block that has moved stays where it was, too.
      ensures forall q: nat, m: nat :: (q, m) in old(Blocks()) ==> SameBytes(memory, q, old(memory), q, m)
      ensures forall q: nat, m: nat :: (q, m) in old(Blocks()) ==>
              (q, m) in Blocks() || (originalPtr == Some(q) && originalPtr == r)
      // Without a block it is Malloc; with one, null is returned for size 0 and where there is no place to grow.
      ensures originalPtr.None? ==> (r.None? <==> newSize == 0 || (answer.None? && !old(HasRoom(Align(newSize)))))
      ensures originalPtr.None? && r.Some? ==>
                r.value == if old(HasRoom(Align(newSize))) then old(chunkHead.Data() + chunkHead.size)
                           else answer.value + HEADER
      ensures originalPtr.Some? ==>
                (r.None? <==> newSize == 0 || (Align(originalSize) < Align(newSize) && answer.None? &&
                                               !old(GrowsInPlace(originalPtr.value, Align(originalSize),
                                                   Align(newSize))) &&
                                               !old(HasRoom(Align(newSize)))))
      // A block stays where it is exactly if it need not grow or can grow there.
      ensures originalPtr.Some? && newSize > 0 ==>
                (r == originalPtr <==> Align(newSize) <= Align(originalSize) ||
                                       old(GrowsInPlace(originalPtr.value, Align(originalSize), Align(newSize))))
      ensures TotalGrants(chunks) == old(TotalGrants(chunks)) +
              if r.None? then 0
              else if r != originalPtr then Align(newSize)
              else Max(Align(newSize), Align(originalSize)) - Align(originalSize)
      ensures r.None? ==> Blocks() == old(Blocks())
    {
      hide BlocksOf, Sound, Sum, Align, Granted, Linked, TotalGrants, TotalCapacity;
      r := None;
      if originalPtr.None? {
        AlignExact(newSize);
        r := Malloc(newSize, answer);
        return;
      }
      if newSize == 0 {
        return;
      }
      ghost var n: nat :| (originalPtr.value, n) in Blocks() && Align(originalSize) <= n;
      r := Resize(originalPtr.value, n, originalSize, newSize, answer);
    }

    /** The part of Realloc for a block that is there and a new size that is not 0. */
    method Resize(ptr: nat, ghost n: nat, originalSize: nat, newSize: nat, answer: Option<nat>) returns (r: Option<nat>)
      requires Valid() && Answers(answer, Max(chunkCapacity, Align(newSize)))
      requires (ptr, n) in Blocks() && Align(originalSize) <= n && newSize > 0
      modifies this`chunkHead, this`list, this`chunks, this`memory, list
      ensures Valid() && old(list) <= list && forall i :: |old(list)| <= i < |list| ==> fresh(list[i])
      ensures r.Some? ==> exists n: nat :: (r.value, n) in Blocks() && newSize <= n
      ensures r.Some? ==> SameBytes(memory, r.value, old(memory), ptr, if originalSize < newSize then originalSize
              else newSize)
      ensures forall q: nat, m: nat :: (q, m) in old(Blocks()) ==> SameBytes(memory, q, old(memory), q, m)
      ensures forall q: nat, m: nat :: (q, m) in old(Blocks()) ==> (q, m) in Blocks() || (q == ptr && r == Some(ptr))
      // Nothing shrinks; growing in place replaces one block and moving adds one.
      ensures Align(newSize) <= Align(originalSize) ==> r == Some(ptr) && Blocks() == old(Blocks())
      ensures Align(newSize) > Align(originalSize) && r.Some? ==>
                Blocks() == if r.value == ptr then old(Blocks()) - iset{(ptr, n)} + iset{(ptr, Align(newSize))}
                            else old(Blocks()) + iset{(r.value, Align(newSize))}
      ensures r.None? ==> Blocks() == old(Blocks()) && answer.None?
      ensures r.None? <==> Align(originalSize) < Align(newSize) && answer.None? && !old(HasRoom(Align(newSize))) &&
                           !old(GrowsInPlace(ptr, Align(originalSize), Align(newSize)))
      ensures r == Some(ptr) <==> Align(newSize) <= Align(originalSize) ||
                                  old(GrowsInPlace(ptr, Align(originalSize), Align(newSize)))
      ensures TotalGrants(chunks) == old(TotalGrants(chunks)) +
              if r.None? then 0
              else if r.value != ptr then Align(newSize)
              else Max(Align(newSize), Align(originalSize)) - Align(originalSize)
    {
      hide BlocksOf, Sound, Sum, Align, Granted, Linked, TotalGrants, TotalCapacity, GrowsInPlace;
      AlignExact(newSize);
      AlignExact(originalSize);
      var was, now := Align(originalSize), Align(newSize);
      if was >= now {
        return Some(ptr);
      }
      HeadThere(ptr, n);
      InPlaceExactly(ptr, n, was, now);
      if ptr + was == chunkHead.Data() + chunkHead.size {
        var increment := now - was;
        if chunkHead.size + increment <= chunkHead.capacity {
          LastBlock(chunks, ptr, n, was);
          Extend(ptr, n, increment);
          return Some(ptr);
        }
      }
      AlignTwice(newSize);
      r := Move(ptr, n, was, now, answer);
    }

    /** The end of Realloc: a new block, and the bytes of the old one in it. */
    method Move(ptr: nat, ghost n: nat, was: nat, now: nat, answer: Option<nat>) returns (r: Option<nat>)
      requires Valid() && (ptr, n) in Blocks() && was <= n && was < now && Align(now) == now
      requires Answers(answer, Max(chunkCapacity, now))
      modifies this`chunkHead, this`list, this`chunks, this`memory, list
      ensures Valid() && old(list) <= list && forall i :: |old(list)| <= i < |list| ==> fresh(list[i])
      ensures r.None? <==> answer.None? && !old(HasRoom(now))
      ensures r.None? ==> Blocks() == old(Blocks()) && TotalGrants(chunks) == old(TotalGrants(chunks))
      ensures r.Some? ==>
                && r.value != ptr && (r.value, now) in Blocks() && Blocks() == old(Blocks()) + iset{(r.value, now)}
                && TotalGrants(chunks) == old(TotalGrants(chunks)) + now
                && SameBytes(memory, r.value, old(memory), ptr, was)
      ensures forall q: nat, m: nat :: (q, m) in old(Blocks()) ==> SameBytes(memory, q, old(memory), q, m)
    {
      hide BlocksOf, Sound, Sum, Align, Granted, Linked, TotalGrants, TotalCapacity;
      r := Malloc(now, answer);
      if r.Some? {
        AllApart(old(Blocks()), r.value, now);
        SeparateParts(ptr, n, r.value, now, was);
        Copy(r.value, ptr, was);
      }
    }

    /** A block that is not among `others` lies apart from them. */
    lemma AllApart(others: iset<(nat, nat)>, p: nat, n: nat)
      requires Valid() && Blocks() == others + iset{(p, n)} && (p, n) !in others
      ensures forall q: nat, m: nat :: (q, m) in others ==> Separate(q, m, p, n) && m > 0 && n > 0
    {
      hide BlocksOf;
      forall q: nat, m: nat | (q, m) in others ensures Separate(q, m, p, n) && m > 0 && n > 0 {
        BlocksSeparate(chunks, q, m, p, n);
        BlocksSeparate(chunks, p, n, q, m);
      }
    }

    lemma InPlaceExactly(p: nat, n: nat, was: nat, now: nat)
      requires Valid() && list != [] && (p, n) in Blocks() && was <= n && was <= now && chunkHead == list[|list| - 1] &&
               chunkHead != null
      ensures p + was == chunkHead.Data() + chunkHead.size && chunkHead.size + (now - was) <= chunkHead.capacity <==>
              GrowsInPlace(p, was, now)
    {
      hide BlocksOf, Sum, Sound, Granted, LastGrant;
      LastExactly(p, n, was);
    }

    /** The test of Realloc on addresses says that the block is the last grant, known in full. */
    lemma LastExactly(p: nat, n: nat, asked: nat)
      requires Valid() && list != [] && (p, n) in Blocks() && asked <= n && chunkHead == list[|list| - 1] &&
               chunkHead != null
      ensures p + asked == chunkHead.Data() + chunkHead.size <==> LastGrant(p, asked)
    {
      hide BlocksOf, Sum, Sound, Granted;
      if p + asked == chunkHead.Data() + chunkHead.size {
        LastBlock(chunks, p, n, asked);
      }
      if LastGrant(p, asked) {
        LastEnds(chunks[|chunks| - 1], p, asked);
      }
    }

    lemma HeadThere(p: nat, n: nat)
      requires Valid() && (p, n) in Blocks()
      ensures list != [] && chunkHead == list[|list| - 1] && chunkHead != null
    {
    }

    /** Clear: every chunk is given back, and only the user's buffer is kept, empty. */
    method Clear()
      requires Valid()
      modifies this`chunkHead, this`list, this`chunks, list
      ensures Valid() && Blocks() == iset{} && list == if userBuffer == null then [] else [userBuffer]
      ensures userBuffer != null ==> userBuffer.size == 0
    {
      hide Sum, Sound, BlocksOf;
      while chunkHead != null && chunkHead != userBuffer
        invariant Valid() && list <= old(list)
        decreases |list|
      {
        OlderSound(chunks);
        chunkHead := chunkHead.next;
        list := list[..|list| - 1];
        chunks := chunks[..|chunks| - 1];
      }
      if chunkHead != null && chunkHead == userBuffer {
        ghost var only := chunks[0].(grants := []);
        assert list == [userBuffer] by { OnlyBuffer(list, chunks); }
        EmptySound(chunks);
        chunkHead.size := 0;
        chunks := [only];
      }
      NothingHanded(chunks);
    }

    /** Capacity. */
    method Capacity() returns (capacity: nat)
      requires Valid()
      ensures capacity == TotalCapacity(chunks)
    {
      hide Sound, Sum;
      capacity := 0;
      var c := chunkHead;
      ghost var n: nat := |list|;
      assert list[..n] == list && chunks[..n] == chunks;
      while c != null
        invariant n <= |list| && Linked(c, list[..n]) && capacity + TotalCapacity(chunks[..n]) == TotalCapacity(chunks)
        decreases n
      {
        assert list[..n][..n - 1] == list[..n - 1] && chunks[..n][..n - 1] == chunks[..n - 1];
        capacity := capacity + c.capacity;
        c := c.next;
        n := n - 1;
      }
    }

    /** Size: the sum of all aligned grants. */
    method Size() returns (size: nat)
      requires Valid()
      ensures size == TotalGrants(chunks)
    {
      hide Sound, Sum;
      size := 0;
      var c := chunkHead;
      ghost var n: nat := |list|;
      assert list[..n] == list && chunks[..n] == chunks;
      while c != null
        invariant n <= |list| && Linked(c, list[..n]) && size + TotalGrants(chunks[..n]) == TotalGrants(chunks)
        decreases n
      {
        assert list[..n][..n - 1] == list[..n - 1] && chunks[..n][..n - 1] == chunks[..n - 1];
        size := size + c.size;
        c := c.next;
        n := n - 1;
      }
    }
  }

  lemma OlderSound(cs: seq<Chunk>)
    requires Sound(cs) && cs != []
    ensures Sound(cs[..|cs| - 1])
  {
    hide Filled, Apart;
  }

  /** A list whose newest header is also its oldest has one. */
  lemma OnlyBuffer(list: seq<ChunkHeader>, cs: seq<Chunk>)
    requires Heads(list, cs) && list != [] && list[0] == list[|list| - 1]
    ensures list == [list[0]]
  {
  }

  lemma EmptySound(cs: seq<Chunk>)
    requires Sound(cs) && cs != []
    ensures Sound([cs[0].(grants := [])]) && Sum([]) == 0
  {
  }

  lemma NothingHanded(cs: seq<Chunk>)
    requires forall i :: 0 <= i < |cs| ==> cs[i].grants == []
    ensures BlocksOf(cs) == iset{}
  {
  }

  lemma NoneGranted(cs: seq<Chunk>, c: Chunk)
    requires c.grants == []
    ensures TotalGrants(cs + [c]) == TotalGrants(cs) && Sum([]) == 0
  {
    assert (cs + [c])[..|cs|] == cs;
  }

  lemma AlignTwice(n: nat)
    ensures Align(Align(n)) == Align(n)
  {
  }

  lemma SeparateParts(p: nat, n: nat, q: nat, m: nat, k: nat)
    requires Separate(p, n, q, m) && k <= n && k <= m
    ensures Separate(q, k, p, k)
  {
  }
}
