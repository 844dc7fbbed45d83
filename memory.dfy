/**
  The memory abstraction of src/memory.rs: a bump allocator over a borrowed
  slice of `u64` words, untyped pointers into it, and the tag-checked casts
  that turn such a pointer into a typed view of a chunk.

  A raw pointer is modelled as a word index into the backing storage; a
  chunk is one header word followed by its payload words.
*/
module Memory {
  import opened Wrappers
  import Header

  type Word = Header.Word

  /** `Ptr`: an untyped pointer to the header word of a chunk.  The derived
      equality of the source compares addresses only, as datatype equality does. */
  datatype Ptr = Ptr(addr: nat)

  /** The `Element` trait: a type's payload word count (`isize`) and its tag (`usize`). */
  datatype Element = Element(size: int, tag: nat)

  /** A typed reference to a chunk, as produced by a successful cast. */
  datatype Ref = Ref(addr: nat, elem: Element, exclusive: bool)

  /** "invalid memory chunk": the header tag differs from the requested type's. */
  datatype CastError = InvalidChunk

  /** `isize::unsigned_abs`. */
  function Abs(x: int): (r: nat)
    ensures r == x || r == -x
  {
    if x < 0 then -x else x
  }

  // ---- tag-checked casts -------------------------------------------------

  /** `Ptr::cast`: a shared view of the chunk at `p` as a `T`, when the tag matches. */
  function Cast(mem: seq<Word>, p: Ptr, t: Element): (r: Result<Ref, CastError>)
    requires p.addr < |mem|
    ensures r.Ok? ==> r.value.addr == p.addr && r.value.elem == t && !r.value.exclusive
  {
    if Header.Tag(mem[p.addr]) == t.tag then Ok(Ref(p.addr, t, false)) else Err(InvalidChunk)
  }

  /** `Ptr::cast_mut`: the same check as `cast`, yielding an exclusive view. */
  function CastMut(mem: seq<Word>, p: Ptr, t: Element): (r: Result<Ref, CastError>)
    requires p.addr < |mem|
    ensures r.Ok? <==> Cast(mem, p, t).Ok?
    ensures r.Ok? ==> r.value.addr == p.addr && r.value.elem == t && r.value.exclusive
  {
    if Header.Tag(mem[p.addr]) == t.tag then Ok(Ref(p.addr, t, true)) else Err(InvalidChunk)
  }

  /**
    Right after a header for `t` is written at `p`, casting `p` to `s`
    succeeds exactly when `s` and `t` declare the same tag (for tags that
    fit the 7-bit field).
  */
  lemma CastAfterWrite(mem: seq<Word>, p: Ptr, t: Element, s: Element, isRaw: bool, size: nat)
    requires p.addr < |mem| && t.tag < Header.TAG_LIMIT
    requires mem[p.addr] == Header.Initialize(isRaw, t.tag, size)
    ensures Cast(mem, p, s).Ok? <==> s.tag == t.tag
    ensures CastMut(mem, p, s).Ok? <==> s.tag == t.tag
  {
  }

  // ---- the layout of allocated chunks ------------------------------------

  /** What the allocator recorded for one chunk: its address and header fields. */
  datatype ChunkInfo = ChunkInfo(addr: nat, isRaw: bool, tag: nat, size: nat)
  {
    /** One past the chunk's last word. */
    function End(): nat { addr + size + 1 }
  }

  /**
    The chunks, in allocation order, lie back to back from word 0, and the
    last ends at `free`.
  */
  ghost predicate Tiles(cs: seq<ChunkInfo>, free: nat)
    decreases |cs|
  {
    if cs == [] then free == 0
    else cs[|cs| - 1].End() == free && Tiles(cs[..|cs| - 1], cs[|cs| - 1].addr)
  }

  /**
    Tiled chunks are in strictly increasing order and never overlap: each
    chunk ends at or before the next one starts, and all end by `free`.
  */
  lemma {:induction false} TilesDisjoint(cs: seq<ChunkInfo>, free: nat)
    requires Tiles(cs, free)
    ensures forall i :: 0 <= i < |cs| ==> cs[i].End() <= free
    ensures forall i, j :: 0 <= i < j < |cs| ==> cs[i].End() <= cs[j].addr
    decreases |cs|
  {
    if cs != [] {
      var n := |cs| - 1;
      TilesDisjoint(cs[..n], cs[n].addr);
      assert forall i :: 0 <= i < n ==> cs[i] == cs[..n][i];
    }
  }

  /** Total words taken by chunks: each is its payload plus one header word. */
  function Used(cs: seq<ChunkInfo>): nat
  {
    if cs == [] then 0 else Used(cs[..|cs| - 1]) + cs[|cs| - 1].size + 1
  }

  /** The free pointer of a tiling equals the words used by all its chunks. */
  lemma {:induction false} TilesUsed(cs: seq<ChunkInfo>, free: nat)
    requires Tiles(cs, free)
    ensures free == Used(cs)
    decreases |cs|
  {
    if cs != [] {
      TilesUsed(cs[..|cs| - 1], cs[|cs| - 1].addr);
    }
  }

  /** Allocating one more chunk at `free` keeps the tiling. */
  lemma TilesExtend(cs: seq<ChunkInfo>, free: nat, c: ChunkInfo)
    requires Tiles(cs, free) && c.addr == free
    ensures Tiles(cs + [c], c.End())
  {
  }

  /** The header word of `c` is intact in `mem`. */
  ghost predicate HeaderAt(mem: seq<Word>, c: ChunkInfo)
  {
    c.addr < |mem| && mem[c.addr] == Header.Initialize(c.isRaw, c.tag, c.size)
  }

  /** The payload of `n` words at `p` lies inside one recorded chunk. */
  ghost predicate Fits(cs: seq<ChunkInfo>, p: Ptr, n: int)
  {
    exists i :: 0 <= i < |cs| && cs[i].addr == p.addr && 0 <= n <= cs[i].size
  }

  // ---- the allocator -----------------------------------------------------

  /** `Memory`: a free pointer into borrowed linear memory. */
  class Memory {
    /** The borrowed backing storage (`_linear`). */
    const linear: array<Word>
    /** The free pointer, as an index into `linear`. */
    var freePointer: nat
    /** The chunks allocated so far, in order (not present in the source). */
    ghost var chunks: seq<ChunkInfo>

    /**
      The allocator's invariant: the free pointer stays inside the storage,
      the chunks tile the words before it, and each chunk's header is intact.
    */
    ghost predicate Valid()
      reads this, linear
    {
      freePointer <= linear.Length &&
      Tiles(chunks, freePointer) &&
      forall i :: 0 <= i < |chunks| ==> HeaderAt(linear[..], chunks[i])
    }

    /** `Memory::new`: the free pointer starts at the first word of `memory`. */
    constructor (memory: array<Word>)
      ensures linear == memory && freePointer == 0 && chunks == []
      ensures Valid()
    {
      linear := memory;
      freePointer := 0;
      chunks := [];
    }

    /**
      `allocate_`: bump the free pointer by `T::size() + additional_size + 1`
      words and write, at the old free position, a header with `T::tag()`,
      the raw flag and the absolute payload size; return the old position.
      The source checks no capacity: the caller must keep the header write
      and the new free pointer inside the storage.
    */
    method AllocateChunk(t: Element, additionalSize: int, isRaw: bool) returns (p: Ptr)
      requires freePointer < linear.Length
      requires 0 <= freePointer + t.size + additionalSize + 1 <= linear.Length
      modifies this, linear
      ensures p == Ptr(old(freePointer))
      ensures freePointer == old(freePointer) + t.size + additionalSize + 1
      ensures linear[..] == old(linear[..])[p.addr := Header.Initialize(isRaw, t.tag, Abs(t.size + additionalSize))]
      ensures Header.Decode(linear[p.addr])
           == (isRaw, t.tag % Header.TAG_LIMIT, Abs(t.size + additionalSize) % Header.SIZE_LIMIT)
      ensures chunks == old(chunks) + [ChunkInfo(p.addr, isRaw, t.tag % Header.TAG_LIMIT,
                                                 Abs(t.size + additionalSize) % Header.SIZE_LIMIT)]
      ensures old(Valid()) && 0 <= t.size + additionalSize < Header.SIZE_LIMIT ==> Valid()
    {
      var size := t.size + additionalSize;
      var current := freePointer;
      freePointer := current + size + 1;
      var hdr := Header.Initialize(isRaw, t.tag, Abs(size));
      linear[current] := hdr;
      p := Ptr(current);
      ghost var c := ChunkInfo(current, isRaw, t.tag % Header.TAG_LIMIT, Abs(size) % Header.SIZE_LIMIT);
      Header.InitializeMasked(isRaw, t.tag, Abs(size));
      ghost var before := chunks;
      chunks := chunks + [c];
      if old(Valid()) && 0 <= size < Header.SIZE_LIMIT {
        TilesExtend(before, current, c);
        HeaderWriteKeepsHeaders(before, current, old(linear[..]), linear[..], c);
      }
    }

    /** `allocate`: a chunk the collector would trace (`is_raw` false). */
    method Allocate(t: Element, additionalSize: int) returns (p: Ptr)
      requires freePointer < linear.Length
      requires 0 <= freePointer + t.size + additionalSize + 1 <= linear.Length
      modifies this, linear
      ensures p == Ptr(old(freePointer))
      ensures freePointer == old(freePointer) + t.size + additionalSize + 1
      ensures linear[..] == old(linear[..])[p.addr := Header.Initialize(false, t.tag, Abs(t.size + additionalSize))]
      ensures !Header.IsRaw(linear[p.addr])
      ensures chunks == old(chunks) + [ChunkInfo(p.addr, false, t.tag % Header.TAG_LIMIT,
                                                 Abs(t.size + additionalSize) % Header.SIZE_LIMIT)]
      ensures old(Valid()) && 0 <= t.size + additionalSize < Header.SIZE_LIMIT ==> Valid()
    {
      p := AllocateChunk(t, additionalSize, false);
    }

    /** `allocate_raw`: a chunk the collector would skip (`is_raw` true). */
    method AllocateRaw(t: Element, additionalSize: int) returns (p: Ptr)
      requires freePointer < linear.Length
      requires 0 <= freePointer + t.size + additionalSize + 1 <= linear.Length
      modifies this, linear
      ensures p == Ptr(old(freePointer))
      ensures freePointer == old(freePointer) + t.size + additionalSize + 1
      ensures linear[..] == old(linear[..])[p.addr := Header.Initialize(true, t.tag, Abs(t.size + additionalSize))]
      ensures Header.IsRaw(linear[p.addr])
      ensures chunks == old(chunks) + [ChunkInfo(p.addr, true, t.tag % Header.TAG_LIMIT,
                                                 Abs(t.size + additionalSize) % Header.SIZE_LIMIT)]
      ensures old(Valid()) && 0 <= t.size + additionalSize < Header.SIZE_LIMIT ==> Valid()
    {
      p := AllocateChunk(t, additionalSize, true);
    }

    /**
      `Ptr::modify`: when the chunk at `p` has `T`'s tag, replace the
      `T::size()` payload words after its header by what `f` makes of them;
      otherwise the source panics on `unwrap`, modelled as `Err` with nothing
      written.
    */
    method Modify(p: Ptr, t: Element, f: seq<Word> -> seq<Word>) returns (r: Result<(), CastError>)
      requires p.addr < linear.Length
      requires Header.Tag(linear[p.addr]) == t.tag ==> 0 <= t.size && p.addr + t.size < linear.Length
      requires forall s: seq<Word> :: |s| == t.size ==> |f(s)| == t.size
      modifies linear
      ensures r.Ok? <==> CastMut(old(linear[..]), p, t).Ok?
      ensures r.Ok? ==> 0 <= t.size && p.addr + t.size < linear.Length && linear[..] == old(linear[..p.addr + 1])
                                      + f(old(linear[p.addr + 1..p.addr + 1 + t.size]))
                                      + old(linear[p.addr + 1 + t.size..])
      ensures r.Err? ==> linear[..] == old(linear[..])
      ensures old(Valid()) && Fits(chunks, p, t.size) ==> Valid()
    {
      ghost var before := linear[..];
      var view := CastMut(linear[..], p, t);
      if view.Err? {
        return Err(InvalidChunk);
      }
      assert 0 <= t.size && p.addr + t.size < linear.Length;
      var start := p.addr + 1;
      var fields := f(linear[start..start + t.size]);
      forall k | start <= k < start + t.size {
        linear[k] := fields[k - start];
      }
      r := Ok(());
      Splice(before, linear[..], start, fields);
      assert before[..start] == old(linear[..p.addr + 1]);
      assert before[start + t.size..] == old(linear[p.addr + 1 + t.size..]);
      if old(Valid()) && Fits(chunks, p, t.size) {
        var i :| 0 <= i < |chunks| && chunks[i].addr == p.addr && 0 <= t.size <= chunks[i].size;
        PayloadWriteKeepsHeaders(chunks, freePointer, old(linear[..]), linear[..], i, t.size);
      }
    }
  }

  /**
    Successive allocations of a valid memory are strictly increasing and
    never overlap, and every chunk lies before the free pointer.
  */
  lemma ValidChunksDisjoint(m: Memory)
    requires m.Valid()
    ensures forall i :: 0 <= i < |m.chunks| ==> m.chunks[i].End() <= m.freePointer
    ensures forall i, j :: 0 <= i < j < |m.chunks| ==> m.chunks[i].End() <= m.chunks[j].addr
  {
    TilesDisjoint(m.chunks, m.freePointer);
  }

  /** A sequence that differs from `before` only on `[start, start + |fields|)`, where it holds `fields`. */
  lemma Splice(before: seq<Word>, after: seq<Word>, start: nat, fields: seq<Word>)
    requires |after| == |before| && start + |fields| <= |before|
    requires forall k :: start <= k < start + |fields| ==> after[k] == fields[k - start]
    requires forall k :: 0 <= k < |before| && !(start <= k < start + |fields|) ==> after[k] == before[k]
    ensures after == before[..start] + fields + before[start + |fields|..]
  {
  }

  /** Writing the header of a new chunk at the free pointer keeps every header, old and new. */
  lemma HeaderWriteKeepsHeaders(cs: seq<ChunkInfo>, free: nat, before: seq<Word>, after: seq<Word>, c: ChunkInfo)
    requires Tiles(cs, free) && c.addr == free < |before|
    requires after == before[free := Header.Initialize(c.isRaw, c.tag, c.size)]
    requires forall j :: 0 <= j < |cs| ==> HeaderAt(before, cs[j])
    ensures forall j :: 0 <= j < |cs + [c]| ==> HeaderAt(after, (cs + [c])[j])
  {
    TilesDisjoint(cs, free);
    forall j | 0 <= j < |cs + [c]|
      ensures HeaderAt(after, (cs + [c])[j])
    {
      if j < |cs| {
        assert (cs + [c])[j] == cs[j] && cs[j].addr < free;
        assert HeaderAt(before, cs[j]);
      }
    }
  }

  /** Writing strictly inside one tiled chunk's payload leaves every header intact. */
  lemma PayloadWriteKeepsHeaders(cs: seq<ChunkInfo>, free: nat, before: seq<Word>, after: seq<Word>, i: nat, n: nat)
    requires Tiles(cs, free) && i < |cs| && n <= cs[i].size && |after| == |before|
    requires forall k :: 0 <= k < |before| && !(cs[i].addr < k <= cs[i].addr + n) ==> after[k] == before[k]
    requires forall j :: 0 <= j < |cs| ==> HeaderAt(before, cs[j])
    ensures forall j :: 0 <= j < |cs| ==> HeaderAt(after, cs[j])
  {
    TilesDisjoint(cs, free);
    forall j | 0 <= j < |cs|
      ensures HeaderAt(after, cs[j])
    {
      assert HeaderAt(before, cs[j]);
      if j < i {
        assert cs[j].End() <= cs[i].addr;
      } else if j > i {
        assert cs[i].End() <= cs[j].addr;
      }
    }
  }

  // ---- the unit test of src/memory.rs ------------------------------------

  /** The test module's `Number`: one payload word, tag 2. */
  const TestNumber := Element(1, 2)
  /** The test module's `Pair`: two pointer words, tag 1. */
  const TestPair := Element(2, 1)

  /**
    `test_pair`: a Pair and then a raw Number allocated in 1000 zero words
    land at words 0 and 3 and leave the free pointer at 5; after the number
    is set to 42 and both fields of the pair to the number's pointer, the
    pair casts back, its fields equal the number's pointer, and that pointer
    casts to a Number holding 42.
  */
  method PairScenario() returns (pair: Ptr, num: Ptr, free: nat, asPair: Result<Ref, CastError>,
                                  car: Ptr, cdr: Ptr, asNumber: Result<Ref, CastError>, n: Word)
    ensures pair == Ptr(0) && num == Ptr(3) && free == 5
    ensures asPair == Ok(Ref(pair.addr, TestPair, false))
    ensures car == num && cdr == num
    ensures asNumber == Ok(Ref(car.addr, TestNumber, false)) && n == 42
  {
    var data := new Word[1000](_ => 0);
    var mem := new Memory(data);
    pair := mem.Allocate(TestPair, 0);
    num := mem.AllocateRaw(TestNumber, 0);
    free := mem.freePointer;
    assert Header.Tag(data[0]) == 1 && Header.Tag(data[3]) == 2;

    ghost var before := data[..];
    var setNumber := mem.Modify(num, TestNumber, s => [42]);
    assert setNumber.Ok?;
    assert data[..] == before[..4] + [42] + before[5..];
    assert data[0] == before[0] && data[4] == 42;

    before := data[..];
    var setPair := mem.Modify(pair, TestPair, s => [3, 3]);
    assert setPair.Ok?;
    assert data[..] == before[..1] + [3, 3] + before[3..];
    assert data[0] == before[0] && data[1] == 3 && data[2] == 3;
    assert data[3] == before[3] && data[4] == 42;

    asPair := Cast(data[..], pair, TestPair);
    assert asPair.Ok?;
    car, cdr := Ptr(data[pair.addr + 1]), Ptr(data[pair.addr + 2]);
    asNumber := Cast(data[..], car, TestNumber);
    assert asNumber.Ok?;
    n := data[car.addr + 1];
  }
}
