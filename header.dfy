/**
  The chunk header word (`Header` in src/memory.rs): a 64-bit bitfield that,
  from the least significant bit up, holds a 1-bit `is_raw` flag, a 7-bit
  `tag` and a 56-bit `size`.  As an unsigned integer the word is
  `raw + 2 * tag + 256 * size`.
*/
module Header {

  const TAG_LIMIT: nat := 0x80                       // 2^7
  const SIZE_LIMIT: nat := 0x100_0000_0000_0000      // 2^56

  /** A `u64` machine word. */
  type Word = x: int | 0 <= x < 0x1_0000_0000_0000_0000   // 2^64

  /** `Header::new()`: every field zero. */
  const Empty: Word := 0

  // ---- field getters ----------------------------------------------------

  function IsRaw(h: Word): bool
  {
    h % 2 == 1
  }

  function Tag(h: Word): (t: nat)
    ensures t < TAG_LIMIT
  {
    (h / 2) % TAG_LIMIT
  }

  function Size(h: Word): (s: nat)
    ensures s < SIZE_LIMIT
  {
    h / 0x100
  }

  /** The three fields of a word, lowest first; they pack back into the word. */
  function Decode(h: Word): (r: (bool, nat, nat))
    ensures r.1 < TAG_LIMIT && r.2 < SIZE_LIMIT
    ensures Pack(r.0, r.1, r.2) == h
  {
    FieldsCoverWord(h);
    (IsRaw(h), Tag(h), Size(h))
  }

  /** The word whose fields are exactly the given in-range values. */
  function Pack(isRaw: bool, tag: nat, size: nat): (h: Word)
    requires tag < TAG_LIMIT && size < SIZE_LIMIT
    ensures IsRaw(h) == isRaw && Tag(h) == tag && Size(h) == size
  {
    var low := (if isRaw then 1 else 0) + 2 * tag;
    var w := low + 0x100 * size;
    assert w / 0x100 == size && w % 0x100 == low;
    assert w / 2 == tag + 0x80 * size && w % 2 == low % 2;
    w
  }

  /**
    The three fields are disjoint and together cover all 64 bits: every
    word is the packing of its own fields.
  */
  lemma FieldsCoverWord(h: Word)
    ensures Pack(IsRaw(h), Tag(h), Size(h)) == h
  {
    var low, high := h % 0x100, h / 0x100;
    assert h == low % 2 + 2 * (low / 2 + 0x80 * high);
    assert h / 2 == low / 2 + 0x80 * high && h % 2 == low % 2;
    assert Tag(h) == low / 2;
    assert (if IsRaw(h) then 1 else 0) == low % 2;
  }

  // ---- field setters (`with_is_raw`, `with_tag`, `with_size`) -----------
  // Each clears its own bits and writes the new value masked to the field
  // width; the other fields keep their bits.

  function WithIsRaw(h: Word, isRaw: bool): (r: Word)
    ensures IsRaw(r) == isRaw && Tag(r) == Tag(h) && Size(r) == Size(h)
  {
    FieldsCoverWord(h);
    assert h - h % 2 + (if isRaw then 1 else 0) == Pack(isRaw, Tag(h), Size(h));
    h - h % 2 + (if isRaw then 1 else 0)
  }

  function WithTag(h: Word, tag: nat): (r: Word)
    ensures IsRaw(r) == IsRaw(h) && Tag(r) == tag % TAG_LIMIT && Size(r) == Size(h)
  {
    FieldsCoverWord(h);
    assert h - 2 * Tag(h) + 2 * (tag % TAG_LIMIT) == Pack(IsRaw(h), tag % TAG_LIMIT, Size(h));
    h - 2 * Tag(h) + 2 * (tag % TAG_LIMIT)
  }

  function WithSize(h: Word, size: nat): (r: Word)
    ensures IsRaw(r) == IsRaw(h) && Tag(r) == Tag(h) && Size(r) == size % SIZE_LIMIT
  {
    FieldsCoverWord(h);
    assert h % 0x100 + 0x100 * (size % SIZE_LIMIT) == Pack(IsRaw(h), Tag(h), size % SIZE_LIMIT);
    h % 0x100 + 0x100 * (size % SIZE_LIMIT)
  }

  /**
    `Header::initialize`: a fresh header with the three fields set; values
    wider than their field are cut to its width.
  */
  function Initialize(isRaw: bool, tag: nat, size: nat): (h: Word)
    ensures Decode(h) == (isRaw, tag % TAG_LIMIT, size % SIZE_LIMIT)
  {
    WithSize(WithTag(WithIsRaw(Empty, isRaw), tag), size)
  }

  /** Decoding an initialized header gives back exactly the fields it was built from. */
  lemma InitializeRoundTrip(isRaw: bool, tag: nat, size: nat)
    requires tag < TAG_LIMIT && size < SIZE_LIMIT
    ensures Decode(Initialize(isRaw, tag, size)) == (isRaw, tag, size)
    ensures Initialize(isRaw, tag, size) == Pack(isRaw, tag, size)
  {
  }

  /** Masking the tag and size before initializing changes nothing. */
  lemma InitializeMasked(isRaw: bool, tag: nat, size: nat)
    ensures Initialize(isRaw, tag % TAG_LIMIT, size % SIZE_LIMIT) == Initialize(isRaw, tag, size)
  {
    var h1 := Initialize(isRaw, tag % TAG_LIMIT, size % SIZE_LIMIT);
    var h2 := Initialize(isRaw, tag, size);
    FieldsCoverWord(h1);
    FieldsCoverWord(h2);
  }

  /** Distinct in-range field triples give distinct header words. */
  lemma InitializeInjective(r1: bool, t1: nat, s1: nat, r2: bool, t2: nat, s2: nat)
    requires t1 < TAG_LIMIT && s1 < SIZE_LIMIT && t2 < TAG_LIMIT && s2 < SIZE_LIMIT
    requires Initialize(r1, t1, s1) == Initialize(r2, t2, s2)
    ensures r1 == r2 && t1 == t2 && s1 == s2
  {
  }
}
