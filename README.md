# slip-rs heap core in Dafny

This project models the memory layer of slip-rs, a small tagged-object heap for cons cells. It covers four parts:

- The **header word** of a chunk. This is a `u64` bitfield with, from the low bit up, a 1-bit `is_raw` flag, a 7-bit `tag` and a 56-bit `size`. As an integer the word is `raw + 2*tag + 256*size`. `Header::initialize` builds it with the field setters.
- The **bump allocator** `Memory`. It holds a free pointer into a borrowed `[u64]` slice. `allocate_` writes a header at the free position, moves the pointer forward by `T::size() + additional_size + 1` words, and returns a `Ptr` to the old position. `allocate` and `allocate_raw` fix the raw flag.
- The **tag-checked casts** on `Ptr`: `cast`, `cast_mut` and `modify`.
- The **printer**. `print` walks a graph of Pair and Number chunks by tag. A pair renders as `(car . cdr)`, a number as its decimal `raw`, and any other tag panics with "Unknown type".

Files:

- `header.dfy`: the header codec.
- `memory.dfy`: `Ptr`, `Element`, the casts, and the class `Memory` over an `array<Word>`. Its ghost `chunks` list records every allocation, and `Valid()` states that the chunks tile the words below the free pointer with their headers intact. It also holds the scenario of the crate's `test_pair` unit test.
- `grammar.dfy`: the `TAG` constants of Number and Pair.
- `sexpr.dfy`: a heap-free reference for the printer. It has dotted-pair trees, their text form `Show`, and a parser `Parse` that is proved to read `Show` back.
- `printer.dfy`: `Render`, the printer over an abstract heap (address to chunk). It is proved to print exactly `Show` of the tree it unfolds to.
- `wrappers.dfy`: `Option` and `Result`.

Modelling choices:

- A raw pointer is a word index into the backing array.
- A panic is an error value. `Modify` returns `Err` and writes nothing. `Render` returns the text printed so far together with the panic.
- The header `size` is the payload word count, without the header word (src/memory.rs:103, 110).
- `allocate_` checks no capacity (src/memory.rs:107-108), so `AllocateChunk` has no out-of-memory path. It requires exactly what the source needs to stay defined: the header write and the moved free pointer must be inside the backing slice.
- Negative sizes are allowed, as in the source, so `unsigned_abs` matters. The tiling invariant is kept only for sizes in `[0, 2^56)`.
- Field setters mask an out-of-range value to the field width. This is the release-build behaviour of the `bitfield_struct` setters.
- Allocation writes only the header word; payload words keep whatever the storage held.

## Model

| member | source | states |
|---|---|---|
| Header.Decode | src/memory.rs:68-73 | the getters `is_raw`, `tag` and `size` give a tag below 2^7 and a size below 2^56, and the three fields pack back into exactly the word read |
| Header.Tag | src/memory.rs:70-71 | the tag field is below 2^7 |
| Header.Size | src/memory.rs:72-73 | the size field is below 2^56 |
| Header.Pack | src/memory.rs:64-74 | the word `raw + 2*tag + 256*size` of in-range fields decodes to exactly those fields |
| Header.FieldsCoverWord | src/memory.rs:64-74 | the three fields are disjoint and cover all 64 bits: every word is the packing of its own fields |
| Header.WithIsRaw | src/memory.rs:68-69 | setting `is_raw` yields that flag and leaves tag and size unchanged |
| Header.WithTag | src/memory.rs:70-71 | setting `tag` yields the value masked to 7 bits and leaves the raw flag and size unchanged |
| Header.WithSize | src/memory.rs:72-73 | setting `size` yields the value masked to 56 bits and leaves the raw flag and tag unchanged |
| Header.Initialize | src/memory.rs:76-79 | an initialized header decodes to the given raw flag, the tag mod 2^7 and the size mod 2^56 |
| Header.InitializeRoundTrip | src/memory.rs:64-79 | for in-range tag and size, decoding an initialized header gives back exactly its fields |
| Header.InitializeMasked | src/memory.rs:77-79 | masking tag and size to their field widths before `initialize` gives the same word |
| Header.InitializeInjective | src/memory.rs:77-79 | distinct in-range field triples give distinct header words |
| Memory.Abs | src/memory.rs:110 | `unsigned_abs` gives the size itself or its negation, whichever is non-negative |
| Memory.Cast | src/memory.rs:29-44 | a successful cast is a shared view at the same address, typed by the requested element |
| Memory.CastMut | src/memory.rs:47-61 | `cast_mut` succeeds exactly when `cast` does, and yields an exclusive view at the same address |
| Memory.CastAfterWrite | src/memory.rs:38-42 | after a header for `T` is written at `p`, casting `p` to `S` succeeds iff `S` and `T` declare the same tag, for both casts |
| Memory.ValidChunksDisjoint | src/memory.rs:102-114 | in a valid memory, successive allocations are strictly increasing, never overlap and end by the free pointer |
| Memory.TilesDisjoint | src/memory.rs:107-108 | successive chunks are strictly increasing and never overlap, and all end by the free pointer |
| Memory.TilesUsed | src/memory.rs:107-108 | the free pointer equals the total words of all chunks allocated (payload plus header each) |
| Memory.TilesExtend | src/memory.rs:107-111 | a chunk placed at the free pointer extends the tiling up to its end |
| Memory.HeaderWriteKeepsHeaders | src/memory.rs:107-111 | writing a new header at the free pointer keeps every earlier chunk's header and makes the new one readable |
| Memory.PayloadWriteKeepsHeaders | src/memory.rs:22-24 | writing inside one chunk's payload leaves every chunk header intact |
| Memory.Memory.constructor | src/memory.rs:98-100 | a fresh memory borrows the given storage, has its free pointer at word 0 and no chunks |
| Memory.Memory.AllocateChunk | src/memory.rs:102-114 | returns the old free position, advances the free pointer by `T::size() + additional_size + 1`, changes only the header word there, which decodes to `(is_raw, T::tag(), abs(size))`, and keeps the tiling invariant for sizes in range |
| Memory.Memory.Allocate | src/memory.rs:129-131 | `allocate_` with the raw flag always clear |
| Memory.Memory.AllocateRaw | src/memory.rs:135-137 | `allocate_` with the raw flag always set |
| Memory.Memory.Modify | src/memory.rs:22-24 | succeeds iff `cast_mut` does; on success replaces exactly the `T::size()` payload words by `f` of them, otherwise writes nothing; keeps the invariant when the payload fits the chunk; the payload bounds are required only when the tag matches, since on a mismatch only the header is read |
| Memory.PairScenario | src/memory.rs:187-205 | Pair then raw Number land at words 0 and 3 with the free pointer at 5; the pair casts to `Pair`, its fields equal the number's pointer, and that pointer casts to a `Number` holding 42 |
| Printer.TagOf | src/printer.rs:6 | `m.tag()` of a well-formed chunk is `Pair::TAG` exactly for a pair and `Number::TAG` exactly for a number |
| Printer.CastPair | src/printer.rs:7-8 | `cast::<Pair>` succeeds iff the tag is `Pair::TAG`, and yields that pair's cells |
| Printer.CastNumber | src/printer.rs:16-17 | `cast::<Number>` succeeds iff the tag is `Number::TAG`, and yields that number's `raw` |
| Printer.Render | src/printer.rs:5-22 | `print` never fails on a `cast(...).unwrap()`, since each branch is chosen by the tag its cast checks |
| Printer.RenderSucceedsIff | src/printer.rs:5-22 | printing ends without a panic iff every chunk reachable is a number or a pair with both cells set |
| Printer.RenderShowsUnfold | src/printer.rs:7-18 | a printable chunk prints as `(car . cdr)` or the decimal `raw`, recursively, with the car's text before the cdr's |
| Printer.RenderParses | src/printer.rs:5-22 | the printed text of a printable chunk parses back to the tree of its values |
| Printer.RenderUnknownType | src/printer.rs:20 | a chunk with any other tag panics with "Unknown type" before printing anything |
| Printer.CarBeforeCdr | src/printer.rs:9-13 | the output starts with `(` and the car's output, and a panic in the car ends printing before the cdr |
| Printer.RenderRankIndependent | src/printer.rs:5-22 | the output does not depend on the acyclicity witness chosen |
| Printer.SelfLoopUnranked | src/main.rs:22 | a pair whose cell holds itself is never ranked; when its car prints without a panic, as `pai2`'s does (src/main.rs:20-22), the source recurses on it until the stack overflows |
| Printer.UnreachableCyclePrints | src/main.rs:22-28 | a self-looping pair the printed chunk cannot reach does not stop it printing: a heap with such a pair and the number 5 prints `5` |
| SExpr.Decimal | src/printer.rs:18 | the decimal form is a non-empty digit string that starts with `0` only for zero |
| SExpr.DecimalValue | src/printer.rs:18 | the decimal form denotes the number it was made from |
| SExpr.ParseShow | src/printer.rs:9-18 | reading the text of a tree off the front of a string whose rest does not start with a digit gives back the tree and that rest |
| SExpr.ShowParses | src/printer.rs:9-18 | the text form of a tree parses back to exactly that tree |

## Left out

- `Memory::collect` has an empty body (src/memory.rs:144), so no collector is modelled. The same goes for the forwarding table, the root set and the `gc` that src/main.rs:24 calls.
- `Memory::destroy` (src/memory.rs:140) only drops the value. The lifetime parameters and `PhantomData` have no counterpart in the model.
- `Ptr::equal` (src/memory.rs:16-18) is private and never called. The derived equality of `Ptr` is the datatype equality of `Ptr(addr)`.
- The debug `println!` in `cast` (src/memory.rs:37) and the pointer-width test (src/memory.rs:181-185) are output and platform details.
- Modify: the closure acts on the `T::size()` payload words only. A closure that rewrites the chunk's own header is not modelled.
- AllocateChunk: `T::size() + additional_size` is computed on unbounded integers. The `isize` overflow check of a debug build is not modelled. Sizes are bounded by the storage length anyway.
- Header.WithTag, Header.WithSize: any range assertion a debug build of the bitfield crate may add is not modelled. Only the masking is.
- Printer.Render: the printer works on an abstract heap (address to Pair, Number or other chunk), not on the word array. The `MemPtr`, `Cell` and `ChunkContent` API it uses is not defined in src/memory.rs and is not part of this model, so the word layout of a cell is unknown. An empty cell is taken to panic on dereference (`EmptyCellAccess`).
- Printer.Render: termination is proved from a ghost rank map over the chunks reachable from the printed one. A chunk from which a cycle is reachable is not covered, even when the walk would panic before reaching the cycle: a pair with an empty car whose cdr holds itself prints `(` and panics in the source, yet it has no rank. Cycles the printed chunk cannot reach are allowed.
- Writing to standard output is modelled as the returned text.
- The constructors in src/grammar.rs (`Number::new`, `Pair::new`, `car`, `cdr`) and the driver src/main.rs are not part of this model. Only the two TAG constants are used.
