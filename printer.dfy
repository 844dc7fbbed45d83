/**
  The printer of src/printer.rs: a recursive walk over a graph of Pair and
  Number chunks that dispatches on each chunk's tag.  Its output, written
  piece by piece to standard output in the source, is returned here as the
  text emitted together with the panic, if any, that stopped the walk.
*/
module Printer {
  import opened Wrappers
  import Grammar
  import SExpr

  /** A traced slot inside a chunk: empty, or holding the address of a chunk. */
  datatype Cell = Empty | Holds(target: nat)

  /** A chunk as the printer sees it, by the layout its tag selects. */
  datatype Chunk =
    | PairChunk(car: Cell, cdr: Cell)
    | NumberChunk(raw: nat)
    | OtherChunk(tag: nat)

  /** The chunks of a memory, by address. */
  type Heap = map<nat, Chunk>

  /**
    `m.tag()`: the tag stored in the chunk's header.  In a well-formed chunk
    the tag alone determines the layout.
  */
  function TagOf(c: Chunk): (t: nat)
    ensures WellFormed(c) ==> (t == Grammar.PAIR_TAG <==> c.PairChunk?)
    ensures WellFormed(c) ==> (t == Grammar.NUMBER_TAG <==> c.NumberChunk?)
  {
    match c
    case PairChunk(_, _) => Grammar.PAIR_TAG
    case NumberChunk(_) => Grammar.NUMBER_TAG
    case OtherChunk(t) => t
  }

  /** A chunk whose header tag belongs to neither Pair nor Number holds another type. */
  predicate WellFormed(c: Chunk)
  {
    c.OtherChunk? ==> c.tag != Grammar.PAIR_TAG && c.tag != Grammar.NUMBER_TAG
  }

  /** `cast::<Pair>()`: the pair's two cells, exactly when the tag is `Pair::TAG`. */
  function CastPair(c: Chunk): (r: Option<(Cell, Cell)>)
    requires WellFormed(c)
    ensures r.Some? <==> TagOf(c) == Grammar.PAIR_TAG
    ensures r.Some? ==> c == PairChunk(r.value.0, r.value.1)
  {
    if TagOf(c) == Grammar.PAIR_TAG then Some((c.car, c.cdr)) else None
  }

  /** `cast::<Number>()`: the number's `raw` field, exactly when the tag is `Number::TAG`. */
  function CastNumber(c: Chunk): (r: Option<nat>)
    requires WellFormed(c)
    ensures r.Some? <==> TagOf(c) == Grammar.NUMBER_TAG
    ensures r.Some? ==> c == NumberChunk(r.value)
  {
    if TagOf(c) == Grammar.NUMBER_TAG then Some(c.raw) else None
  }

  /**
    `rank` witnesses that the part of the heap it ranks is closed and
    acyclic: every ranked chunk is present and well formed, and every cell
    of a ranked pair holds a ranked chunk of lower rank.  Chunks outside
    `rank`'s domain, cyclic ones included, are unconstrained, so printing
    needs acyclicity only of what is reachable from the printed chunk.
  */
  ghost predicate Ranked(h: Heap, rank: map<nat, nat>)
  {
    forall a :: a in rank ==> a in h && WellFormed(h[a]) && (h[a].PairChunk? ==> Below(h, rank, a, h[a].car) && Below(h, rank, a, h[a].cdr))
  }

  ghost predicate Below(h: Heap, rank: map<nat, nat>, a: nat, c: Cell)
    requires a in rank
  {
    c.Holds? ==> c.target in h && c.target in rank && rank[c.target] < rank[a]
  }

  /** Why the printer stopped early. */
  datatype Panic =
    | UnknownType       // `panic!("Unknown type")`
    | EmptyCellAccess   // dereferencing an empty cell of a pair
    | CastFailed        // `cast(...).unwrap()` on a chunk of another type

  /** The text printed, and the panic that ended printing, if any. */
  datatype Output = Output(text: string, panic: Option<Panic>)

  /**
    `print`: the text emitted for the chunk at address `a`, in order.  No
    `cast(...).unwrap()` in it fails: each branch is chosen by the same tag
    its cast checks.
  */
  function Render(h: Heap, ghost rank: map<nat, nat>, a: nat): (o: Output)
    requires Ranked(h, rank) && a in rank
    ensures o.panic != Some(CastFailed)
    decreases rank[a]
  {
    var c := h[a];
    if TagOf(c) == Grammar.PAIR_TAG then
      match CastPair(c)
      case None => Output("", Some(CastFailed))
      case Some((car, cdr)) =>
        if car.Empty? then Output("(", Some(EmptyCellAccess))
        else
          var first := Render(h, rank, car.target);
          if first.panic.Some? then Output("(" + first.text, first.panic)
          else
            var open := "(" + first.text + " . ";
            if cdr.Empty? then Output(open, Some(EmptyCellAccess))
            else
              var second := Render(h, rank, cdr.target);
              if second.panic.Some? then Output(open + second.text, second.panic)
              else Output(open + second.text + ")", None)
    else if TagOf(c) == Grammar.NUMBER_TAG then
      match CastNumber(c)
      case None => Output("", Some(CastFailed))
      case Some(n) => Output(SExpr.Decimal(n), None)
    else
      Output("", Some(UnknownType))
  }

  /**
    The chunks reachable from `a` are all pairs with both cells set, or
    numbers: defined on the chunk shapes alone, without tags or casts.
  */
  ghost predicate Printable(h: Heap, rank: map<nat, nat>, a: nat)
    requires Ranked(h, rank) && a in rank
    decreases rank[a]
  {
    match h[a]
    case PairChunk(car, cdr) =>
      car.Holds? && cdr.Holds? && Printable(h, rank, car.target) && Printable(h, rank, cdr.target)
    case NumberChunk(_) => true
    case OtherChunk(_) => false
  }

  /** The tree of values reachable from `a`. */
  ghost function Unfold(h: Heap, rank: map<nat, nat>, a: nat): SExpr.Tree
    requires Ranked(h, rank) && a in rank && Printable(h, rank, a)
    decreases rank[a]
  {
    match h[a]
    case PairChunk(car, cdr) => SExpr.Cons(Unfold(h, rank, car.target), Unfold(h, rank, cdr.target))
    case NumberChunk(n) => SExpr.Num(n)
  }

  /** Printing finishes without a panic exactly when everything reachable is printable. */
  lemma {:induction false} RenderSucceedsIff(h: Heap, rank: map<nat, nat>, a: nat)
    requires Ranked(h, rank) && a in rank
    ensures Render(h, rank, a).panic.None? <==> Printable(h, rank, a)
    decreases rank[a]
  {
    match h[a]
    case PairChunk(car, cdr) =>
      if car.Holds? {
        RenderSucceedsIff(h, rank, car.target);
        if cdr.Holds? {
          RenderSucceedsIff(h, rank, cdr.target);
        }
      }
    case NumberChunk(_) =>
    case OtherChunk(_) =>
  }

  /**
    A printable chunk prints as the text form of the tree it unfolds to:
    `(car . cdr)` for a pair, with the car's text entirely before the cdr's,
    and the decimal digits of `raw` for a number.
  */
  lemma {:induction false} RenderShowsUnfold(h: Heap, rank: map<nat, nat>, a: nat)
    requires Ranked(h, rank) && a in rank && Printable(h, rank, a)
    ensures Render(h, rank, a) == Output(SExpr.Show(Unfold(h, rank, a)), None)
    decreases rank[a]
  {
    match h[a]
    case PairChunk(car, cdr) =>
      RenderShowsUnfold(h, rank, car.target);
      RenderShowsUnfold(h, rank, cdr.target);
    case NumberChunk(_) =>
  }

  /** The printed text of a printable chunk reads back as the tree of its values. */
  lemma RenderParses(h: Heap, rank: map<nat, nat>, a: nat)
    requires Ranked(h, rank) && a in rank && Printable(h, rank, a)
    ensures SExpr.Parse(Render(h, rank, a).text) == Some(Unfold(h, rank, a))
  {
    RenderShowsUnfold(h, rank, a);
    SExpr.ShowParses(Unfold(h, rank, a));
  }

  /** A chunk of any other type panics with "Unknown type" before printing anything. */
  lemma RenderUnknownType(h: Heap, rank: map<nat, nat>, a: nat)
    requires Ranked(h, rank) && a in rank
    requires TagOf(h[a]) != Grammar.PAIR_TAG && TagOf(h[a]) != Grammar.NUMBER_TAG
    ensures Render(h, rank, a) == Output("", Some(UnknownType))
  {
  }

  /**
    The car is printed entirely before anything of the cdr: the output
    starts with `(` and the car's output, and a panic in the car ends
    printing there.
  */
  lemma CarBeforeCdr(h: Heap, rank: map<nat, nat>, a: nat)
    requires Ranked(h, rank) && a in rank && h[a].PairChunk? && h[a].car.Holds?
    ensures "(" + Render(h, rank, h[a].car.target).text <= Render(h, rank, a).text
    ensures Render(h, rank, h[a].car.target).panic.Some? ==>
              Render(h, rank, a) == Output("(" + Render(h, rank, h[a].car.target).text,
                                           Render(h, rank, h[a].car.target).panic)
  {
  }

  /** The output does not depend on which acyclicity witness is used. */
  lemma {:induction false} RenderRankIndependent(h: Heap, r1: map<nat, nat>, r2: map<nat, nat>, a: nat)
    requires Ranked(h, r1) && Ranked(h, r2) && a in r1 && a in r2
    ensures Render(h, r1, a) == Render(h, r2, a)
    decreases r1[a]
  {
    match h[a]
    case PairChunk(car, cdr) =>
      if car.Holds? {
        RenderRankIndependent(h, r1, r2, car.target);
      }
      if cdr.Holds? {
        RenderRankIndependent(h, r1, r2, cdr.target);
      }
    case NumberChunk(_) =>
    case OtherChunk(_) =>
  }

  /**
    A pair whose cell holds the pair itself (as the driver builds for
    `pai2`) is never ranked, so it is outside what the printer can print.
    When its car prints without a panic, as `pai2`'s does, the source
    recurses on it until the stack overflows; when the walk panics first
    (an empty car, say), the source stops, but the chunk is still excluded.
  */
  lemma SelfLoopUnranked(h: Heap, rank: map<nat, nat>, a: nat)
    requires Ranked(h, rank)
    requires a in h && h[a].PairChunk? && (h[a].car == Holds(a) || h[a].cdr == Holds(a))
    ensures a !in rank
  {
  }

  /**
    A self-looping pair elsewhere in the heap does not stop a chunk that
    cannot reach it from printing, as with `pai2` and `pai` in the driver.
  */
  lemma UnreachableCyclePrints()
    ensures var h := map[0 := PairChunk(Holds(0), Empty), 1 := NumberChunk(5)];
            Ranked(h, map[1 := 0]) && Render(h, map[1 := 0], 1) == Output("5", None)
  {
    var h := map[0 := PairChunk(Holds(0), Empty), 1 := NumberChunk(5)];
    assert Render(h, map[1 := 0], 1).text == SExpr.Decimal(5);
  }
}
