/** The shape catalog and the piece sequencer: the seven standard shapes, the
    list of available types, `createBlock`, and the 7-bag / uniform randomizers.
    Shuffling and random index choice are not modelled as algorithms: each draw
    is handed a `Draw`, which carries some permutation of the seven types and
    some index in [0, 6], and the sequencer uses whichever part it needs. */
module Catalog {
  import opened Blocks

  const NumTypes: int := 7

  /** The available types in declaration order. */
  function AvailableTypes(): seq<int> {
    [TypeI, TypeO, TypeT, TypeS, TypeZ, TypeJ, TypeL]
  }

  /** `s` holds every one of the seven types exactly once. */
  predicate IsTypePermutation(s: seq<int>) {
    multiset(s) == multiset(AvailableTypes())
  }

  /** The outcome of one `std::shuffle` of the available types. */
  type Shuffle = s: seq<int> | IsTypePermutation(s) witness [0, 1, 2, 3, 4, 5, 6]

  /** The outcome of one uniform index draw over the available types. */
  type Pick = i: int | 0 <= i < NumTypes

  /** The random outcomes available to one request for a piece. */
  datatype Draw = Draw(shuffled: Shuffle, pick: Pick)

  /** How the next type is chosen; any name other than "7-bag" selects uniform draws. */
  datatype Mode = SevenBag | Uniform

  datatype Factory = Factory(mode: Mode, bag: seq<int>)

  function ModeOf(name: string): (m: Mode)
    ensures m == SevenBag <==> name == "7-bag"
  {
    if name == "7-bag" then SevenBag else Uniform
  }

  // ---------------------------------------------------------------------------
  // Standard shapes

  /** `createStandardShape`: the fixed pattern, name, colour and spawn offsets of
      each type; any other code yields the default shape record. */
  function StandardShape(t: int): Shape {
    if t == TypeI then
      Shape("I", [[false, false, false, false],
                  [true,  true,  true,  true ],
                  [false, false, false, false],
                  [false, false, false, false]], Cyan, 3, 0)
    else if t == TypeO then
      Shape("O", [[true, true],
                  [true, true]], Yellow, 4, 0)
    else if t == TypeT then
      Shape("T", [[false, true,  false],
                  [true,  true,  true ],
                  [false, false, false]], Purple, 3, 0)
    else if t == TypeS then
      Shape("S", [[false, true,  true ],
                  [true,  true,  false],
                  [false, false, false]], Green, 3, 0)
    else if t == TypeZ then
      Shape("Z", [[true,  true,  false],
                  [false, true,  true ],
                  [false, false, false]], Red, 3, 0)
    else if t == TypeJ then
      Shape("J", [[true,  false, false],
                  [true,  true,  true ],
                  [false, false, false]], Blue, 3, 0)
    else if t == TypeL then
      Shape("L", [[false, false, true ],
                  [true,  true,  true ],
                  [false, false, false]], Orange, 3, 0)
    else DefaultShape()
  }

  /** The side length of each standard pattern: 4 for I, 2 for O, 3 for the rest. */
  function PatternSize(t: int): nat {
    if t == TypeI then 4 else if t == TypeO then 2 else 3
  }

  /** Every standard shape has a square pattern of its documented size with
      exactly four true cells. */
  lemma StandardShapeWellFormed(t: int)
    requires IsValidType(t)
    ensures IsSquare(StandardShape(t).pattern)
    ensures |StandardShape(t).pattern| == PatternSize(t)
    ensures CountTrue(StandardShape(t).pattern) == 4
  {
    if t == TypeI {
      ShapeIWellFormed();
    } else if t == TypeO {
      ShapeOWellFormed();
    } else if t == TypeT {
      ShapeTWellFormed();
    } else if t == TypeS {
      ShapeSWellFormed();
    } else if t == TypeZ {
      ShapeZWellFormed();
    } else if t == TypeJ {
      ShapeJWellFormed();
    } else {
      ShapeLWellFormed();
    }
  }

  lemma ShapeIWellFormed()
    ensures IsSquare(StandardShape(TypeI).pattern)
    ensures |StandardShape(TypeI).pattern| == PatternSize(TypeI)
    ensures CountTrue(StandardShape(TypeI).pattern) == 4
  {
  }

  lemma ShapeOWellFormed()
    ensures IsSquare(StandardShape(TypeO).pattern)
    ensures |StandardShape(TypeO).pattern| == PatternSize(TypeO)
    ensures CountTrue(StandardShape(TypeO).pattern) == 4
  {
  }

  lemma ShapeTWellFormed()
    ensures IsSquare(StandardShape(TypeT).pattern)
    ensures |StandardShape(TypeT).pattern| == PatternSize(TypeT)
    ensures CountTrue(StandardShape(TypeT).pattern) == 4
  {
  }

  lemma ShapeSWellFormed()
    ensures IsSquare(StandardShape(TypeS).pattern)
    ensures |StandardShape(TypeS).pattern| == PatternSize(TypeS)
    ensures CountTrue(StandardShape(TypeS).pattern) == 4
  {
  }

  lemma ShapeZWellFormed()
    ensures IsSquare(StandardShape(TypeZ).pattern)
    ensures |StandardShape(TypeZ).pattern| == PatternSize(TypeZ)
    ensures CountTrue(StandardShape(TypeZ).pattern) == 4
  {
  }

  lemma ShapeJWellFormed()
    ensures IsSquare(StandardShape(TypeJ).pattern)
    ensures |StandardShape(TypeJ).pattern| == PatternSize(TypeJ)
    ensures CountTrue(StandardShape(TypeJ).pattern) == 4
  {
  }

  lemma ShapeLWellFormed()
    ensures IsSquare(StandardShape(TypeL).pattern)
    ensures |StandardShape(TypeL).pattern| == PatternSize(TypeL)
    ensures CountTrue(StandardShape(TypeL).pattern) == 4
  {
  }

  /** In its spawn orientation every standard pattern uses only rows 0 and 1
      and columns 0 to 3 of its box. */
  lemma StandardPatternSpan(t: int)
    requires IsValidType(t)
    ensures forall y, x :: At(StandardShape(t).pattern, y, x) ==> 0 <= y <= 1 && 0 <= x <= 3
  {
  }

  /** A standard block occupies exactly four cells in each of its four rotations. */
  lemma StandardBlockHasFourCells(b: Block)
    requires IsValidType(b.kind) && b.shape == StandardShape(b.kind)
    ensures |OccupiedCells(b)| == 4
  {
    StandardShapeWellFormed(b.kind);
    OccupiedCount(b);
  }

  /** The available-type list holds exactly the seven valid types, once each. */
  lemma AvailableTypesExact()
    ensures |AvailableTypes()| == NumTypes
    ensures forall t :: t in AvailableTypes() <==> IsValidType(t)
    ensures forall i, j :: 0 <= i < j < |AvailableTypes()| ==> AvailableTypes()[i] != AvailableTypes()[j]
    ensures forall i :: 0 <= i < NumTypes ==> AvailableTypes()[i] == i
  {
  }

  /** Every member of a permutation of the types is a valid type. */
  lemma PermutationMembersValid(s: seq<int>)
    requires IsTypePermutation(s)
    ensures |s| == NumTypes
    ensures forall t :: t in s <==> IsValidType(t)
  {
    assert |multiset(s)| == |multiset(AvailableTypes())|;
    forall t
      ensures t in s <==> IsValidType(t)
    {
      assert t in s <==> t in multiset(s);
      assert t in AvailableTypes() <==> t in multiset(AvailableTypes());
    }
  }

  // ---------------------------------------------------------------------------
  // Blocks from types

  /** `createBlock`: the sentinel block for a code outside 0..6, otherwise the
      type's standard shape at (0, 0) with rotation 0. */
  function CreateBlock(t: int): (b: Block)
    ensures !IsValidType(t) ==> b == EmptyBlock()
    ensures IsValidType(t) ==>
      b.kind == t && b.shape == StandardShape(t) && b.pos == (0, 0) && b.rotation == 0
  {
    if !IsValidType(t) then EmptyBlock()
    else NewBlock(t, StandardShape(t))
  }

  // ---------------------------------------------------------------------------
  // Sequencer

  /** The constructor: "7-bag" mode with the bag filled by one shuffle. */
  function NewFactory(shuffled: Shuffle): (f: Factory)
    ensures f.mode == SevenBag && IsTypePermutation(f.bag)
  {
    Factory(SevenBag, shuffled)
  }

  /** `setRandomizerType`: selects the mode by name and refills the bag. */
  function SetRandomizerType(f: Factory, name: string, shuffled: Shuffle): (f': Factory)
    ensures f'.mode == SevenBag <==> name == "7-bag"
    ensures IsTypePermutation(f'.bag)
  {
    Factory(ModeOf(name), shuffled)
  }

  /** `getNextFrom7Bag`: refill an empty bag with the shuffle, then take the front. */
  function NextFromBag(f: Factory, shuffled: Shuffle): (r: (int, Factory))
    ensures |f.bag| > 0 ==> r.0 == f.bag[0] && r.1 == f.(bag := f.bag[1..])
    ensures |f.bag| == 0 ==> r.0 == shuffled[0] && r.1 == f.(bag := shuffled[1..])
  {
    var bag := if |f.bag| == 0 then shuffled else f.bag;
    PermutationMembersValid(shuffled);
    (bag[0], f.(bag := bag[1..]))
  }

  /** `getNextRandom`: the available type at the drawn index. */
  function NextRandom(pick: Pick): (t: int)
    ensures IsValidType(t) && t == pick
  {
    AvailableTypes()[pick]
  }

  /** The next type code the factory produces for one draw, with its new state. */
  function NextType(f: Factory, d: Draw): (r: (int, Factory))
    ensures f.mode == Uniform ==> r.1 == f && r.0 == d.pick
  {
    if f.mode == SevenBag then NextFromBag(f, d.shuffled) else (NextRandom(d.pick), f)
  }

  /** `createRandomBlock`: the next type, replaced by TYPE_I if it is not a valid
      type, turned into its standard block. */
  function CreateRandomBlock(f: Factory, d: Draw): (r: (Block, Factory))
    ensures IsValid(r.0)
    ensures r.0.shape == StandardShape(r.0.kind) && r.0.pos == (0, 0) && r.0.rotation == 0
    ensures r.1 == NextType(f, d).1
    ensures IsValidType(NextType(f, d).0) ==> r.0.kind == NextType(f, d).0
    ensures !IsValidType(NextType(f, d).0) ==> r.0.kind == TypeI
  {
    var (t0, f') := NextType(f, d);
    var t := if IsValidType(t0) then t0 else TypeI;
    var b := CreateBlock(t);
    var b' := if IsValid(b) then b else CreateBlock(TypeI);
    (b', f')
  }

  /** The bag only ever holds valid types. */
  ghost predicate BagValid(f: Factory) {
    forall t :: t in f.bag ==> IsValidType(t)
  }

  /** Under `BagValid` the sequencer only produces valid types, so the TYPE_I
      substitution of `createRandomBlock` never fires, and `BagValid` is kept. */
  lemma NextTypeValid(f: Factory, d: Draw)
    requires BagValid(f)
    ensures IsValidType(NextType(f, d).0)
    ensures BagValid(NextType(f, d).1)
    ensures CreateRandomBlock(f, d).0.kind == NextType(f, d).0
  {
    PermutationMembersValid(d.shuffled);
    if f.mode == SevenBag && |f.bag| > 0 {
      assert f.bag[0] in f.bag;
      assert forall t :: t in f.bag[1..] ==> t in f.bag;
    }
  }

  /** The types produced by a run of draws, and the factory afterwards. */
  function DrawTypes(f: Factory, draws: seq<Draw>): (r: (seq<int>, Factory))
    ensures |r.0| == |draws|
    ensures r.1.mode == f.mode
    decreases |draws|
  {
    if |draws| == 0 then ([], f)
    else
      var first := NextType(f, draws[0]);
      var rest := DrawTypes(first.1, draws[1..]);
      ([first.0] + rest.0, rest.1)
  }

  lemma DrawTypesCons(f: Factory, d: Draw, rest: seq<Draw>)
    ensures DrawTypes(f, [d] + rest).0 == [NextType(f, d).0] + DrawTypes(NextType(f, d).1, rest).0
    ensures DrawTypes(f, [d] + rest).1 == DrawTypes(NextType(f, d).1, rest).1
  {
    assert ([d] + rest)[0] == d;
    assert ([d] + rest)[1..] == rest;
  }

  lemma {:induction false} DrawTypesAppendState(f: Factory, a: seq<Draw>, b: seq<Draw>)
    ensures DrawTypes(f, a + b).1 == DrawTypes(DrawTypes(f, a).1, b).1
    decreases |a|
  {
    if |a| > 0 {
      var d := a[0];
      var tail := a[1..];
      assert a == [d] + tail;
      assert a + b == [d] + (tail + b);
      DrawTypesCons(f, d, tail + b);
      DrawTypesCons(f, d, tail);
      DrawTypesAppendState(NextType(f, d).1, tail, b);
    } else {
      assert a + b == b;
    }
  }

  lemma {:induction false} DrawTypesAppend(f: Factory, a: seq<Draw>, b: seq<Draw>)
    ensures DrawTypes(f, a + b).0 == DrawTypes(f, a).0 + DrawTypes(DrawTypes(f, a).1, b).0
    decreases |a|
  {
    if |a| > 0 {
      var f1 := NextType(f, a[0]).1;
      assert (a + b)[0] == a[0];
      assert (a + b)[1..] == a[1..] + b;
      DrawTypesAppend(f1, a[1..], b);
    } else {
      assert a + b == b;
    }
  }

  /** In 7-bag mode, as many draws as the bag holds return the bag in order
      and leave it empty. */
  lemma {:induction false} DrainBag(f: Factory, draws: seq<Draw>)
    requires f.mode == SevenBag && |draws| == |f.bag|
    ensures DrawTypes(f, draws).0 == f.bag
    ensures DrawTypes(f, draws).1.bag == []
    decreases |draws|
  {
    if |draws| > 0 {
      var f1 := f.(bag := f.bag[1..]);
      assert NextType(f, draws[0]) == (f.bag[0], f1);
      DrainBag(f1, draws[1..]);
      assert f.bag == [f.bag[0]] + f.bag[1..];
    }
  }

  /** In 7-bag mode with an empty bag, the next seven draws are a permutation of
      the seven types (one refill, then the rest of that bag), and the bag is
      empty again afterwards. */
  lemma BagRound(f: Factory, draws: seq<Draw>)
    requires f.mode == SevenBag && f.bag == [] && |draws| == NumTypes
    ensures IsTypePermutation(DrawTypes(f, draws).0)
    ensures DrawTypes(f, draws).1.bag == []
    ensures DrawTypes(f, draws).1.mode == SevenBag
  {
    var s: Shuffle := draws[0].shuffled;
    RoundIsShuffle(f, draws);
    assert IsTypePermutation(s);
  }

  /** From an empty bag, seven draws return the shuffle of the first draw. */
  lemma RoundIsShuffle(f: Factory, draws: seq<Draw>)
    requires f.mode == SevenBag && f.bag == [] && |draws| == NumTypes
    ensures DrawTypes(f, draws).0 == draws[0].shuffled
    ensures DrawTypes(f, draws).1.bag == []
  {
    var f0 := f.(bag := draws[0].shuffled);
    RefillFirst(f, draws);
    DrainBag(f0, draws);
  }

  /** Drawing from an empty bag is drawing from a bag already holding the
      first draw's shuffle. */
  lemma RefillFirst(f: Factory, draws: seq<Draw>)
    requires f.mode == SevenBag && f.bag == [] && |draws| > 0
    ensures |draws[0].shuffled| == NumTypes
    ensures DrawTypes(f, draws) == DrawTypes(f.(bag := draws[0].shuffled), draws)
  {
    Refill(f, draws[0]);
    var f0 := f.(bag := draws[0].shuffled);
    assert NextType(f, draws[0]) == NextType(f0, draws[0]);
  }

  /** A draw from an empty bag takes the front of the new shuffle and keeps the
      other six. */
  lemma Refill(f: Factory, d: Draw)
    requires f.mode == SevenBag && f.bag == []
    ensures |d.shuffled| == NumTypes
    ensures NextType(f, d) == (d.shuffled[0], f.(bag := d.shuffled[1..]))
  {
    PermutationMembersValid(d.shuffled);
  }

  /** The constructor fills the bag, so the first seven draws are a permutation
      of the seven types, and the bag is empty after them. */
  lemma FirstBagRound(shuffled: Shuffle, draws: seq<Draw>)
    requires |draws| == NumTypes
    ensures IsTypePermutation(DrawTypes(NewFactory(shuffled), draws).0)
    ensures DrawTypes(NewFactory(shuffled), draws).1.bag == []
  {
    PermutationMembersValid(shuffled);
    DrainBag(NewFactory(shuffled), draws);
  }

  lemma WindowOfConcat(a: seq<int>, b: seq<int>, j: nat)
    requires |a| == NumTypes && NumTypes * j + NumTypes <= |a| + |b|
    ensures j == 0 ==> (a + b)[NumTypes * j .. NumTypes * j + NumTypes] == a
    ensures j > 0 ==> (a + b)[NumTypes * j .. NumTypes * j + NumTypes]
                      == b[NumTypes * (j - 1) .. NumTypes * (j - 1) + NumTypes]
  {
  }

  /** In 7-bag mode, starting from an empty bag, every block of seven draws
      aligned to the refills holds each type exactly once. */
  lemma {:induction false} BagWindows(f: Factory, draws: seq<Draw>, k: nat)
    requires f.mode == SevenBag && f.bag == [] && |draws| == NumTypes * k
    ensures forall j :: 0 <= j < k ==>
      IsTypePermutation(DrawTypes(f, draws).0[NumTypes * j .. NumTypes * j + NumTypes])
    ensures DrawTypes(f, draws).1.bag == []
  {
    if k > 0 {
      var first := draws[..NumTypes];
      var rest := draws[NumTypes..];
      assert draws == first + rest;
      BagRound(f, first);
      var f1 := DrawTypes(f, first).1;
      BagWindows(f1, rest, k - 1);
      DrawTypesAppend(f, first, rest);
      DrawTypesAppendState(f, first, rest);
      var ts := DrawTypes(f, draws).0;
      var ts1 := DrawTypes(f, first).0;
      var ts2 := DrawTypes(f1, rest).0;
      assert ts == ts1 + ts2;
      assert |ts1| == NumTypes;
      forall j | 0 <= j < k
        ensures IsTypePermutation(ts[NumTypes * j .. NumTypes * j + NumTypes])
      {
        WindowOfConcat(ts1, ts2, j);
      }
    }
  }

  /** In uniform mode each draw yields the available type at the drawn index and
      the bag is left alone. */
  lemma UniformDraw(f: Factory, d: Draw)
    requires f.mode == Uniform
    ensures NextType(f, d).0 == AvailableTypes()[d.pick]
    ensures 0 <= d.pick <= 6
    ensures NextType(f, d).1 == f
  {
  }
}
