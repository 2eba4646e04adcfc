/**
  `PolarCompiler`: turns a packed frozen mask into a byte program for a
  successive cancellation decoder. The mask packs the flags of four
  consecutive positions into one byte, position `4j + k` in bit `k` of byte
  `j` (`U = 2`, so `1 << U` flags per byte). A program is the level byte, a
  body of opcodes `(func << 5) | level` and raw leaf bytes, and a closing 255.
*/
module Compiler {
  import opened Common
  import Encoder

  /** log2 of the number of flags per packed byte. */
  const U: nat := 2

  // The opcode functions of `left`, `right`, `combine`, `rate0`, `rate1`, `rep`.
  const LeftFunc: nat := 1
  const RightFunc: nat := 2
  const CombineFunc: nat := 3
  const Rate0Func: nat := 4
  const Rate1Func: nat := 5
  const RepFunc: nat := 6

  /**
    `node(func, level)`: the function in the top three bits, the level in the
    low five. For the levels the compiler reaches (at most 30) the `|` adds.
  */
  function Node(func: nat, level: nat): (b: Byte)
    requires 1 <= func <= 6 && level < 32
    ensures 32 <= b < 255
  {
    func * 32 + level
  }

  /** A node byte gives back its function and level, so distinct nodes are distinct bytes. */
  lemma NodeDecodes(func: nat, level: nat)
    requires 1 <= func <= 6 && level < 32
    ensures Node(func, level) / 32 == func && Node(func, level) % 32 == level
  {
  }

  // Population count on a packed byte.

  function Bit(x: bv8, k: bv8): nat
    requires k < 8
  {
    if (x >> k) & 1 == 1 then 1 else 0
  }

  /** The number of set bits, bit by bit. */
  function BitCount(x: bv8): (n: nat)
    ensures n <= 8
  {
    Bit(x, 0) + Bit(x, 1) + Bit(x, 2) + Bit(x, 3) + Bit(x, 4) + Bit(x, 5) + Bit(x, 6) + Bit(x, 7)
  }

  /** `x & (x - 1)` clears exactly the lowest set bit. */
  lemma ClearLowest(x: bv8)
    requires x != 0
    ensures BitCount(x & (x - 1)) == BitCount(x) - 1
  {
  }

  /** `popcnt`: clear the lowest set bit until none is left, counting the rounds. */
  method Popcnt(x0: bv8) returns (cnt: nat)
    ensures cnt == BitCount(x0)
    ensures x0 == 0 <==> cnt == 0
  {
    var x := x0;
    cnt := 0;
    while x != 0
      invariant cnt + BitCount(x) == BitCount(x0)
      invariant x0 != 0 ==> x != 0 || cnt > 0
      decreases BitCount(x)
    {
      ClearLowest(x);
      cnt := cnt + 1;
      x := x & (x - 1);
    }
    assert BitCount(0) == 0;
  }

  /** The set bits of a run of packed bytes. */
  function PackedCount(p: seq<bv8>): (n: nat)
    ensures n <= 8 * |p|
  {
    if |p| == 0 then 0 else BitCount(p[0]) + PackedCount(p[1..])
  }

  lemma {:induction false} PackedCountAppend(a: seq<bv8>, b: seq<bv8>)
    ensures PackedCount(a + b) == PackedCount(a) + PackedCount(b)
    decreases |a|
  {
    if |a| > 0 {
      assert (a + b)[1..] == a[1..] + b;
      PackedCountAppend(a[1..], b);
    } else {
      assert a + b == b;
    }
  }

  /** The number of packed bytes a block of `level` covers. */
  function PackedLen(level: nat): (n: nat)
    ensures n >= 1
  {
    if level > U then Pow2(level - U) else 1
  }

  /**
    `frozen_count`: `popcnt` summed over the `1 << (level - U)` bytes of the
    block. The shift is only defined for `level >= U`.
  */
  method FrozenCount(frozen: seq<bv8>, level: nat) returns (count: nat)
    requires level >= U && |frozen| >= Pow2(level - U)
    ensures count == PackedCount(frozen[..Pow2(level - U)])
  {
    var n := Pow2(level - U);
    count := 0;
    var i := 0;
    while i < n
      invariant 0 <= i <= n
      invariant count == PackedCount(frozen[..i])
    {
      var c := Popcnt(frozen[i]);
      assert frozen[..i + 1] == frozen[..i] + [frozen[i]];
      PackedCountAppend(frozen[..i], [frozen[i]]);
      count := count + c;
      i := i + 1;
    }
  }

  // The unpacked view: one flag (0 free, 1 frozen) per position.

  function Flags(b: bv8): (f: seq<Byte>)
    ensures |f| == 4
  {
    [Bit(b, 0), Bit(b, 1), Bit(b, 2), Bit(b, 3)]
  }

  function Unpack(p: seq<bv8>): (u: seq<Byte>)
    ensures |u| == 4 * |p|
  {
    if |p| == 0 then [] else Flags(p[0]) + Unpack(p[1..])
  }

  /** Every packed byte uses only its four flag bits. */
  predicate WellFormed(p: seq<bv8>)
  {
    forall i :: 0 <= i < |p| ==> p[i] < 16
  }

  lemma {:induction false} UnpackAppend(a: seq<bv8>, b: seq<bv8>)
    ensures Unpack(a + b) == Unpack(a) + Unpack(b)
    decreases |a|
  {
    if |a| > 0 {
      assert (a + b)[1..] == a[1..] + b;
      UnpackAppend(a[1..], b);
    } else {
      assert a + b == b;
    }
  }

  lemma FlagsCount(b: bv8)
    requires b < 16
    ensures BitCount(b) + Encoder.FreeCount(Flags(b)) == 4
  {
    FreeCountOfFour(Flags(b));
    assert Bit(b, 4) == 0 && Bit(b, 5) == 0 && Bit(b, 6) == 0 && Bit(b, 7) == 0;
  }

  /**
    On a well-formed mask `popcnt` counts frozen positions: the set bits and
    the free positions of the unpacked view add up to the block size.
  */
  lemma {:induction false} PackedCountFrozen(p: seq<bv8>)
    requires WellFormed(p)
    ensures PackedCount(p) + Encoder.FreeCount(Unpack(p)) == |Unpack(p)|
    decreases |p|
  {
    if |p| > 0 {
      PackedCountFrozen(p[1..]);
      FlagsCount(p[0]);
      Encoder.FreeCountAppend(Flags(p[0]), Unpack(p[1..]));
    }
  }

  /** A block of `level >= U` covers `2^level` positions. */
  lemma BlockPositions(level: nat)
    requires level >= U
    ensures 4 * Pow2(level - U) == Pow2(level)
  {
    Pow2Add(U, level - U);
  }

  /** The five ways `compile` treats a block. */
  datatype Block = Leaf | AllFrozen | NoneFrozen | LastFree | Split

  /**
    The case split of `compile`: a block of at most `1 << U` positions is a
    leaf; a larger one is all frozen when `popcnt` finds `2^level` set bits,
    has none frozen when it finds none, has only its last position free when
    it finds `2^level - 1` and the last packed byte is 7, and is split
    otherwise. `1 << level` in the source is only defined up to level 30.
  */
  function Classify(frozen: seq<bv8>, level: nat): (k: Block)
    requires level <= 30 && |frozen| >= PackedLen(level)
    ensures k == Leaf <==> level <= U
  {
    if level <= U then Leaf
    else
      var n := Pow2(level - U);
      var count := PackedCount(frozen[..n]);
      if count == Pow2(level) then AllFrozen
      else if count == 0 then NoneFrozen
      else if count == Pow2(level) - 1 && frozen[n - 1] == 7 then LastFree
      else Split
  }

  /**
    `compile`: one leaf byte holding the packed flags, one `rate0`, `rate1`
    or `rep` byte, or `left`, the left half, `right`, the right half,
    `combine`.
  */
  function Compile(frozen: seq<bv8>, level: nat): (body: seq<Byte>)
    requires level <= 30 && |frozen| >= PackedLen(level)
    ensures |body| >= 1
    decreases level
  {
    match Classify(frozen, level)
    case Leaf => [frozen[0] as int]
    case AllFrozen => [Node(Rate0Func, level)]
    case NoneFrozen => [Node(Rate1Func, level)]
    case LastFree => [Node(RepFunc, level)]
    case Split =>
      ChildLen(level);
      [Node(LeftFunc, level)] + Compile(frozen, level - 1)
      + [Node(RightFunc, level)] + Compile(frozen[Pow2(level - 1 - U)..], level - 1)
      + [Node(CombineFunc, level)]
  }

  lemma ChildLen(level: nat)
    requires level > U
    ensures PackedLen(level - 1) <= Pow2(level - 1 - U) <= Pow2(level - U)
    ensures Pow2(level - U) == 2 * Pow2(level - 1 - U)
  {
    Pow2Monotone(level - 1 - U, level - U);
  }

  predicate IsSplit(frozen: seq<bv8>, level: nat)
    requires level > U && level <= 30 && |frozen| >= PackedLen(level)
  {
    Classify(frozen, level) == Split
  }

  /**
    `operator()`: the level byte, the compiled body, the 255 sentinel; the
    returned length is the number of bytes written.
  */
  method CompileProgram(frozen: seq<bv8>, level: nat) returns (program: seq<Byte>, length: nat)
    requires level <= 30 && |frozen| >= PackedLen(level)
    ensures length == |program| && length >= 3
    ensures program[0] == level && program[length - 1] == 255
    ensures program[1..length - 1] == Compile(frozen, level)
    ensures WellFormed(frozen) ==> forall i :: 1 <= i < length - 1 ==> program[i] != 255
  {
    var body := Compile(frozen, level);
    program := [level] + body + [255];
    length := |program|;
    assert program[1..length - 1] == body;
    if WellFormed(frozen) {
      CompileNoSentinel(frozen, level);
    }
  }

  /** A block of at most four positions is the single leaf byte of its flags. */
  lemma CompileLeaf(frozen: seq<bv8>, level: nat)
    requires level <= U && |frozen| >= 1
    ensures Compile(frozen, level) == [frozen[0] as int]
    ensures WellFormed(frozen) ==> Compile(frozen, level)[0] <= 15
  {
  }

  /** The split case emits at least five bytes. */
  lemma {:induction false} SplitIsLong(frozen: seq<bv8>, level: nat)
    requires 2 < level <= 30 && |frozen| >= PackedLen(level) && IsSplit(frozen, level)
    ensures |Compile(frozen, level)| >= 5
  {
  }

  /**
    A block with every position frozen compiles to the one byte `rate0`,
    and only such a block does.
  */
  lemma CompileRate0(frozen: seq<bv8>, level: nat)
    requires U < level <= 30 && |frozen| >= PackedLen(level) && WellFormed(frozen)
    ensures var u := Unpack(frozen[..Pow2(level - U)]);
      Compile(frozen, level) == [Node(Rate0Func, level)] <==> Encoder.FreeCount(u) == 0
  {
    var n := Pow2(level - U);
    BlockPositions(level);
    PackedCountFrozen(frozen[..n]);
    if IsSplit(frozen, level) {
      SplitIsLong(frozen, level);
    }
  }

  /**
    A block with no frozen position compiles to the one byte `rate1`, and
    only such a block does.
  */
  lemma CompileRate1(frozen: seq<bv8>, level: nat)
    requires U < level <= 30 && |frozen| >= PackedLen(level) && WellFormed(frozen)
    ensures var u := Unpack(frozen[..Pow2(level - U)]);
      Compile(frozen, level) == [Node(Rate1Func, level)] <==> Encoder.FreeCount(u) == |u|
  {
    var n := Pow2(level - U);
    BlockPositions(level);
    PackedCountFrozen(frozen[..n]);
    if IsSplit(frozen, level) {
      SplitIsLong(frozen, level);
    }
  }

  /**
    What the case split of `compile` means on the unpacked mask: a block
    above `U` is all frozen exactly when no position is free, none frozen
    exactly when every position is free, and last-free exactly when the one
    free position is the last.
  */
  lemma ClassifyByMask(frozen: seq<bv8>, level: nat)
    requires level <= 30 && |frozen| >= PackedLen(level)
    ensures Classify(frozen, level) == Leaf <==> level <= U
    ensures level > U && WellFormed(frozen) ==>
      var u := Unpack(frozen[..Pow2(level - U)]);
      && (Classify(frozen, level) == AllFrozen <==> Encoder.FreeCount(u) == 0)
      && (Classify(frozen, level) == NoneFrozen <==> Encoder.FreeCount(u) == |u|)
      && (Classify(frozen, level) == LastFree <==> Encoder.FreeCount(u) == 1 && u[|u| - 1] == 0)
  {
    if level > U && WellFormed(frozen) {
      var n := Pow2(level - U);
      var p := frozen[..n];
      var u := Unpack(p);
      BlockPositions(level);
      PackedCountFrozen(p);
      assert p == p[..n - 1] + [p[n - 1]];
      UnpackAppend(p[..n - 1], [p[n - 1]]);
      assert Unpack([p[n - 1]]) == Flags(p[n - 1]);
      assert u == Unpack(p[..n - 1]) + Flags(frozen[n - 1]);
      OneFreeLast(frozen[n - 1], Unpack(p[..n - 1]));
      SevenIsLastFree(frozen[n - 1]);
      Pow2Monotone(1, level);
    }
  }

  /** Only the flag pattern frozen-frozen-frozen-free is the byte 7. */
  lemma SevenIsLastFree(b: bv8)
    requires b < 16
    ensures b == 7 <==> Flags(b) == [1, 1, 1, 0]
  {
  }

  /** The free count of a flag quadruple. */
  lemma FreeCountOfFour(f: seq<Byte>)
    requires |f| == 4
    ensures Encoder.FreeCount(f) ==
      (if f[0] == 0 then 1 else 0) + (if f[1] == 0 then 1 else 0) + (if f[2] == 0 then 1 else 0) + (if f[3] == 0 then 1 else 0)
  {
    assert f[3..][1..] == [];
    assert Encoder.FreeCount(f[3..]) == (if f[3] == 0 then 1 else 0);
    assert f[2..][1..] == f[3..];
    assert Encoder.FreeCount(f[2..]) == (if f[2] == 0 then 1 else 0) + Encoder.FreeCount(f[3..]);
    assert f[1..][1..] == f[2..];
    assert Encoder.FreeCount(f[1..]) == (if f[1] == 0 then 1 else 0) + Encoder.FreeCount(f[2..]);
  }

  /** A flag quadruple with one free position, the last, is frozen-frozen-frozen-free. */
  lemma OneFreeLast(b: bv8, rest: seq<Byte>)
    requires b < 16
    ensures Encoder.FreeCount(rest + Flags(b)) == 1 && Flags(b)[3] == 0 <==>
      Encoder.FreeCount(rest) == 0 && Flags(b) == [1, 1, 1, 0]
  {
    Encoder.FreeCountAppend(rest, Flags(b));
    FreeCountOfFour(Flags(b));
  }

  /**
    `rep` is emitted exactly when the one free position of the block is its
    last: the count check and the last-byte check `== 7` together say so.
  */
  lemma CompileRep(frozen: seq<bv8>, level: nat)
    requires U < level <= 30 && |frozen| >= PackedLen(level) && WellFormed(frozen)
    ensures var u := Unpack(frozen[..Pow2(level - U)]);
      Compile(frozen, level) == [Node(RepFunc, level)] <==>
        Encoder.FreeCount(u) == 1 && u[|u| - 1] == 0
  {
    var n := Pow2(level - U);
    var p := frozen[..n];
    var u := Unpack(p);
    BlockPositions(level);
    PackedCountFrozen(p);
    assert p == p[..n - 1] + [p[n - 1]];
    UnpackAppend(p[..n - 1], [p[n - 1]]);
    assert Unpack([p[n - 1]]) == Flags(p[n - 1]);
    assert u == Unpack(p[..n - 1]) + Flags(frozen[n - 1]);
    assert u[|u| - 1] == Flags(frozen[n - 1])[3];
    OneFreeLast(frozen[n - 1], Unpack(p[..n - 1]));
    SevenIsLastFree(frozen[n - 1]);
    Pow2Monotone(1, level);
    if IsSplit(frozen, level) {
      SplitIsLong(frozen, level);
    }
  }

  /** The bytes of the packed mask from byte `k` on are the positions from `4k` on. */
  lemma UnpackDrop(p: seq<bv8>, k: nat)
    requires k <= |p|
    ensures Unpack(p[k..]) == Unpack(p)[4 * k..]
  {
    assert p == p[..k] + p[k..];
    UnpackAppend(p[..k], p[k..]);
  }

  /**
    The split case: `left`, the block's left half, `right`, the right half
    read from byte offset `2^(level-1-U)`, which is position `2^(level-1)`,
    then `combine`.
  */
  lemma CompileSplit(frozen: seq<bv8>, level: nat)
    requires U < level <= 30 && |frozen| >= PackedLen(level) && IsSplit(frozen, level)
    ensures var k := Pow2(level - 1 - U);
      k <= |frozen| &&
      Compile(frozen, level) ==
        [Node(LeftFunc, level)] + Compile(frozen, level - 1)
        + [Node(RightFunc, level)] + Compile(frozen[k..], level - 1) + [Node(CombineFunc, level)]
    ensures 4 * Pow2(level - 1 - U) == Pow2(level - 1)
    ensures Unpack(frozen[Pow2(level - 1 - U)..]) == Unpack(frozen)[Pow2(level - 1)..]
  {
    Pow2Add(U, level - 1 - U);
    UnpackDrop(frozen, Pow2(level - 1 - U));
  }

  /** A body never holds the sentinel, so the program ends at its only 255. */
  lemma {:induction false} CompileNoSentinel(frozen: seq<bv8>, level: nat)
    requires level <= 30 && |frozen| >= PackedLen(level) && WellFormed(frozen)
    ensures forall i :: 0 <= i < |Compile(frozen, level)| ==> Compile(frozen, level)[i] != 255
    decreases level
  {
    if level > U && IsSplit(frozen, level) {
      assert PackedLen(level - 1) <= Pow2(level - 1 - U) by {
        if level - 1 > U { Pow2Monotone(level - 1 - U, level - U); }
      }
      var k := Pow2(level - 1 - U);
      CompileNoSentinel(frozen, level - 1);
      assert WellFormed(frozen[k..]);
      CompileNoSentinel(frozen[k..], level - 1);
    }
  }

  /**
    The body length: one byte for a leaf, at most `4 * 2^(level-U) - 3` for a
    larger block, so a whole program fits in `2^level` bytes from level 2 on.
  */
  lemma {:induction false} CompileLength(frozen: seq<bv8>, level: nat)
    requires level <= 30 && |frozen| >= PackedLen(level)
    ensures level <= U ==> |Compile(frozen, level)| == 1
    ensures level >= U ==> |Compile(frozen, level)| + 3 <= 4 * Pow2(level - U)
    decreases level
  {
    if level <= U {
      CompileLeaf(frozen, level);
      assert Pow2(0) == 1;
    } else if IsSplit(frozen, level) {
      var k := Pow2(level - 1 - U);
      ChildLen(level);
      var right := frozen[k..];
      assert |Compile(frozen, level - 1)| + 3 <= 4 * k by {
        CompileLength(frozen, level - 1);
      }
      assert |Compile(right, level - 1)| + 3 <= 4 * k by {
        CompileLength(right, level - 1);
      }
      SplitLength(frozen, level);
    } else {
      SingleOpcode(frozen, level);
    }
  }

  /** A block that does not split compiles to one opcode, which fits. */
  lemma SingleOpcode(frozen: seq<bv8>, level: nat)
    requires U < level <= 30 && |frozen| >= PackedLen(level) && !IsSplit(frozen, level)
    ensures |Compile(frozen, level)| == 1
    ensures |Compile(frozen, level)| + 3 <= 4 * Pow2(level - U)
  {
    Pow2Monotone(0, level - U);
  }

  lemma SplitLength(frozen: seq<bv8>, level: nat)
    requires U < level <= 30 && |frozen| >= PackedLen(level) && IsSplit(frozen, level)
    requires Pow2(level - 1 - U) <= |frozen|
    requires |Compile(frozen, level - 1)| + 3 <= 4 * Pow2(level - 1 - U)
    requires |Compile(frozen[Pow2(level - 1 - U)..], level - 1)| + 3 <= 4 * Pow2(level - 1 - U)
    ensures |Compile(frozen, level)| + 3 <= 4 * Pow2(level - U)
  {
    CompileSplit(frozen, level);
    ChildLen(level);
  }

  /** The test bench's buffer of `10 * 2^level` bytes holds every program. */
  lemma ProgramFitsBuffer(frozen: seq<bv8>, level: nat)
    requires level <= 30 && |frozen| >= PackedLen(level)
    ensures |Compile(frozen, level)| + 2 <= 10 * Pow2(level)
  {
    CompileLength(frozen, level);
    if level >= U {
      BlockPositions(level);
    }
  }

  /** The number of occurrences of byte `b`. */
  function Occurrences(s: seq<Byte>, b: Byte): nat
  {
    multiset(s)[b]
  }

  /**
    Every `left` of a level has its `right` and its `combine`: the three
    opcodes occur equally often at each level, so the decoder's index moves
    forward and back the same number of times.
  */
  lemma {:induction false} CompileBalanced(frozen: seq<bv8>, level: nat, l: nat)
    requires level <= 30 && |frozen| >= PackedLen(level) && WellFormed(frozen) && l < 32
    ensures Occurrences(Compile(frozen, level), Node(LeftFunc, l)) == Occurrences(Compile(frozen, level), Node(RightFunc, l))
    ensures Occurrences(Compile(frozen, level), Node(LeftFunc, l)) == Occurrences(Compile(frozen, level), Node(CombineFunc, l))
    decreases level
  {
    if level <= U {
      assert Compile(frozen, level) == [frozen[0] as int];
    } else if IsSplit(frozen, level) {
      ChildLen(level);
      var k := Pow2(level - 1 - U);
      assert WellFormed(frozen[k..]);
      CompileBalanced(frozen, level - 1, l);
      CompileBalanced(frozen[k..], level - 1, l);
      SplitOccurrences(frozen, level, Node(LeftFunc, l));
      SplitOccurrences(frozen, level, Node(RightFunc, l));
      SplitOccurrences(frozen, level, Node(CombineFunc, l));
      TopBalanced(level, l);
    }
  }

  /** The three opcodes a split adds are balanced at every level. */
  lemma TopBalanced(level: nat, l: nat)
    requires level < 32 && l < 32
    ensures var top := [Node(LeftFunc, level), Node(RightFunc, level), Node(CombineFunc, level)];
      Occurrences(top, Node(LeftFunc, l)) == Occurrences(top, Node(RightFunc, l)) == Occurrences(top, Node(CombineFunc, l))
  {
  }

  /** The occurrences of a byte in a split block: the two halves' plus the three opcodes'. */
  lemma SplitOccurrences(frozen: seq<bv8>, level: nat, b: Byte)
    requires U < level <= 30 && |frozen| >= PackedLen(level) && IsSplit(frozen, level)
    ensures Pow2(level - 1 - U) <= |frozen| && PackedLen(level - 1) <= |frozen[Pow2(level - 1 - U)..]|
    ensures Occurrences(Compile(frozen, level), b)
      == Occurrences(Compile(frozen, level - 1), b) + Occurrences(Compile(frozen[Pow2(level - 1 - U)..], level - 1), b)
         + Occurrences([Node(LeftFunc, level), Node(RightFunc, level), Node(CombineFunc, level)], b)
  {
    CompileSplit(frozen, level);
    ChildLen(level);
  }
}
