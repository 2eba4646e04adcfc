/**
  `PolarEmitter`: the same recursive classification as the compiler, on a
  mask with one byte per position, printed as straight-line decoder code.
  Each printed line is one instruction here. The `assert(level > 0)` at the
  top of `compile` stops the program: the output then ends where it was cut
  off and the emission is marked aborted.
*/
module Emitter {
  import opened Common
  import Encoder

  /** One printed line. `MsgAdd`, `HrdAdd` and `HrdSub` move the `msg` and `hrd` pointers. */
  datatype Instr =
    | Rate0(level: nat) | Rate1(level: nat) | Rep(level: nat) | Spc(level: nat)
    | Left(level: nat) | Right(level: nat) | Comb(level: nat)
    | MsgAdd(n: nat) | HrdAdd(n: nat) | HrdSub(n: nat)

  /** The printed lines, and whether the level assertion stopped the program. */
  datatype Emission = Emission(out: seq<Instr>, aborted: bool)

  /** `frozen_count`: the plain sum of the mask bytes of the block. */
  function ByteSum(f: seq<Byte>): nat
  {
    if |f| == 0 then 0 else f[0] + ByteSum(f[1..])
  }

  /** Every mask byte is 0 (free) or 1 (frozen). */
  predicate Binary(f: seq<Byte>)
  {
    forall i :: 0 <= i < |f| ==> f[i] <= 1
  }

  /** Which case `compile` takes for a block, before any recursion. */
  datatype Case = Abort | AllFrozen | NoneFrozen | LastFree | FirstFrozen | Split

  function Classify(frozen: seq<Byte>, level: nat): Case
    requires level <= 30 && |frozen| >= Pow2(level)
  {
    if level == 0 then Abort
    else
      var n := Pow2(level);
      var count := ByteSum(frozen[..n]);
      if count == n then AllFrozen
      else if count == 0 then NoneFrozen
      else if count == n - 1 && frozen[n - 1] == 0 then LastFree
      else if count == 1 && frozen[0] != 0 then FirstFrozen
      else Split
  }

  /**
    `compile(frozen, level)`: `rate0` when the byte sum is the block size,
    `rate1` when it is zero, `rep` when one position is free and it is the
    last, `spc` when the sum is one and position 0 is frozen, otherwise
    `left`, the left half, `right` with `hrd` moved to the right half, the
    right half, `hrd` moved back, `comb`.
  */
  function Emit(frozen: seq<Byte>, level: nat): (e: Emission)
    requires level <= 30 && |frozen| >= Pow2(level)
    ensures !e.aborted ==> |e.out| >= 1
    decreases level
  {
    match Classify(frozen, level)
    case Abort => Emission([], true)
    case AllFrozen => Emission([Rate0(level)], false)
    case NoneFrozen => Emission([Rate1(level), MsgAdd(Pow2(level))], false)
    case LastFree => Emission([Rep(level), MsgAdd(1)], false)
    case FirstFrozen => Emission([Spc(level), MsgAdd(Pow2(level) - 1)], false)
    case Split =>
      var h := Pow2(level - 1);
      var l := Emit(frozen, level - 1);
      if l.aborted then Emission([Left(level)] + l.out, true)
      else
        var r := Emit(frozen[h..], level - 1);
        Emission([Left(level)] + l.out + [Right(level), HrdAdd(h)] + r.out
                 + (if r.aborted then [] else [HrdSub(h), Comb(level)]), r.aborted)
  }

  /** The first printed line names the case. */
  lemma EmitFirst(frozen: seq<Byte>, level: nat)
    requires level <= 30 && |frozen| >= Pow2(level)
    ensures Classify(frozen, level) == Abort ==> Emit(frozen, level) == Emission([], true)
    ensures Classify(frozen, level) == AllFrozen ==> Emit(frozen, level) == Emission([Rate0(level)], false)
    ensures Classify(frozen, level) == NoneFrozen ==> Emit(frozen, level) == Emission([Rate1(level), MsgAdd(Pow2(level))], false)
    ensures Classify(frozen, level) == LastFree ==> Emit(frozen, level) == Emission([Rep(level), MsgAdd(1)], false)
    ensures Classify(frozen, level) == FirstFrozen ==> Emit(frozen, level) == Emission([Spc(level), MsgAdd(Pow2(level) - 1)], false)
    ensures Classify(frozen, level) == Split ==> |Emit(frozen, level).out| >= 1 && Emit(frozen, level).out[0] == Left(level)
  {
  }

  // Counting.

  lemma {:induction false} ByteSumBinary(f: seq<Byte>)
    requires Binary(f)
    ensures ByteSum(f) + Encoder.FreeCount(f) == |f|
    decreases |f|
  {
    if |f| > 0 {
      ByteSumBinary(f[1..]);
    }
  }

  lemma {:induction false} ByteSumAppend(a: seq<Byte>, b: seq<Byte>)
    ensures ByteSum(a + b) == ByteSum(a) + ByteSum(b)
    decreases |a|
  {
    if |a| > 0 {
      assert (a + b)[1..] == a[1..] + b;
      ByteSumAppend(a[1..], b);
    } else {
      assert a + b == b;
    }
  }

  /** A zero byte sum means every position is free, whatever the bytes. */
  lemma {:induction false} ByteSumZero(f: seq<Byte>)
    requires ByteSum(f) == 0
    ensures Encoder.FreeCount(f) == |f|
    decreases |f|
  {
    if |f| > 0 {
      ByteSumZero(f[1..]);
    }
  }

  /** The free positions of a block of `2^level` positions, as the halves see them. */
  lemma Halves(f: seq<Byte>, level: nat)
    requires level >= 1 && |f| >= Pow2(level)
    ensures var n, h := Pow2(level), Pow2(level - 1);
      n == 2 * h && f[..n] == f[..h] + f[h..][..h]
  {
  }

  /**
    The classification on a mask of 0/1 bytes: all frozen gives `rate0`,
    none frozen `rate1`, only the last free `rep`, only the first frozen
    (from level 2 on, where this differs from `rep`) `spc`.
  */
  lemma ClassifyBinary(frozen: seq<Byte>, level: nat)
    requires 1 <= level <= 30 && |frozen| >= Pow2(level) && Binary(frozen[..Pow2(level)])
    ensures var b := frozen[..Pow2(level)];
      var k := Encoder.FreeCount(b);
      (Classify(frozen, level) == AllFrozen <==> k == 0) &&
      (Classify(frozen, level) == NoneFrozen <==> k == |b|) &&
      (Classify(frozen, level) == LastFree <==> k == 1 && b[|b| - 1] == 0) &&
      (Classify(frozen, level) == FirstFrozen <==> level >= 2 && k == |b| - 1 && b[0] != 0)
  {
    var n := Pow2(level);
    var b := frozen[..n];
    ByteSumBinary(b);
    Pow2Monotone(1, level);
    if level == 1 {
      assert b == [b[0], b[1]];
      assert b[1..][1..] == [];
    } else {
      Pow2Monotone(2, level);
    }
  }

  /**
    What is printed first for a block of a 0/1 mask, read off the mask:
    level 0 aborts with nothing printed; no free position prints `rate0`;
    only free positions print `rate1` and move `msg` by the block size;
    one free position, the last, prints `rep` and moves `msg` by one; one
    frozen position, the first, from level 2 on, prints `spc` and moves
    `msg` past the free ones; any other block starts with `left`.
  */
  lemma EmitByMask(frozen: seq<Byte>, level: nat)
    requires level <= 30 && |frozen| >= Pow2(level) && Binary(frozen[..Pow2(level)])
    ensures level == 0 ==> Emit(frozen, level) == Emission([], true)
    ensures level >= 1 ==>
      var b := frozen[..Pow2(level)];
      var k := Encoder.FreeCount(b);
      var e := Emit(frozen, level);
      (k == 0 ==> e == Emission([Rate0(level)], false)) &&
      (k == |b| ==> e == Emission([Rate1(level), MsgAdd(Pow2(level))], false)) &&
      (k == 1 && b[|b| - 1] == 0 ==> e == Emission([Rep(level), MsgAdd(1)], false)) &&
      (level >= 2 && k == |b| - 1 && b[0] != 0 ==> e == Emission([Spc(level), MsgAdd(Pow2(level) - 1)], false)) &&
      (0 < k < |b| && !(k == 1 && b[|b| - 1] == 0) && !(level >= 2 && k == |b| - 1 && b[0] != 0) ==>
         |e.out| >= 1 && e.out[0] == Left(level))
  {
    if level >= 1 {
      ClassifyBinary(frozen, level);
      EmitFirst(frozen, level);
    }
  }

  /** How far one instruction moves `msg`. */
  function MsgOf(i: Instr): nat
  {
    if i.MsgAdd? then i.n else 0
  }

  /** How far one instruction moves `hrd`. */
  function HrdOf(i: Instr): int
  {
    if i.HrdAdd? then i.n else if i.HrdSub? then -(i.n as int) else 0
  }

  /** Sum of the `msg` advances. */
  function MsgTotal(out: seq<Instr>): nat
  {
    if |out| == 0 then 0 else MsgOf(out[0]) + MsgTotal(out[1..])
  }

  /** Net movement of `hrd`. */
  function HrdNet(out: seq<Instr>): int
  {
    if |out| == 0 then 0 else HrdOf(out[0]) + HrdNet(out[1..])
  }

  lemma {:induction false} TotalsAppend(a: seq<Instr>, b: seq<Instr>)
    ensures MsgTotal(a + b) == MsgTotal(a) + MsgTotal(b)
    ensures HrdNet(a + b) == HrdNet(a) + HrdNet(b)
    decreases |a|
  {
    if |a| > 0 {
      assert (a + b)[1..] == a[1..] + b;
      TotalsAppend(a[1..], b);
    } else {
      assert a + b == b;
    }
  }

  lemma TotalsOfTwo(x: Instr, y: Instr)
    ensures MsgTotal([x, y]) == MsgOf(x) + MsgOf(y)
    ensures HrdNet([x, y]) == HrdOf(x) + HrdOf(y)
  {
    assert [x, y][1..] == [y];
    assert [y][1..] == [];
    assert MsgTotal([]) == 0 && HrdNet([]) == 0;
    assert MsgTotal([y]) == MsgOf(y) + MsgTotal([]);
    assert HrdNet([y]) == HrdOf(y) + HrdNet([]);
  }

  /** The split output, in its three pieces. */
  lemma SplitTotals(level: nat, h: nat, lo: seq<Instr>, ro: seq<Instr>)
    ensures var out := [Left(level)] + lo + [Right(level), HrdAdd(h)] + ro + [HrdSub(h), Comb(level)];
      MsgTotal(out) == MsgTotal(lo) + MsgTotal(ro) && HrdNet(out) == HrdNet(lo) + HrdNet(ro)
  {
    var p1 := [Left(level)] + lo;
    var p2 := p1 + [Right(level), HrdAdd(h)];
    var p3 := p2 + ro;
    TotalsAppend([Left(level)], lo);
    TotalsAppend(p1, [Right(level), HrdAdd(h)]);
    TotalsAppend(p2, ro);
    TotalsAppend(p3, [HrdSub(h), Comb(level)]);
    TotalsOfTwo(Right(level), HrdAdd(h));
    TotalsOfTwo(HrdSub(h), Comb(level));
  }

  /**
    A complete emission reads exactly the free positions of the block from
    the message, and every `hrd +=` is undone by its `hrd -=`. The count of
    message entries needs a 0/1 mask; the `hrd` balance holds for any mask.
  */
  lemma {:induction false} EmitTotals(frozen: seq<Byte>, level: nat)
    requires level <= 30 && |frozen| >= Pow2(level)
    ensures !Emit(frozen, level).aborted ==> HrdNet(Emit(frozen, level).out) == 0
    ensures !Emit(frozen, level).aborted && Binary(frozen[..Pow2(level)]) ==>
      MsgTotal(Emit(frozen, level).out) == Encoder.FreeCount(frozen[..Pow2(level)])
    decreases level
  {
    if Classify(frozen, level) == Split {
      var h := Pow2(level - 1);
      Halves(frozen, level);
      EmitTotals(frozen, level - 1);
      EmitTotals(frozen[h..], level - 1);
      SplitCaseTotals(frozen, level);
    } else {
      CaseTotals(frozen, level);
    }
  }

  /** The totals of a block that is not split. */
  lemma CaseTotals(frozen: seq<Byte>, level: nat)
    requires level <= 30 && |frozen| >= Pow2(level) && Classify(frozen, level) != Split
    ensures !Emit(frozen, level).aborted ==> HrdNet(Emit(frozen, level).out) == 0
    ensures !Emit(frozen, level).aborted && Binary(frozen[..Pow2(level)]) ==>
      MsgTotal(Emit(frozen, level).out) == Encoder.FreeCount(frozen[..Pow2(level)])
  {
    var b := frozen[..Pow2(level)];
    EmitFirst(frozen, level);
    if Binary(b) {
      ByteSumBinary(b);
    }
    match Classify(frozen, level)
    case Abort =>
    case AllFrozen =>
    case NoneFrozen =>
      ByteSumZero(b);
      TotalsOfTwo(Rate1(level), MsgAdd(Pow2(level)));
    case LastFree =>
      TotalsOfTwo(Rep(level), MsgAdd(1));
    case FirstFrozen =>
      TotalsOfTwo(Spc(level), MsgAdd(Pow2(level) - 1));
  }

  /** The totals of a split block, from those of its halves. */
  lemma SplitCaseTotals(frozen: seq<Byte>, level: nat)
    requires 1 <= level <= 30 && |frozen| >= Pow2(level) && Classify(frozen, level) == Split
    requires Pow2(level - 1) <= |frozen| && |frozen[Pow2(level - 1)..]| >= Pow2(level - 1)
    requires var h := Pow2(level - 1);
      !Emit(frozen, level - 1).aborted ==> HrdNet(Emit(frozen, level - 1).out) == 0
    requires var h := Pow2(level - 1);
      !Emit(frozen[h..], level - 1).aborted ==> HrdNet(Emit(frozen[h..], level - 1).out) == 0
    requires var h := Pow2(level - 1);
      !Emit(frozen, level - 1).aborted && Binary(frozen[..h]) ==>
        MsgTotal(Emit(frozen, level - 1).out) == Encoder.FreeCount(frozen[..h])
    requires var h := Pow2(level - 1);
      !Emit(frozen[h..], level - 1).aborted && Binary(frozen[h..][..h]) ==>
        MsgTotal(Emit(frozen[h..], level - 1).out) == Encoder.FreeCount(frozen[h..][..h])
    ensures !Emit(frozen, level).aborted ==> HrdNet(Emit(frozen, level).out) == 0
    ensures !Emit(frozen, level).aborted && Binary(frozen[..Pow2(level)]) ==>
      MsgTotal(Emit(frozen, level).out) == Encoder.FreeCount(frozen[..Pow2(level)])
  {
    if !Emit(frozen, level).aborted {
      var n, h := Pow2(level), Pow2(level - 1);
      var e, l, r := Emit(frozen, level), Emit(frozen, level - 1), Emit(frozen[h..], level - 1);
      SplitUnfold(frozen, level);
      CompleteShape(e, l, r, level, h);
      SplitTotals(level, h, l.out, r.out);
      if Binary(frozen[..n]) {
        var lo, hi := frozen[..h], frozen[h..][..h];
        Halves(frozen, level);
        BinaryAppend(lo, hi);
        Encoder.FreeCountAppend(lo, hi);
        assert MsgTotal(e.out) == Encoder.FreeCount(lo) + Encoder.FreeCount(hi);
      }
    }
  }

  lemma BinaryAppend(a: seq<Byte>, b: seq<Byte>)
    requires Binary(a + b)
    ensures Binary(a) && Binary(b)
  {
    assert forall i :: 0 <= i < |a| ==> a[i] == (a + b)[i];
    assert forall i :: 0 <= i < |b| ==> b[i] == (a + b)[|a| + i];
  }

  /** The split case of `Emit`, one level down. */
  lemma SplitUnfold(frozen: seq<Byte>, level: nat)
    requires 1 <= level <= 30 && |frozen| >= Pow2(level) && Classify(frozen, level) == Split
    ensures Pow2(level - 1) <= |frozen| && |frozen[Pow2(level - 1)..]| >= Pow2(level - 1)
    ensures var h := Pow2(level - 1);
      var l := Emit(frozen, level - 1);
      var r := Emit(frozen[h..], level - 1);
      Emit(frozen, level) ==
        if l.aborted then Emission([Left(level)] + l.out, true)
        else Emission([Left(level)] + l.out + [Right(level), HrdAdd(h)] + r.out
               + (if r.aborted then [] else [HrdSub(h), Comb(level)]), r.aborted)
  {
  }

  /** Reading off a completed split. */
  lemma CompleteShape(e: Emission, l: Emission, r: Emission, level: nat, h: nat)
    requires e == if l.aborted then Emission([Left(level)] + l.out, true)
      else Emission([Left(level)] + l.out + [Right(level), HrdAdd(h)] + r.out
             + (if r.aborted then [] else [HrdSub(h), Comb(level)]), r.aborted)
    requires !e.aborted
    ensures !l.aborted && !r.aborted
    ensures e.out == [Left(level)] + l.out + [Right(level), HrdAdd(h)] + r.out + [HrdSub(h), Comb(level)]
  {
  }

  // When the level assertion fires.

  /** Some aligned pair `(2j, 2j+1)` is free then frozen. */
  predicate HasBadPair(f: seq<Byte>)
  {
    |f| >= 2 && ((f[0] == 0 && f[1] != 0) || HasBadPair(f[2..]))
  }

  lemma {:induction false} BadPairAppend(a: seq<Byte>, b: seq<Byte>)
    requires Tiled(|a|, 2)
    ensures HasBadPair(a + b) <==> HasBadPair(a) || HasBadPair(b)
    decreases |a|
  {
    if |a| > 0 {
      assert (a + b)[2..] == a[2..] + b;
      BadPairAppend(a[2..], b);
    } else {
      assert a + b == b;
    }
  }

  /** The free position of a bad pair is never the last, and its frozen one never the first. */
  lemma {:induction false} BadPairPositions(f: seq<Byte>)
    requires HasBadPair(f) && Tiled(|f|, 2)
    ensures Encoder.FreeCount(f[..|f| - 1]) >= 1
    ensures Encoder.FreeCount(f[1..]) < |f| - 1
    decreases |f|
  {
    Encoder.FreeCountStep(f, 1);
    if !(f[0] == 0 && f[1] != 0) {
      BadPairPositions(f[2..]);
      assert f[..|f| - 1] == f[..2] + f[2..][..|f[2..]| - 1];
      Encoder.FreeCountAppend(f[..2], f[2..][..|f[2..]| - 1]);
      assert f[1..] == [f[1]] + f[2..];
      Encoder.FreeCountAppend([f[1]], f[2..]);
    } else {
      assert f[..|f| - 1] == [f[0]] + f[1..|f| - 1];
      Encoder.FreeCountAppend([f[0]], f[1..|f| - 1]);
      assert f[1..] == [f[1]] + f[2..];
      Encoder.FreeCountAppend([f[1]], f[2..]);
    }
  }

  /** With no frozen, or with no free, position there is no bad pair. */
  lemma {:induction false} NoBadPairUniform(f: seq<Byte>)
    requires Encoder.FreeCount(f) == 0 || Encoder.FreeCount(f) == |f|
    ensures !HasBadPair(f)
    decreases |f|
  {
    if |f| >= 2 {
      NoBadPairUniform(f[2..]);
      assert f == [f[0], f[1]] + f[2..];
      Encoder.FreeCountAppend([f[0], f[1]], f[2..]);
      assert [f[0], f[1]][1..] == [f[1]];
    }
  }

  /**
    `assert(level > 0)` fires exactly when the top level is 0 or, on a 0/1
    mask, some aligned pair is free then frozen: such a pair ends up alone
    in a split at level 1, and no other block of two does.
  */
  lemma {:induction false} EmitAborts(frozen: seq<Byte>, level: nat)
    requires level <= 30 && |frozen| >= Pow2(level) && Binary(frozen[..Pow2(level)])
    ensures Emit(frozen, level).aborted <==> level == 0 || HasBadPair(frozen[..Pow2(level)])
    decreases level
  {
    if level > 0 {
      var n := Pow2(level);
      var b := frozen[..n];
      Pow2Tiled(level, 1);
      EmitFirst(frozen, level);
      ClassifyBinary(frozen, level);
      match Classify(frozen, level)
      case AllFrozen => NoBadPairUniform(b);
      case NoneFrozen => NoBadPairUniform(b);
      case LastFree =>
        if HasBadPair(b) {
          BadPairPositions(b);
          Encoder.FreeCountStep(b, |b| - 1);
        }
      case FirstFrozen =>
        if HasBadPair(b) {
          BadPairPositions(b);
        }
      case Split => SplitAborts(frozen, level);
    }
  }

  lemma {:induction false} SplitAborts(frozen: seq<Byte>, level: nat)
    requires 1 <= level <= 30 && |frozen| >= Pow2(level) && Binary(frozen[..Pow2(level)])
    requires Classify(frozen, level) == Split
    ensures Emit(frozen, level).aborted <==> HasBadPair(frozen[..Pow2(level)])
    decreases level, 0
  {
    var n, h := Pow2(level), Pow2(level - 1);
    Halves(frozen, level);
    SplitAbortsIff(frozen, level);
    if level == 1 {
      PairSplit(frozen);
    } else {
      var b := frozen[..n];
      Pow2Tiled(level - 1, 1);
      BadPairAppend(frozen[..h], frozen[h..][..h]);
      EmitAborts(frozen, level - 1);
      EmitAborts(frozen[h..], level - 1);
    }
  }

  /** A split aborts exactly when one of its halves does. */
  lemma SplitAbortsIff(frozen: seq<Byte>, level: nat)
    requires 1 <= level <= 30 && |frozen| >= Pow2(level) && Classify(frozen, level) == Split
    ensures Pow2(level - 1) <= |frozen| && |frozen[Pow2(level - 1)..]| >= Pow2(level - 1)
    ensures Emit(frozen, level).aborted <==>
      Emit(frozen, level - 1).aborted || Emit(frozen[Pow2(level - 1)..], level - 1).aborted
  {
  }

  /** A block of two positions is split only when it is the pair free-frozen. */
  lemma PairSplit(frozen: seq<Byte>)
    requires |frozen| >= 2 && Binary(frozen[..2]) && Classify(frozen, 1) == Split
    ensures HasBadPair(frozen[..2])
  {
    var b := frozen[..2];
    ClassifyBinary(frozen, 1);
    assert b == [b[0], b[1]];
    assert b[1..][1..] == [];
  }
}
