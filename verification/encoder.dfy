/**
  `PolarEncoder` and `PolarSysEnc`: the non-systematic and the systematic
  encoder over `int8_t` hard values. The frozen mask here has one byte per
  codeword position; any non-zero byte marks the position frozen.
*/
module Encoder {
  import opened Common
  import opened Quant
  import opened Butterfly

  /** `frozen[i] ? ... : ...`: any non-zero mask byte freezes its position. */
  predicate Frozen(b: Byte) { b != 0 }

  /** The number of free (information) positions of a mask. */
  function FreeCount(f: seq<Byte>): (k: nat)
    ensures k <= |f|
  {
    if |f| == 0 then 0 else (if Frozen(f[0]) then 0 else 1) + FreeCount(f[1..])
  }

  /** The input of the transform: frozen positions hold +1, free ones the message in order. */
  function Fill(f: seq<Byte>, msg: seq<Int8>): (u: seq<Int8>)
    requires FreeCount(f) <= |msg|
    ensures |u| == |f|
  {
    if |f| == 0 then []
    else if Frozen(f[0]) then [1] + Fill(f[1..], msg)
    else [msg[0]] + Fill(f[1..], msg[1..])
  }

  /** The entries at the free positions, in order. */
  function Extract(f: seq<Byte>, c: seq<Int8>): (r: seq<Int8>)
    requires |c| == |f|
    ensures |r| == FreeCount(f)
  {
    if |f| == 0 then []
    else (if Frozen(f[0]) then [] else [c[0]]) + Extract(f[1..], c[1..])
  }

  /** Overwrite the frozen positions with +1 and keep the rest. */
  function Refreeze(f: seq<Byte>, c: seq<Int8>): (r: seq<Int8>)
    requires |c| == |f|
    ensures |r| == |c|
  {
    seq(|c|, i requires 0 <= i < |c| => if Frozen(f[i]) then 1 else c[i])
  }

  /** Every position free in `fa` is free in `fb`. */
  predicate FreeWithin(fa: seq<Byte>, fb: seq<Byte>)
    requires |fa| == |fb|
  {
    forall i :: 0 <= i < |fa| ==> !Frozen(fa[i]) ==> !Frozen(fb[i])
  }

  /**
    The free set is closed upwards in the recursive half order: at every level,
    a free position of the left half is also free at the same offset of the
    right half. Masks built from Bhattacharyya parameters have this shape,
    since the right child of every split is the more reliable one.
  */
  predicate UpClosed(f: seq<Byte>, m: nat)
    requires |f| == Pow2(m)
  {
    m == 0 ||
    (var h := Pow2(m - 1);
     FreeWithin(f[..h], f[h..]) && UpClosed(f[..h], m - 1) && UpClosed(f[h..], m - 1))
  }

  lemma {:induction false} FreeCountAppend(a: seq<Byte>, b: seq<Byte>)
    ensures FreeCount(a + b) == FreeCount(a) + FreeCount(b)
    decreases |a|
  {
    if |a| > 0 {
      FreeCountAppend(a[1..], b);
      assert (a + b)[1..] == a[1..] + b;
    } else {
      assert a + b == b;
    }
  }

  lemma FreeCountStep(f: seq<Byte>, i: nat)
    requires i < |f|
    ensures FreeCount(f[..i + 1]) == FreeCount(f[..i]) + (if Frozen(f[i]) then 0 else 1)
    ensures FreeCount(f[..i + 1]) <= FreeCount(f)
  {
    var g := f[..i + 1];
    FreeCountSplit(g, i);
    assert g[..i] == f[..i];
    FreeCountOne(g[i..]);
    assert g[i..][0] == f[i];
    FreeCountSplit(f, i + 1);
  }

  /** Splitting a mask anywhere splits its free count. */
  lemma FreeCountSplit(f: seq<Byte>, k: nat)
    requires k <= |f|
    ensures FreeCount(f) == FreeCount(f[..k]) + FreeCount(f[k..])
  {
    assert f == f[..k] + f[k..];
    FreeCountAppend(f[..k], f[k..]);
  }

  lemma FreeCountOne(f: seq<Byte>)
    requires |f| == 1
    ensures FreeCount(f) == if Frozen(f[0]) then 0 else 1
  {
    assert f[1..] == [];
  }

  /**
    `PolarEncoder` fills frozen positions with +1 and free positions with the
    message entries in order: the free position `i` takes the entry numbered
    by the count of free positions before it.
  */
  lemma {:induction false} FillAt(f: seq<Byte>, msg: seq<Int8>, i: nat)
    requires FreeCount(f) <= |msg| && i < |f|
    ensures FreeCount(f[..i]) < |msg| || Frozen(f[i])
    ensures Fill(f, msg)[i] == if Frozen(f[i]) then 1 else msg[FreeCount(f[..i])]
    decreases i
  {
    FreeCountStep(f, i);
    if i > 0 {
      var rest := if Frozen(f[0]) then msg else msg[1..];
      FillAt(f[1..], rest, i - 1);
      assert f[1..][..i - 1] == f[1..i];
      assert f[..i] == [f[0]] + f[1..i];
      FreeCountAppend([f[0]], f[1..i]);
    }
  }

  lemma {:induction false} ExtractFill(f: seq<Byte>, msg: seq<Int8>)
    requires FreeCount(f) <= |msg|
    ensures Extract(f, Fill(f, msg)) == msg[..FreeCount(f)]
    decreases |f|
  {
    if |f| > 0 {
      var u := Fill(f, msg);
      assert u[1..] == Fill(f[1..], if Frozen(f[0]) then msg else msg[1..]);
      if Frozen(f[0]) {
        ExtractFill(f[1..], msg);
      } else {
        ExtractFill(f[1..], msg[1..]);
        var k := FreeCount(f[1..]);
        assert FreeCount(f) == 1 + k;
        assert msg[..1 + k] == [msg[0]] + msg[1..][..k];
      }
    }
  }

  lemma {:induction false} ExtractRefreeze(f: seq<Byte>, c: seq<Int8>)
    requires |c| == |f|
    ensures Extract(f, Refreeze(f, c)) == Extract(f, c)
    decreases |f|
  {
    if |f| > 0 {
      assert Refreeze(f, c)[1..] == Refreeze(f[1..], c[1..]);
      ExtractRefreeze(f[1..], c[1..]);
    }
  }

  lemma {:induction false} FillHard(f: seq<Byte>, msg: seq<Int8>)
    requires FreeCount(f) <= |msg| && AllHard(msg)
    ensures AllHard(Fill(f, msg))
    decreases |f|
  {
    if |f| > 0 {
      FillHard(f[1..], if Frozen(f[0]) then msg else msg[1..]);
    }
  }

  lemma RefreezeHard(f: seq<Byte>, c: seq<Int8>)
    requires |c| == |f| && AllHard(c)
    ensures AllHard(Refreeze(f, c))
  {
  }

  lemma {:induction false} FillAllFrozen(f: seq<Byte>, msg: seq<Int8>)
    requires FreeCount(f) == 0
    ensures Fill(f, msg) == Ones(|f|)
    decreases |f|
  {
    if |f| > 0 {
      FillAllFrozen(f[1..], msg);
      assert Ones(|f|) == [1] + Ones(|f| - 1);
    }
  }

  lemma {:induction false} FillNoneFrozen(f: seq<Byte>, msg: seq<Int8>)
    requires FreeCount(f) == |f| && |f| <= |msg|
    ensures Fill(f, msg) == msg[..|f|]
    decreases |f|
  {
    if |f| > 0 {
      FillNoneFrozen(f[1..], msg[1..]);
      assert msg[..|f|] == [msg[0]] + msg[1..][..|f| - 1];
    }
  }

  // Refreeze distributes over halves and over element-wise products.

  lemma RefreezeHalves(f: seq<Byte>, c: seq<Int8>, h: nat)
    requires |c| == |f| && h <= |f|
    ensures Refreeze(f, c) == Refreeze(f[..h], c[..h]) + Refreeze(f[h..], c[h..])
  {
  }

  lemma RefreezeMul(f: seq<Byte>, x: seq<Int8>, y: seq<Int8>)
    requires |x| == |f| && |y| == |f|
    ensures Refreeze(f, MulSeq(x, y)) == MulSeq(Refreeze(f, x), Refreeze(f, y))
  {
    forall i | 0 <= i < |f|
      ensures Refreeze(f, MulSeq(x, y))[i] == MulSeq(Refreeze(f, x), Refreeze(f, y))[i]
    {
      if Frozen(f[i]) {
        assert Qmul(1, 1) == 1;
      }
    }
  }

  /** Freezing the output of one butterfly layer, half by half. */
  lemma RefreezeCombined(f: seq<Byte>, a: seq<Int8>, b: seq<Int8>)
    requires |a| == |b| && |f| == 2 * |a|
    ensures Refreeze(f, MulSeq(a, b) + b)
      == MulSeq(Refreeze(f[..|a|], a), Refreeze(f[..|a|], b)) + Refreeze(f[|a|..], b)
  {
    var h := |a|;
    RefreezeHalves(f, MulSeq(a, b) + b, h);
    assert (MulSeq(a, b) + b)[..h] == MulSeq(a, b);
    assert (MulSeq(a, b) + b)[h..] == b;
    RefreezeMul(f[..h], a, b);
  }

  /** The top layer of the transform on hard values, written with `MulSeq`. */
  lemma PolarSplit(x: seq<Int8>, m: nat)
    requires m > 0 && |x| == Pow2(m)
    ensures Polar(Qmul, x, m)
      == MulSeq(Polar(Qmul, x[..Pow2(m - 1)], m - 1), Polar(Qmul, x[Pow2(m - 1)..], m - 1))
         + Polar(Qmul, x[Pow2(m - 1)..], m - 1)
  {
  }

  lemma MulSeqCancel(a: seq<Int8>, b: seq<Int8>)
    requires |a| == |b| && AllHard(a) && AllHard(b)
    ensures MulSeq(MulSeq(a, b), b) == a
  {
    forall i | 0 <= i < |a|
      ensures MulSeq(MulSeq(a, b), b)[i] == a[i]
    {
      QmulHardGroup(a[i], b[i], b[i]);
    }
  }

  /** The left half of the round trip: the two copies of the right half cancel. */
  lemma RefreezeCancel(f: seq<Byte>, qa: seq<Int8>, qb: seq<Int8>, q2: seq<Int8>, ra: seq<Int8>, rb: seq<Int8>)
    requires |f| == |qa| == |qb| == |q2|
    requires Refreeze(f, qa) == ra && Refreeze(f, qb) == rb && Refreeze(f, q2) == rb
    requires AllHard(ra) && AllHard(rb)
    ensures Refreeze(f, MulSeq(MulSeq(qa, qb), q2)) == ra
  {
    RefreezeMul(f, MulSeq(qa, qb), q2);
    RefreezeMul(f, qa, qb);
    MulSeqCancel(ra, rb);
  }

  /**
    The systematic encoder's reference: transform, overwrite the frozen
    positions with +1, transform again.
  */
  function Reencode(f: seq<Byte>, x: seq<Int8>, m: nat): (y: seq<Int8>)
    requires |x| == Pow2(m) && |f| == |x|
    ensures |y| == |x|
  {
    Polar(Qmul, Refreeze(f, Polar(Qmul, x, m)), m)
  }

  /** `Reencode` splits along the top layer like the transform itself. */
  lemma ReencodeSplit(f: seq<Byte>, x: seq<Int8>, m: nat)
    requires m > 0 && |x| == Pow2(m) && |f| == |x| && AllHard(x)
    ensures var h := Pow2(m - 1);
      Reencode(f, x, m)
        == MulSeq(MulSeq(Reencode(f[..h], x[..h], m - 1), Reencode(f[..h], x[h..], m - 1)),
                  Reencode(f[h..], x[h..], m - 1))
           + Reencode(f[h..], x[h..], m - 1)
  {
    var h := Pow2(m - 1);
    var a, b := x[..h], x[h..];
    PolarHard(a, m - 1);
    PolarHard(b, m - 1);
    var pa, pb := Polar(Qmul, a, m - 1), Polar(Qmul, b, m - 1);
    PolarSplit(x, m);
    var r1a, r1b, r2b := Refreeze(f[..h], pa), Refreeze(f[..h], pb), Refreeze(f[h..], pb);
    var z := Refreeze(f, Polar(Qmul, x, m));
    RefreezeCombined(f, pa, pb);
    assert z == MulSeq(r1a, r1b) + r2b;
    RefreezeHard(f[..h], pa);
    RefreezeHard(f[..h], pb);
    PolarSplit(z, m);
    assert z[..h] == MulSeq(r1a, r1b) && z[h..] == r2b;
    PolarMul(r1a, r1b, m - 1);
  }

  /**
    The round trip behind systematic encoding. For `fa` up-closed and free
    within `fb`, transforming, freezing by `fb` and transforming again gives
    back every free position of `fa`.
  */
  lemma {:induction false} FreezeRoundTrip(fa: seq<Byte>, fb: seq<Byte>, x: seq<Int8>, m: nat)
    requires |x| == Pow2(m) && |fa| == |x| && |fb| == |x|
    requires AllHard(x) && UpClosed(fa, m) && FreeWithin(fa, fb)
    ensures Refreeze(fa, Reencode(fb, x, m)) == Refreeze(fa, x)
  {
    if m > 0 {
      var h := Pow2(m - 1);
      var a, b := x[..h], x[h..];
      var fa1, fa2, fb1, fb2 := fa[..h], fa[h..], fb[..h], fb[h..];
      var qa, qb, q2 := Reencode(fb1, a, m - 1), Reencode(fb1, b, m - 1), Reencode(fb2, b, m - 1);
      ReencodeSplit(fb, x, m);
      assert FreeWithin(fa1, fb2) by {
        assert FreeWithin(fa1, fa2) && FreeWithin(fa2, fb2);
      }
      FreezeRoundTrip(fa1, fb1, a, m - 1);
      FreezeRoundTrip(fa1, fb1, b, m - 1);
      FreezeRoundTrip(fa1, fb2, b, m - 1);
      FreezeRoundTrip(fa2, fb2, b, m - 1);
      RefreezeHalves(fa, MulSeq(MulSeq(qa, qb), q2) + q2, h);
      assert (MulSeq(MulSeq(qa, qb), q2) + q2)[..h] == MulSeq(MulSeq(qa, qb), q2);
      assert (MulSeq(MulSeq(qa, qb), q2) + q2)[h..] == q2;
      RefreezeHard(fa1, a);
      RefreezeHard(fa1, b);
      RefreezeCancel(fa1, qa, qb, q2, Refreeze(fa1, a), Refreeze(fa1, b));
      RefreezeHalves(fa, x, h);
    }
  }

  /**
    `frozen[i] ? 1 : *message++`: the next transform input, with `used`
    counting the message entries read so far.
  */
  method ReadEntry(frozen: seq<Byte>, message: seq<Int8>, i: nat, used: nat) returns (v: Int8, used': nat)
    requires FreeCount(frozen) <= |message| && i < |frozen|
    requires used == FreeCount(frozen[..i])
    ensures v == Fill(frozen, message)[i]
    ensures used' == FreeCount(frozen[..i + 1])
  {
    FreeCountStep(frozen, i);
    FillAt(frozen, message, i);
    if Frozen(frozen[i]) {
      v, used' := 1, used;
    } else {
      v, used' := message[used], used + 1;
    }
  }

  /**
    `PolarEncoder`: the pair loop reads the message in order into the free
    positions and +1 into the frozen ones, then the stages finish the
    transform. `used` is how far the message pointer advanced.
  */
  method PolarEncode(frozen: seq<Byte>, message: seq<Int8>, ghost m: nat) returns (codeword: seq<Int8>, used: nat)
    requires m >= 1 && |frozen| == Pow2(m) && FreeCount(frozen) <= |message|
    ensures codeword == Polar(Qmul, Fill(frozen, message), m)
    ensures used == FreeCount(frozen)
  {
    ghost var u := Fill(frozen, message);
    var n := |frozen|;
    Pow2Tiled(m, 1);
    var pairs: seq<Int8> := [];
    var i := 0;
    used := 0;
    while i < n
      invariant 0 <= i <= n && Tiled(i, 2)
      invariant used == FreeCount(frozen[..i])
      invariant pairs == Stage(Qmul, u[..i], 1)
    {
      TiledNext(i, n, 2);
      var msg0, msg1;
      msg0, used := ReadEntry(frozen, message, i, used);
      msg1, used := ReadEntry(frozen, message, i + 1, used);
      PairAppend(Qmul, u, i);
      pairs := pairs + [Qmul(msg0, msg1), msg1];
      i := i + 2;
    }
    assert u[..n] == u && frozen[..n] == frozen;
    PairStage(Qmul, u);
    codeword := Stages(Qmul, pairs, u, m);
  }

  /**
    `PolarSysEnc`: the non-systematic encoder, then a second pair loop that
    overwrites the frozen positions of the codeword with +1, then the stages
    again. On an up-closed mask the message reappears at the free positions
    of the codeword, which is the test bench's check after systematic
    encoding.
  */
  method SysEncode(frozen: seq<Byte>, message: seq<Int8>, ghost m: nat) returns (codeword: seq<Int8>, used: nat)
    requires m >= 1 && |frozen| == Pow2(m) && FreeCount(frozen) <= |message|
    ensures codeword == Reencode(frozen, Fill(frozen, message), m)
    ensures used == FreeCount(frozen)
    ensures UpClosed(frozen, m) && AllHard(message) ==> Extract(frozen, codeword) == message[..FreeCount(frozen)]
  {
    var first;
    first, used := PolarEncode(frozen, message, m);
    ghost var r := Refreeze(frozen, first);
    var n := |frozen|;
    Pow2Tiled(m, 1);
    var pairs: seq<Int8> := [];
    var i := 0;
    while i < n
      invariant 0 <= i <= n && Tiled(i, 2)
      invariant pairs == Stage(Qmul, r[..i], 1)
    {
      TiledNext(i, n, 2);
      var msg0: Int8 := if Frozen(frozen[i]) then 1 else first[i];
      var msg1: Int8 := if Frozen(frozen[i + 1]) then 1 else first[i + 1];
      PairAppend(Qmul, r, i);
      pairs := pairs + [Qmul(msg0, msg1), msg1];
      i := i + 2;
    }
    assert r[..n] == r;
    PairStage(Qmul, r);
    codeword := Stages(Qmul, pairs, r, m);
    if UpClosed(frozen, m) && AllHard(message) {
      SystematicMessage(frozen, message, m);
    }
  }

  /** The free positions of a systematic codeword carry the message. */
  lemma SystematicMessage(f: seq<Byte>, msg: seq<Int8>, m: nat)
    requires |f| == Pow2(m) && FreeCount(f) <= |msg|
    requires UpClosed(f, m) && AllHard(msg)
    ensures Extract(f, Reencode(f, Fill(f, msg), m)) == msg[..FreeCount(f)]
  {
    var u := Fill(f, msg);
    FillHard(f, msg);
    FreezeRoundTrip(f, f, u, m);
    ExtractRefreeze(f, Reencode(f, u, m));
    ExtractRefreeze(f, u);
    ExtractFill(f, msg);
  }

  /** Filling a mask with the free entries of `c` restores `c` up to its frozen positions. */
  lemma {:induction false} FillExtract(f: seq<Byte>, c: seq<Int8>)
    requires |c| == |f|
    ensures FreeCount(f) <= |Extract(f, c)|
    ensures Fill(f, Extract(f, c)) == Refreeze(f, c)
    decreases |f|
  {
    if |f| > 0 {
      FillExtract(f[1..], c[1..]);
      var e := Extract(f, c);
      assert Refreeze(f, c) == [if Frozen(f[0]) then 1 else c[0]] + Refreeze(f[1..], c[1..]);
      if Frozen(f[0]) {
        assert e == Extract(f[1..], c[1..]);
      } else {
        assert e == [c[0]] + Extract(f[1..], c[1..]);
        assert e[1..] == Extract(f[1..], c[1..]);
      }
    }
  }

  /** The filled word already holds +1 at every frozen position. */
  lemma RefreezeFill(f: seq<Byte>, msg: seq<Int8>)
    requires FreeCount(f) <= |msg|
    ensures Refreeze(f, Fill(f, msg)) == Fill(f, msg)
  {
    forall i | 0 <= i < |f|
      ensures Refreeze(f, Fill(f, msg))[i] == Fill(f, msg)[i]
    {
      FillAt(f, msg, i);
    }
  }

  /**
    Both encoders produce codewords: transforming a codeword gives a word
    that holds +1 at every frozen position.
  */
  lemma EncodersProduceCodewords(f: seq<Byte>, msg: seq<Int8>, m: nat)
    requires |f| == Pow2(m) && FreeCount(f) <= |msg| && AllHard(msg)
    ensures var y := Polar(Qmul, Polar(Qmul, Fill(f, msg), m), m);
      Refreeze(f, y) == y
    ensures var y := Polar(Qmul, Reencode(f, Fill(f, msg), m), m);
      Refreeze(f, y) == y
  {
    var u := Fill(f, msg);
    FillHard(f, msg);
    PolarInvolution(u, m);
    RefreezeFill(f, msg);
    ReencodeTransformed(f, u, m);
  }

  /** Transforming the systematic codeword gives back the frozen transform of the input. */
  lemma ReencodeTransformed(f: seq<Byte>, u: seq<Int8>, m: nat)
    requires |u| == Pow2(m) && |f| == |u| && AllHard(u)
    ensures Polar(Qmul, Reencode(f, u, m), m) == Refreeze(f, Polar(Qmul, u, m))
    ensures Refreeze(f, Refreeze(f, Polar(Qmul, u, m))) == Refreeze(f, Polar(Qmul, u, m))
  {
    var pu := Polar(Qmul, u, m);
    PolarHard(u, m);
    RefreezeHard(f, pu);
    PolarInvolution(Refreeze(f, pu), m);
    RefreezeIdempotent(f, pu);
  }

  lemma RefreezeIdempotent(f: seq<Byte>, c: seq<Int8>)
    requires |c| == |f|
    ensures Refreeze(f, Refreeze(f, c)) == Refreeze(f, c)
  {
  }

  /**
    The test bench recovers the message of a systematic codeword from the
    decoder's output by encoding that output non-systematically and reading
    the free positions. If the decoder returns the free positions of the
    transformed codeword, the recovery yields the message.
  */
  lemma SystematicRecovery(f: seq<Byte>, msg: seq<Int8>, m: nat)
    requires |f| == Pow2(m) && FreeCount(f) <= |msg|
    requires UpClosed(f, m) && AllHard(msg)
    ensures var cw := Reencode(f, Fill(f, msg), m);
      var decoded := Extract(f, Polar(Qmul, cw, m));
      Extract(f, Polar(Qmul, Fill(f, decoded), m)) == msg[..FreeCount(f)]
  {
    var u := Fill(f, msg);
    var cw := Reencode(f, u, m);
    var y := Polar(Qmul, cw, m);
    FillHard(f, msg);
    ReencodeTransformed(f, u, m);
    FillExtract(f, y);
    SystematicMessage(f, msg, m);
  }

  /** With every position frozen both encoders emit the all-(+1) word. */
  lemma AllFrozenEncodesOnes(f: seq<Byte>, msg: seq<Int8>, m: nat)
    requires |f| == Pow2(m) && FreeCount(f) == 0
    ensures Polar(Qmul, Fill(f, msg), m) == Ones(|f|)
    ensures Reencode(f, Fill(f, msg), m) == Ones(|f|)
  {
    FillAllFrozen(f, msg);
    PolarOnes(m);
    assert Refreeze(f, Ones(|f|)) == Ones(|f|) by {
      forall i | 0 <= i < |f|
        ensures Refreeze(f, Ones(|f|))[i] == Ones(|f|)[i]
      {
        assert Ones(|f|)[i] == 1;
      }
    }
  }

  /** With no position frozen the encoder is the bare transform of the message. */
  lemma NoneFrozenIsTransform(f: seq<Byte>, msg: seq<Int8>, m: nat)
    requires |f| == Pow2(m) && FreeCount(f) == |f| && |f| <= |msg|
    ensures Polar(Qmul, Fill(f, msg), m) == Polar(Qmul, msg[..|f|], m)
  {
    FillNoneFrozen(f, msg);
  }
}
