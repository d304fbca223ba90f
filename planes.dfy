/**
 * The packed-to-planar layout change at the heart of the converter, stated
 * once for any sample type: the decoder emits pixels as interleaved R, G, B, A
 * samples, the encoder reads four contiguous planes in the order G, B, R, A.
 * Samples are opaque values (bit patterns); only their positions move.
 */
module Planes {

  /** The four samples of a pixel. */
  datatype Channel = R | G | B | A

  /** Where a channel's sample sits inside an interleaved pixel (R, G, B, A). */
  function Offset(c: Channel): nat {
    match c
    case R => 0
    case G => 1
    case B => 2
    case A => 3
  }

  /** Where a channel's plane sits in the planar buffer (G, B, R, A). */
  function PlaneIndex(c: Channel): nat {
    match c
    case G => 0
    case B => 1
    case R => 2
    case A => 3
  }

  /** The channel stored at offset `k` of an interleaved pixel. */
  function ChannelAt(k: nat): (c: Channel)
    requires k < 4
    ensures Offset(c) == k
  {
    if k == 0 then R else if k == 1 then G else if k == 2 then B else A
  }

  /** Every sample of channel `c`, one per pixel, in pixel order. */
  function Plane<T>(packed: seq<T>, c: Channel): (p: seq<T>)
    requires |packed| % 4 == 0
    ensures |p| == |packed| / 4
    decreases |packed|
  {
    if packed == [] then [] else [packed[Offset(c)]] + Plane(packed[4..], c)
  }

  /** The planar buffer: the G, B, R and A planes, concatenated in that order. */
  function ToPlanar<T>(packed: seq<T>): (planar: seq<T>)
    requires |packed| % 4 == 0
    ensures |planar| == |packed|
  {
    Plane(packed, G) + Plane(packed, B) + Plane(packed, R) + Plane(packed, A)
  }

  /** Four planes of equal length woven back into pixels R, G, B, A. */
  function Interleave<T>(g: seq<T>, b: seq<T>, r: seq<T>, a: seq<T>): (packed: seq<T>)
    requires |g| == |b| == |r| == |a|
    ensures |packed| == 4 * |g|
    decreases |g|
  {
    if g == [] then []
    else [r[0], g[0], b[0], a[0]] + Interleave(g[1..], b[1..], r[1..], a[1..])
  }

  /** The inverse layout change: a planar G, B, R, A buffer back to packed pixels. */
  function ToPacked<T>(planar: seq<T>): seq<T>
    requires |planar| % 4 == 0
  {
    var n := |planar| / 4;
    Interleave(planar[..n], planar[n..2 * n], planar[2 * n..3 * n], planar[3 * n..])
  }

  /** The packed position that planar position `k` is read from, for `n` pixels. */
  function SourceIndex(k: int, n: int): int {
    if k < n then 4 * k + 1
    else if k < 2 * n then 4 * (k - n) + 2
    else if k < 3 * n then 4 * (k - 2 * n)
    else 4 * (k - 3 * n) + 3
  }

  /** The planar position that packed position `j` is written to, for `n` pixels. */
  function TargetIndex(j: nat, n: nat): nat {
    PlaneIndex(ChannelAt(j % 4)) * n + j / 4
  }

  lemma {:induction false} PlaneAt<T>(packed: seq<T>, c: Channel, i: nat)
    requires |packed| % 4 == 0 && i < |packed| / 4
    ensures Plane(packed, c)[i] == packed[4 * i + Offset(c)]
    decreases i
  {
    if i > 0 {
      PlaneAt(packed[4..], c, i - 1);
    }
  }

  /**
   * Pixel `i` lands at position `i` of each plane: the G plane gets sample
   * 4i+1, the B plane 4i+2, the R plane 4i and the A plane 4i+3, with the
   * planes based at 0, n, 2n and 3n.
   */
  lemma PlanarAt<T>(packed: seq<T>)
    requires |packed| % 4 == 0
    ensures |ToPlanar(packed)| == |packed|
    ensures var n := |packed| / 4;
      forall i :: 0 <= i < n ==>
        && ToPlanar(packed)[i] == packed[4 * i + 1]
        && ToPlanar(packed)[n + i] == packed[4 * i + 2]
        && ToPlanar(packed)[2 * n + i] == packed[4 * i]
        && ToPlanar(packed)[3 * n + i] == packed[4 * i + 3]
  {
    var n := |packed| / 4;
    forall i | 0 <= i < n
      ensures ToPlanar(packed)[i] == packed[4 * i + 1]
      ensures ToPlanar(packed)[n + i] == packed[4 * i + 2]
      ensures ToPlanar(packed)[2 * n + i] == packed[4 * i]
      ensures ToPlanar(packed)[3 * n + i] == packed[4 * i + 3]
    {
      PlaneAt(packed, G, i);
      PlaneAt(packed, B, i);
      PlaneAt(packed, R, i);
      PlaneAt(packed, A, i);
    }
  }

  /** Every planar position reads the packed position `SourceIndex` names. */
  lemma PlanarReadsSource<T>(packed: seq<T>)
    requires |packed| % 4 == 0
    ensures var n := |packed| / 4;
      forall k :: 0 <= k < |packed| ==>
        0 <= SourceIndex(k, n) < |packed| && ToPlanar(packed)[k] == packed[SourceIndex(k, n)]
  {
    var n := |packed| / 4;
    var g, b, r, a := Plane(packed, G), Plane(packed, B), Plane(packed, R), Plane(packed, A);
    assert ToPlanar(packed) == g + b + r + a;
    forall k | 0 <= k < |packed|
      ensures 0 <= SourceIndex(k, n) < |packed| && ToPlanar(packed)[k] == packed[SourceIndex(k, n)]
    {
      if k < n {
        PlaneAt(packed, G, k);
      } else if k < 2 * n {
        PlaneAt(packed, B, k - n);
      } else if k < 3 * n {
        PlaneAt(packed, R, k - 2 * n);
      } else {
        PlaneAt(packed, A, k - 3 * n);
      }
    }
  }

  /** The first `m` positions of each of the four planes of `planar` hold the samples of pixels `0..m`. */
  ghost predicate FilledUpTo<T>(packed: seq<T>, planar: seq<T>, n: nat, m: nat)
    requires |packed| == 4 * n && |planar| == 4 * n && m <= n
  {
    forall j :: 0 <= j < m ==>
      && planar[j] == packed[4 * j + 1]
      && planar[n + j] == packed[4 * j + 2]
      && planar[2 * n + j] == packed[4 * j]
      && planar[3 * n + j] == packed[4 * j + 3]
  }

  /** Storing pixel `m`'s four samples at position `m` of each plane extends the filled prefix by one. */
  lemma FilledStep<T>(packed: seq<T>, planar: seq<T>, next: seq<T>, n: nat, m: nat)
    requires |packed| == 4 * n && |planar| == 4 * n && m < n
    requires FilledUpTo(packed, planar, n, m)
    requires next == planar[m := packed[4 * m + 1]][n + m := packed[4 * m + 2]]
                           [2 * n + m := packed[4 * m]][3 * n + m := packed[4 * m + 3]]
    ensures FilledUpTo(packed, next, n, m + 1)
  {
  }

  /** A buffer whose four planes hold every pixel's samples is the planar buffer. */
  lemma PlanesFilled<T>(packed: seq<T>, planar: seq<T>, n: nat)
    requires |packed| == 4 * n && |planar| == 4 * n
    requires FilledUpTo(packed, planar, n, n)
    ensures planar == ToPlanar(packed)
  {
    PlanarReadsSource(packed);
    forall k | 0 <= k < 4 * n
      ensures planar[k] == ToPlanar(packed)[k]
    {
      if k < n {
      } else if k < 2 * n {
        assert planar[n + (k - n)] == packed[4 * (k - n) + 2];
      } else if k < 3 * n {
        assert planar[2 * n + (k - 2 * n)] == packed[4 * (k - 2 * n)];
      } else {
        assert planar[3 * n + (k - 3 * n)] == packed[4 * (k - 3 * n) + 3];
      }
    }
  }

  /**
   * The four planes are disjoint and together cover the output: distinct
   * planar positions read distinct packed positions, and every packed
   * position is read by the planar position `TargetIndex` names.
   */
  lemma PlanesPartitionOutput(n: nat)
    ensures forall k1, k2 :: 0 <= k1 < k2 < 4 * n ==> SourceIndex(k1, n) != SourceIndex(k2, n)
    ensures forall j :: 0 <= j < 4 * n ==> TargetIndex(j, n) < 4 * n && SourceIndex(TargetIndex(j, n), n) == j
  {
    forall j | 0 <= j < 4 * n
      ensures TargetIndex(j, n) < 4 * n && SourceIndex(TargetIndex(j, n), n) == j
    {
      var i, r := j / 4, j % 4;
      assert j == 4 * i + r && i < n;
    }
  }

  lemma RegroupSamples<T>(x0: T, x1: T, x2: T, x3: T, mg: multiset<T>, mb: multiset<T>, mr: multiset<T>, ma: multiset<T>)
    ensures (multiset{x1} + mg) + (multiset{x2} + mb) + (multiset{x0} + mr) + (multiset{x3} + ma)
         == multiset{x0, x1, x2, x3} + (mg + mb + mr + ma)
  {
  }

  lemma FirstPixel<T>(packed: seq<T>)
    requires |packed| % 4 == 0 && packed != []
    ensures multiset(packed) == multiset{packed[0], packed[1], packed[2], packed[3]} + multiset(packed[4..])
  {
    assert packed == [packed[0], packed[1], packed[2], packed[3]] + packed[4..];
    assert multiset([packed[0], packed[1], packed[2], packed[3]]) == multiset{packed[0], packed[1], packed[2], packed[3]};
  }

  lemma {:induction false} PlanesMultiset<T>(packed: seq<T>)
    requires |packed| % 4 == 0
    ensures multiset(Plane(packed, G)) + multiset(Plane(packed, B))
          + multiset(Plane(packed, R)) + multiset(Plane(packed, A)) == multiset(packed)
    decreases |packed|
  {
    if packed != [] {
      var rest := packed[4..];
      PlanesMultiset(rest);
      RegroupSamples(packed[0], packed[1], packed[2], packed[3],
        multiset(Plane(rest, G)), multiset(Plane(rest, B)), multiset(Plane(rest, R)), multiset(Plane(rest, A)));
      FirstPixel(packed);
    }
  }

  /** The layout change is a permutation: the same samples, each as often. */
  lemma PlanarPermutation<T>(packed: seq<T>)
    requires |packed| % 4 == 0
    ensures multiset(ToPlanar(packed)) == multiset(packed)
  {
    PlanesMultiset(packed);
  }

  lemma {:induction false} InterleavePlanes<T>(packed: seq<T>)
    requires |packed| % 4 == 0
    ensures Interleave(Plane(packed, G), Plane(packed, B), Plane(packed, R), Plane(packed, A)) == packed
    decreases |packed|
  {
    if packed != [] {
      InterleavePlanes(packed[4..]);
      assert packed == [packed[0], packed[1], packed[2], packed[3]] + packed[4..];
    }
  }

  lemma {:induction false} PlanesOfInterleave<T>(g: seq<T>, b: seq<T>, r: seq<T>, a: seq<T>)
    requires |g| == |b| == |r| == |a|
    ensures Plane(Interleave(g, b, r, a), G) == g
    ensures Plane(Interleave(g, b, r, a), B) == b
    ensures Plane(Interleave(g, b, r, a), R) == r
    ensures Plane(Interleave(g, b, r, a), A) == a
    decreases |g|
  {
    if g != [] {
      PlanesOfInterleave(g[1..], b[1..], r[1..], a[1..]);
      var rest := Interleave(g[1..], b[1..], r[1..], a[1..]);
      assert Interleave(g, b, r, a)[4..] == rest;
      assert g == [g[0]] + g[1..] && b == [b[0]] + b[1..];
      assert r == [r[0]] + r[1..] && a == [a[0]] + a[1..];
    }
  }

  /** Repacking the planes of a packed buffer gives the packed buffer back. */
  lemma PackedRoundTrip<T>(packed: seq<T>)
    requires |packed| % 4 == 0
    ensures |ToPlanar(packed)| == |packed|
    ensures ToPacked(ToPlanar(packed)) == packed
  {
    var n := |packed| / 4;
    var planar := ToPlanar(packed);
    assert planar[..n] == Plane(packed, G);
    assert planar[n..2 * n] == Plane(packed, B);
    assert planar[2 * n..3 * n] == Plane(packed, R);
    assert planar[3 * n..] == Plane(packed, A);
    InterleavePlanes(packed);
  }

  /** Splitting the pixels of an interleaved planar buffer gives the planes back. */
  lemma PlanarRoundTrip<T>(planar: seq<T>)
    requires |planar| % 4 == 0
    ensures |ToPacked(planar)| == |planar|
    ensures ToPlanar(ToPacked(planar)) == planar
  {
    var n := |planar| / 4;
    var g, b, r, a := planar[..n], planar[n..2 * n], planar[2 * n..3 * n], planar[3 * n..];
    PlanesOfInterleave(g, b, r, a);
    assert planar == g + b + r + a;
  }
}
