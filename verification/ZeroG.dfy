/**
 The 0G Storage flow-merkle root: zero padding to a computed number of 256-byte chunks, a bottom-up
 queue builder with odd-node carry, and a second tree over the roots of 1024-chunk segments.
 */
module ZeroG {
  import opened Wrappers
  import opened Bytes
  import opened TreeHash
  import Radix

  const CHUNK := 256
  const SEGMENT_MAX_CHUNKS := 1024
  const SEGMENT_SIZE := 262144

  /** The 256 KiB of a segment are exactly 1024 chunks. */
  lemma {:induction false} SegmentIsWhole()
    ensures SEGMENT_SIZE == CHUNK * SEGMENT_MAX_CHUNKS
    ensures SEGMENT_SIZE % CHUNK == 0 && SEGMENT_SIZE / CHUNK == SEGMENT_MAX_CHUNKS
  {
  }

  // ---------- padding ----------

  function NumSplits(total: nat, unit: nat): int
    requires unit > 0
  {
    (total - 1) / unit + 1
  }

  /** The smallest power of two that is at least x. */
  function NextPow2(x: nat): (p: nat)
    ensures IsPowerOfTwo(p) && x <= p && (p == 1 || p < 2 * x)
  {
    if x <= 1 then 1
    else
      SplitPointIsPower(x);
      2 * SplitPoint(x)
  }

  /** The shifting loop. */
  method ComputeNextPow2(x: nat) returns (p: nat)
    ensures p == NextPow2(x)
  {
    if x <= 1 {
      return 1;
    }
    p := 1;
    while p < x
      invariant IsPowerOfTwo(p) && p < 2 * x
      decreases 2 * x - p
    {
      p := p * 2;
    }
    SplitPointUnique(p / 2, x);
  }

  function PaddedChunks(chunks: nat): int {
    RoundedChunks(chunks, NextPow2(chunks))
  }

  /** Rounds up to a multiple of a sixteenth of c2. */
  function RoundedChunks(chunks: nat, c2: nat): int {
    if c2 == chunks then chunks
    else
      var minChunk := if c2 >= 16 then c2 / 16 else 1;
      NumSplits(chunks, minChunk) * minChunk
  }

  lemma {:induction false} RoundUp(n: nat, unit: nat, limit: nat)
    requires n > 0 && unit > 0 && n <= limit * unit
    ensures n <= NumSplits(n, unit) * unit < n + unit
    ensures NumSplits(n, unit) <= limit
  {
    var q, r := (n - 1) / unit, (n - 1) % unit;
    assert n - 1 == q * unit + r;
    assert (q + 1) * unit == q * unit + unit;
    if limit <= q {
      Radix.MulMonotone(limit, q, unit);
    }
  }

  lemma {:induction false} HalfOfPower(c: nat, least: nat) returns (half: nat)
    requires IsPowerOfTwo(c) && c >= 2 * least && least > 0
    ensures IsPowerOfTwo(half) && c == 2 * half && half >= least
  {
    half := c / 2;
  }

  lemma {:induction false} SixteenDivides(c2: nat)
    requires IsPowerOfTwo(c2) && c2 >= 16
    ensures c2 == 16 * (c2 / 16)
  {
    var a := HalfOfPower(c2, 8);
    var b := HalfOfPower(a, 4);
    var c := HalfOfPower(b, 2);
    var d := HalfOfPower(c, 1);
    Sixteenth(c2, d);
  }

  lemma {:induction false} Sixteenth(n: nat, d: nat)
    requires n == 16 * d
    ensures n == 16 * (n / 16)
  {
  }

  lemma {:induction false} MultipleOf(q: int, unit: nat)
    requires unit > 0
    ensures q * unit % unit == 0
  {
    Radix.DivModUnique(q, 0, unit);
  }

  lemma {:induction false} RoundedToSixteenths(chunks: nat, c2: nat, minChunk: nat)
    requires 0 < chunks < c2 && c2 == 16 * minChunk && minChunk == c2 / 16
    ensures chunks <= RoundedChunks(chunks, c2) <= c2
    ensures RoundedChunks(chunks, c2) < chunks + minChunk && RoundedChunks(chunks, c2) % minChunk == 0
  {
    RoundUp(chunks, minChunk, 16);
    Radix.MulMonotone(NumSplits(chunks, minChunk), 16, minChunk);
    MultipleOf(NumSplits(chunks, minChunk), minChunk);
  }

  /** The number of chunks that padding works in: a sixteenth of the next power of two, or one. */
  function PaddingUnit(chunks: nat): (unit: nat)
    ensures unit > 0
  {
    if NextPow2(chunks) / 16 > 1 then NextPow2(chunks) / 16 else 1
  }

  /**
   Padding rounds up to the next multiple of a sixteenth of the next power of two, and to no more chunks
   than that power.
   */
  lemma {:induction false} PaddingIsTight(chunks: nat)
    requires chunks > 0
    ensures PaddedChunks(chunks) % PaddingUnit(chunks) == 0
    ensures chunks <= PaddedChunks(chunks) < chunks + PaddingUnit(chunks)
    ensures PaddedChunks(chunks) <= NextPow2(chunks)
  {
    var c2 := NextPow2(chunks);
    if c2 >= 16 {
      SixteenDivides(c2);
      if c2 != chunks {
        RoundedToSixteenths(chunks, c2, c2 / 16);
      } else {
        MultipleOf(16, c2 / 16);
      }
    }
  }

  lemma {:induction false} MultiplesApart(a: int, b: int, unit: nat)
    requires unit > 0 && a % unit == 0 && b % unit == 0 && a < b
    ensures a + unit <= b
  {
    Radix.Remainder(a, unit);
    Radix.Remainder(b, unit);
    var x, y := a / unit, b / unit;
    if y <= x {
      Radix.MulMonotone(y, x, unit);
    }
    Radix.MulMonotone(x + 1, y, unit);
    assert (x + 1) * unit == x * unit + unit;
  }

  /** It is the only multiple in reach. */
  lemma {:induction false} PaddingIsLeast(chunks: nat, m: nat)
    requires chunks > 0 && chunks <= m && m % PaddingUnit(chunks) == 0
    ensures PaddedChunks(chunks) <= m
  {
    PaddingIsTight(chunks);
    if m < PaddedChunks(chunks) {
      MultiplesApart(m, PaddedChunks(chunks), PaddingUnit(chunks));
    }
  }

  function PaddedSize(n: nat): (size: nat)
    ensures n <= size && size >= CHUNK && size % CHUNK == 0
  {
    var chunks := if n > 0 then NumSplits(n, CHUNK) else 1;
    ChunksCover(n, chunks);
    PaddingIsTight(chunks);
    PaddedChunks(chunks) * CHUNK
  }

  lemma {:induction false} ChunksCover(n: nat, chunks: int)
    requires chunks == if n > 0 then NumSplits(n, CHUNK) else 1
    ensures chunks > 0 && n <= chunks * CHUNK
  {
  }

  /** The content fills all its 256-byte chunks but a part of the last; the empty content has one chunk. */
  lemma {:induction false} PaddedSizeExactly(n: nat, chunks: nat)
    requires chunks > 0 && n <= 256 * chunks && (256 * (chunks - 1) < n || (n == 0 && chunks == 1))
    ensures PaddedSize(n) == 256 * PaddedChunks(chunks)
  {
  }

  function Padded(content: Bytes): (data: Bytes)
    ensures |data| >= CHUNK && |data| % CHUNK == 0 && content <= data
  {
    content + Radix.Zeros(PaddedSize(|content|) - |content|)
  }

  // ---------- the queue builder ----------

  /**
   Pops pairs from the front, pushes their hash at the back, and carries an odd last node.  The queue
   ends with the root that the top-down split computes.
   */
  method Build<D>(node: NodeHash<D>, leaves: seq<D>) returns (root: Option<D>)
    ensures root == if leaves == [] then None else Some(Root(node, leaves))
  {
    var n := |leaves|;
    if n == 0 {
      return None;
    }
    var queue: seq<D> := [];
    var i := 0;
    while i < n
      invariant 0 <= i <= n + 1 && i % 2 == 0
      invariant queue == Pair(node, if i <= n then leaves[..i] else leaves)
    {
      PairNext(node, leaves, i);
      if i == n - 1 {
        queue := queue + [leaves[i]];
      } else {
        queue := queue + [node(leaves[i], leaves[i + 1])];
      }
      i := i + 2;
    }
    assert i == n ==> leaves[..i] == leaves;
    PairKeepsRoot(node, leaves);
    while |queue| > 1
      invariant |queue| > 0 && Root(node, queue) == Root(node, leaves)
      decreases |queue|
    {
      queue := BuildLevel(node, queue);
    }
    root := Some(queue[0]);
  }

  /** What is left after all whole pairs is the odd node, which is carried behind them. */
  lemma {:induction false} CarryOdd<D>(node: NodeHash<D>, level: seq<D>, i: nat, queue: seq<D>)
    requires i % 2 == 0 && |level| == i + 1
    requires queue == level[i..] + Pair(node, level[..i])
    ensures queue[1..] + [queue[0]] == Pair(node, level)
  {
    PairNext(node, level, i);
    assert queue[0] == level[i];
    assert queue[1..] == Pair(node, level[..i]);
  }

  lemma {:induction false} PopPair<D>(queue: seq<D>, level: seq<D>, i: nat, tail: seq<D>)
    requires i + 1 < |level| && queue == level[i..] + tail
    ensures queue[0] == level[i] && queue[1..][0] == level[i + 1]
    ensures queue[1..][1..] == level[i + 2..] + tail
  {
  }

  /** One pass of the outer loop: every pair of the queue, then the odd node. */
  method BuildLevel<D>(node: NodeHash<D>, level: seq<D>) returns (queue: seq<D>)
    requires |level| > 1
    ensures queue == Pair(node, level)
    ensures 0 < |queue| < |level| && Root(node, queue) == Root(node, level)
  {
    queue := level;
    var num := |queue|;
    var half := num / 2;
    for j := 0 to half
      invariant queue == level[2 * j..] + Pair(node, level[..2 * j])
    {
      PairNext(node, level, 2 * j);
      PopPair(queue, level, 2 * j, Pair(node, level[..2 * j]));
      var left := queue[0];
      queue := queue[1..];
      var right := queue[0];
      queue := queue[1..];
      queue := queue + [node(left, right)];
    }
    if num % 2 == 1 {
      CarryOdd(node, level, 2 * half, queue);
      queue := queue[1..] + [queue[0]];
    } else {
      assert level[..2 * half] == level;
    }
    PairKeepsRoot(node, level);
  }

  // ---------- the file root ----------

  function NodeOf(h: Hash): NodeHash<Bytes> {
    (left, right) => h(left + right)
  }

  /** The consecutive slices of width w; the last one may be shorter. */
  function Slices(data: Bytes, w: nat): (r: seq<Bytes>)
    requires w > 0
    ensures |data| > 0 ==> |r| > 0
    ensures forall s :: s in r ==> |s| > 0
    decreases |data|
  {
    if data == [] then []
    else if |data| <= w then [data]
    else [data[..w]] + Slices(data[w..], w)
  }

  function Hashes(h: Hash, chunks: seq<Bytes>): (r: seq<Bytes>)
    ensures |r| == |chunks|
  {
    seq(|chunks|, i requires 0 <= i < |chunks| => h(chunks[i]))
  }

  function ChunkLeaves(h: Hash, data: Bytes): (r: seq<Bytes>)
    ensures |data| > 0 ==> |r| > 0
  {
    Hashes(h, Slices(data, CHUNK))
  }

  function SegmentRoot(h: Hash, segment: Bytes): Bytes
    requires |segment| > 0
  {
    Root(NodeOf(h), ChunkLeaves(h, segment))
  }

  function SegmentRoots(h: Hash, segments: seq<Bytes>): (r: seq<Bytes>)
    requires forall s :: s in segments ==> |s| > 0
    ensures |r| == |segments|
  {
    if segments == [] then [] else [SegmentRoot(h, segments[0])] + SegmentRoots(h, segments[1..])
  }

  /** The file root as computed: a tree over the roots of the 256 KiB segments. */
  function FileRoot(h: Hash, content: Bytes): Bytes {
    Root(NodeOf(h), SegmentRoots(h, Slices(Padded(content), SEGMENT_SIZE)))
  }

  /** One flat tree over all the padded chunks. */
  function FlatRoot(h: Hash, data: Bytes): Bytes
    requires |data| > 0
  {
    Root(NodeOf(h), ChunkLeaves(h, data))
  }

  lemma {:induction false} ChunksSplit(data: Bytes, m: nat)
    requires m % CHUNK == 0 && m <= |data|
    ensures Slices(data, CHUNK) == Slices(data[..m], CHUNK) + Slices(data[m..], CHUNK)
    ensures |Slices(data[..m], CHUNK)| == m / CHUNK
    decreases m
  {
    var front, back := data[..m], data[m..];
    if m == 0 {
      assert back == data;
    } else if |data| == CHUNK {
      assert front == data && back == [];
    } else {
      var rest := data[CHUNK..];
      ChunksSplit(rest, m - CHUNK);
      assert rest[..m - CHUNK] == front[CHUNK..] && rest[m - CHUNK..] == back && front[..CHUNK] == data[..CHUNK];
      assert Slices(front, CHUNK) == [data[..CHUNK]] + Slices(rest[..m - CHUNK], CHUNK);
    }
  }

  lemma {:induction false} LeavesSplit(h: Hash, data: Bytes, m: nat)
    requires m % CHUNK == 0 && m <= |data|
    ensures |ChunkLeaves(h, data)| >= m / CHUNK
    ensures ChunkLeaves(h, data)[..m / CHUNK] == ChunkLeaves(h, data[..m])
    ensures ChunkLeaves(h, data)[m / CHUNK..] == ChunkLeaves(h, data[m..])
  {
    ChunksSplit(data, m);
  }

  lemma {:induction false} FirstSegment(h: Hash, data: Bytes)
    requires |data| > SEGMENT_SIZE
    ensures SegmentRoots(h, Slices(data, SEGMENT_SIZE))
            == [SegmentRoot(h, data[..SEGMENT_SIZE])] + SegmentRoots(h, Slices(data[SEGMENT_SIZE..], SEGMENT_SIZE))
  {
    var first, rest := data[..SEGMENT_SIZE], Slices(data[SEGMENT_SIZE..], SEGMENT_SIZE);
    assert Slices(data, SEGMENT_SIZE) == [first] + rest;
    assert ([first] + rest)[1..] == rest;
  }

  lemma {:induction false} FirstGroup<D>(node: NodeHash<D>, ls: seq<D>, front: seq<D>, back: seq<D>)
    requires ls == front + back && |front| == SEGMENT_MAX_CHUNKS && |back| > 0
    ensures GroupRoots(node, ls, SEGMENT_MAX_CHUNKS) == [Root(node, front)] + GroupRoots(node, back, SEGMENT_MAX_CHUNKS)
  {
    assert ls[..SEGMENT_MAX_CHUNKS] == front && ls[SEGMENT_MAX_CHUNKS..] == back;
  }

  lemma {:induction false} LeavesOfSegment(h: Hash, data: Bytes)
    requires |data| >= SEGMENT_SIZE
    ensures ChunkLeaves(h, data) == ChunkLeaves(h, data[..SEGMENT_SIZE]) + ChunkLeaves(h, data[SEGMENT_SIZE..])
    ensures |ChunkLeaves(h, data[..SEGMENT_SIZE])| == SEGMENT_MAX_CHUNKS
  {
    SegmentIsWhole();
    LeavesSplit(h, data, SEGMENT_SIZE);
    ChunksSplit(data, SEGMENT_SIZE);
  }

  lemma {:induction false} OneSegment(h: Hash, data: Bytes)
    requires 0 < |data| <= SEGMENT_SIZE && |data| % CHUNK == 0
    ensures |ChunkLeaves(h, data)| <= SEGMENT_MAX_CHUNKS
    ensures SegmentRoots(h, Slices(data, SEGMENT_SIZE)) == [SegmentRoot(h, data)]
  {
    ChunksSplit(data, |data|);
    assert data[..|data|] == data;
    LastSegment(h, data);
  }

  lemma {:induction false} SegmentsAreGroups(h: Hash, data: Bytes)
    requires |data| % CHUNK == 0
    ensures SegmentRoots(h, Slices(data, SEGMENT_SIZE)) == GroupRoots(NodeOf(h), ChunkLeaves(h, data), SEGMENT_MAX_CHUNKS)
    decreases |data|
  {
    if |data| > SEGMENT_SIZE {
      var first, rest := data[..SEGMENT_SIZE], data[SEGMENT_SIZE..];
      FirstSegment(h, data);
      SegmentsAreGroups(h, rest);
      LeavesOfSegment(h, data);
      FirstGroup(NodeOf(h), ChunkLeaves(h, data), ChunkLeaves(h, first), ChunkLeaves(h, rest));
    } else if data != [] {
      OneSegment(h, data);
    }
  }

  lemma {:induction false} SegmentIsAligned()
    ensures IsPowerOfTwo(SEGMENT_MAX_CHUNKS)
  {
    assert IsPowerOfTwo(4) && IsPowerOfTwo(16);
    assert IsPowerOfTwo(64) && IsPowerOfTwo(256);
  }

  /** Segmentation is transparent: the two-level root is the flat root of all the padded chunks. */
  lemma {:induction false} FileRootIsFlat(h: Hash, content: Bytes)
    ensures FileRoot(h, content) == FlatRoot(h, Padded(content))
  {
    var data := Padded(content);
    SegmentsAreGroups(h, data);
    SegmentIsAligned();
    GroupingKeepsRoot(NodeOf(h), ChunkLeaves(h, data), SEGMENT_MAX_CHUNKS);
  }

  /** The whole computation, with the queue builder at both levels. */
  method ComputeFileRoot(h: Hash, content: Bytes) returns (root: Bytes)
    ensures root == FileRoot(h, content)
    ensures root == FlatRoot(h, Padded(content))
  {
    var roots := ComputeSegmentRoots(h, Padded(content));
    var r := Build(NodeOf(h), roots);
    root := r.value;
    FileRootIsFlat(h, content);
  }

  method ComputeSegmentRoots(h: Hash, data: Bytes) returns (roots: seq<Bytes>)
    ensures roots == SegmentRoots(h, Slices(data, SEGMENT_SIZE))
  {
    roots := [];
    var rest := data;
    while |rest| > SEGMENT_SIZE
      invariant SegmentRoots(h, Slices(data, SEGMENT_SIZE)) == roots + SegmentRoots(h, Slices(rest, SEGMENT_SIZE))
    {
      FirstSegment(h, rest);
      var r := Build(NodeOf(h), ChunkLeaves(h, rest[..SEGMENT_SIZE]));
      roots := roots + [r.value];
      rest := rest[SEGMENT_SIZE..];
    }
    if rest != [] {
      LastSegment(h, rest);
      var r := Build(NodeOf(h), ChunkLeaves(h, rest));
      roots := roots + [r.value];
    }
  }

  lemma {:induction false} LastSegment(h: Hash, data: Bytes)
    requires 0 < |data| <= SEGMENT_SIZE
    ensures SegmentRoots(h, Slices(data, SEGMENT_SIZE)) == [SegmentRoot(h, data)]
  {
    var single := Slices(data, SEGMENT_SIZE);
    assert single == [data];
    assert SegmentRoots(h, single) == [SegmentRoot(h, data)] + SegmentRoots(h, single[1..]);
  }

  // ---------- what the root commits to ----------

  /** Every byte string hashed on the way to the root of the chunks. */
  ghost function Preimages(h: Hash, chunks: seq<Bytes>): set<Bytes>
    requires |chunks| > 0
    decreases |chunks|
  {
    if |chunks| == 1 then {chunks[0]}
    else
      var k := SplitPoint(|chunks|);
      var left, right := chunks[..k], chunks[k..];
      {Root(NodeOf(h), Hashes(h, left)) + Root(NodeOf(h), Hashes(h, right))} + Preimages(h, left) + Preimages(h, right)
  }

  ghost predicate AllChunks(chunks: seq<Bytes>) {
    forall i :: 0 <= i < |chunks| ==> |chunks[i]| == CHUNK
  }

  /** What is hashed last: a 256-byte chunk, or the 64 bytes of two child hashes. */
  ghost function LastPreimage(h: Hash, chunks: seq<Bytes>): Bytes
    requires |chunks| > 0
  {
    if |chunks| == 1 then chunks[0]
    else
      var k := SplitPoint(|chunks|);
      Root(NodeOf(h), Hashes(h, chunks[..k])) + Root(NodeOf(h), Hashes(h, chunks[k..]))
  }

  lemma {:induction false} HashesSplit(h: Hash, chunks: seq<Bytes>, k: nat)
    requires k <= |chunks|
    ensures Hashes(h, chunks)[..k] == Hashes(h, chunks[..k])
    ensures Hashes(h, chunks)[k..] == Hashes(h, chunks[k..])
  {
  }

  lemma {:induction false} RootIsLastHash(h: Hash, chunks: seq<Bytes>)
    requires |chunks| > 0
    ensures Root(NodeOf(h), Hashes(h, chunks)) == h(LastPreimage(h, chunks))
    ensures LastPreimage(h, chunks) in Preimages(h, chunks)
  {
    if |chunks| > 1 {
      HashesSplit(h, chunks, SplitPoint(|chunks|));
    }
  }

  /** Leaf and node preimages differ in length. */
  lemma {:induction false} LastPreimageWidth(h: Hash, chunks: seq<Bytes>)
    requires IsHash32(h) && |chunks| > 0 && AllChunks(chunks)
    ensures |LastPreimage(h, chunks)| == if |chunks| == 1 then CHUNK else 64
  {
    if |chunks| > 1 {
      var k := SplitPoint(|chunks|);
      RootIsLastHash(h, chunks[..k]);
      RootIsLastHash(h, chunks[k..]);
    }
  }

  /** Equal roots over chunks were hashed from equal halves, or are the hashes of one chunk. */
  lemma {:induction false} EqualRootsSplit(h: Hash, a: seq<Bytes>, b: seq<Bytes>, s: set<Bytes>)
    requires IsHash32(h) && |a| > 0 && |b| > 0 && AllChunks(a) && AllChunks(b)
    requires Preimages(h, a) + Preimages(h, b) <= s && CollisionFreeOn(h, s)
    requires Root(NodeOf(h), Hashes(h, a)) == Root(NodeOf(h), Hashes(h, b))
    ensures |a| == 1 || |b| == 1 ==> a == b
    ensures |a| > 1 && |b| > 1 ==>
              Root(NodeOf(h), Hashes(h, a[..SplitPoint(|a|)])) == Root(NodeOf(h), Hashes(h, b[..SplitPoint(|b|)]))
    ensures |a| > 1 && |b| > 1 ==>
              Root(NodeOf(h), Hashes(h, a[SplitPoint(|a|)..])) == Root(NodeOf(h), Hashes(h, b[SplitPoint(|b|)..]))
  {
    RootIsLastHash(h, a);
    RootIsLastHash(h, b);
    LastPreimageWidth(h, a);
    LastPreimageWidth(h, b);
    assert ToldApart(h, LastPreimage(h, a), LastPreimage(h, b));
    if |a| > 1 && |b| > 1 {
      var i, j := SplitPoint(|a|), SplitPoint(|b|);
      RootIsLastHash(h, a[..i]);
      RootIsLastHash(h, b[..j]);
      HalvesAgree(Root(NodeOf(h), Hashes(h, a[..i])), Root(NodeOf(h), Hashes(h, a[i..])),
                  Root(NodeOf(h), Hashes(h, b[..j])), Root(NodeOf(h), Hashes(h, b[j..])));
    }
  }

  lemma {:induction false} HalvesOfChunks(h: Hash, a: seq<Bytes>, k: nat, s: set<Bytes>)
    requires |a| > 1 && k == SplitPoint(|a|) && AllChunks(a) && Preimages(h, a) <= s
    ensures AllChunks(a[..k]) && Preimages(h, a[..k]) <= s
    ensures AllChunks(a[k..]) && Preimages(h, a[k..]) <= s
  {
  }

  lemma {:induction false} Rejoin<D>(a: seq<D>, i: nat, b: seq<D>, j: nat)
    requires i <= |a| && j <= |b| && a[..i] == b[..j] && a[i..] == b[j..]
    ensures a == b
  {
    assert a == a[..i] + a[i..] && b == b[..j] + b[j..];
  }

  /** The root determines the chunks and their number. */
  lemma {:induction false} RootBindsChunks(h: Hash, a: seq<Bytes>, b: seq<Bytes>, s: set<Bytes>)
    requires IsHash32(h) && |a| > 0 && |b| > 0 && AllChunks(a) && AllChunks(b)
    requires Preimages(h, a) + Preimages(h, b) <= s && CollisionFreeOn(h, s)
    requires Root(NodeOf(h), Hashes(h, a)) == Root(NodeOf(h), Hashes(h, b))
    ensures a == b
    decreases |a|
  {
    EqualRootsSplit(h, a, b, s);
    if |a| > 1 && |b| > 1 {
      var i, j := SplitPoint(|a|), SplitPoint(|b|);
      HalvesOfChunks(h, a, i, s);
      HalvesOfChunks(h, b, j, s);
      RootBindsChunks(h, a[..i], b[..j], s);
      RootBindsChunks(h, a[i..], b[j..], s);
      Rejoin(a, i, b, j);
    }
  }

  lemma {:induction false} HalvesAgree(a: Bytes, b: Bytes, c: Bytes, d: Bytes)
    requires a + b == c + d && |a| == |c|
    ensures a == c && b == d
  {
    assert (a + b)[..|a|] == a && (c + d)[..|c|] == c;
    assert (a + b)[|a|..] == b && (c + d)[|c|..] == d;
  }

  lemma {:induction false} WholeChunks(data: Bytes)
    requires |data| % CHUNK == 0
    ensures AllChunks(Slices(data, CHUNK))
    decreases |data|
  {
    if |data| > CHUNK {
      WholeChunks(data[CHUNK..]);
    }
  }

  lemma {:induction false} SlicesDetermine(a: Bytes, b: Bytes, w: nat)
    requires w > 0 && Slices(a, w) == Slices(b, w)
    ensures a == b
    decreases |a|
  {
    if |a| > 0 && |b| > 0 {
      assert Slices(a, w)[0] == Slices(b, w)[0];
      if |a| > w && |b| > w {
        assert Slices(a, w)[1..] == Slices(a[w..], w) && Slices(b, w)[1..] == Slices(b[w..], w);
        SlicesDetermine(a[w..], b[w..], w);
        assert a == a[..w] + a[w..] && b == b[..w] + b[w..];
      } else {
        assert |Slices(a, w)| == |Slices(b, w)|;
      }
    }
  }

  /** Two contents share a file root exactly when their padded bytes are the same. */
  lemma {:induction false} FileRootBindsPaddedBytes(h: Hash, a: Bytes, b: Bytes)
    requires IsHash32(h)
    requires CollisionFreeOn(h, Preimages(h, Slices(Padded(a), CHUNK)) + Preimages(h, Slices(Padded(b), CHUNK)))
    ensures FileRoot(h, a) == FileRoot(h, b) <==> Padded(a) == Padded(b)
  {
    FileRootIsFlat(h, a);
    FileRootIsFlat(h, b);
    if FileRoot(h, a) == FileRoot(h, b) {
      var ca, cb := Slices(Padded(a), CHUNK), Slices(Padded(b), CHUNK);
      WholeChunks(Padded(a));
      WholeChunks(Padded(b));
      RootBindsChunks(h, ca, cb, Preimages(h, ca) + Preimages(h, cb));
      SlicesDetermine(Padded(a), Padded(b), CHUNK);
    }
  }

  /** The length is not committed: a root is shared exactly by contents that differ in trailing zeros within the padding. */
  lemma {:induction false} FileRootForgetsTrailingZeros(h: Hash, a: Bytes, b: Bytes)
    requires IsHash32(h) && |a| <= |b|
    requires CollisionFreeOn(h, Preimages(h, Slices(Padded(a), CHUNK)) + Preimages(h, Slices(Padded(b), CHUNK)))
    ensures FileRoot(h, a) == FileRoot(h, b)
            <==> PaddedSize(|a|) == PaddedSize(|b|) && b == a + Radix.Zeros(|b| - |a|)
  {
    FileRootBindsPaddedBytes(h, a, b);
    if Padded(a) == Padded(b) {
      assert b == Padded(b)[..|b|] == Padded(a)[..|b|];
    } else if b == a + Radix.Zeros(|b| - |a|) {
      assert PaddedSize(|a|) == PaddedSize(|b|) ==> Padded(a) == Padded(b);
    }
  }

  /** So the root alone does not identify a content: no bytes and one zero byte share it. */
  lemma {:induction false} EmptyAndZeroShareARoot(h: Hash)
    ensures FileRoot(h, []) == FileRoot(h, [0])
  {
    assert PaddedSize(0) == PaddedSize(1) == CHUNK;
    assert Padded([]) == Padded([0]);
  }

  /** The root of three chunks, written out: the last of them is filled up with zeros. */
  lemma {:induction false} FileRootOfThree(h: Hash, content: Bytes)
    requires 512 < |content| <= 768
    ensures var a, b, c := content[..256], content[256..512], content[512..] + Radix.Zeros(768 - |content|);
      FileRoot(h, content) == h(h(h(a) + h(b)) + h(c))
  {
    var a, b, c := content[..256], content[256..512], content[512..] + Radix.Zeros(768 - |content|);
    var data := Padded(content);
    PaddedSizeExactly(|content|, 3);
    assert data == a + b + c;
    assert data[256..][..256] == b && data[256..][256..] == c;
    assert Slices(c, 256) == [c];
    assert Slices(data[256..], 256) == [b] + Slices(c, 256) == [b, c];
    assert data[..256] == a;
    assert Slices(data, 256) == [a] + Slices(data[256..], 256) == [a, b, c];
    FileRootIsFlat(h, content);
    assert ChunkLeaves(h, data) == [h(a), h(b), h(c)];
    SmallRoots(NodeOf(h), h(a), h(b), h(c));
  }
}
