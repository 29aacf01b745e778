/** A cluster chain: the clusters of one file or directory, named by its
    start cluster (0 for a chain with no clusters), together with the
    cluster size and the device offset of cluster 2.  The table it lives
    in is passed to every operation and returned changed. */
module ClusterChain {
  import opened Bytes
  import opened Wrappers
  import FatType
  import Fat
  import Device
  import ByteBuffer

  datatype Chain = Chain(start: int, clusterSize: int, dataOffset: int)

  /** The chain's clusters read from the table are a chain of data
      clusters, or the chain is empty. */
  ghost predicate Sound(f: Fat.Fat, c: Chain)
  {
    c.start == 0 || (Fat.GetChain(f, c.start).Ok? && Fat.DataChain(f, Fat.GetChain(f, c.start).value))
  }

  /** `ClusterChain(fat, startCluster, readOnly)`: a non-zero start cluster
      must be a valid cluster number whose entry is in use. */
  function Open(f: Fat.Fat, start: int, clusterSize: int, dataOffset: int): (r: Result<Chain>)
    ensures r.Ok? <==> start == 0 || (Fat.FIRST_CLUSTER <= start < |f.entries| && f.entries[start] != 0)
    ensures r.Err? ==> r.fault == (if Fat.FIRST_CLUSTER <= start < |f.entries| then ClusterIsFree else InvalidCluster)
    ensures r.Ok? ==> r.value.start == start && r.value.clusterSize == clusterSize && r.value.dataOffset == dataOffset
  {
    if start != 0 && !(Fat.FIRST_CLUSTER <= start < |f.entries|) then Err(InvalidCluster)
    else if start != 0 && f.entries[start] == 0 then Err(ClusterIsFree)
    else Ok(Chain(start, clusterSize, dataOffset))
  }

  /** `getChainLength`: 0 for an empty chain, else the number of clusters
      `getChain` walks. */
  function ChainLength(f: Fat.Fat, c: Chain): (r: Result<nat>)
    ensures c.start == 0 ==> r == Ok(0)
    ensures Sound(f, c) ==> r.Ok?
  {
    if c.start == 0 then Ok(0)
    else
      match Fat.GetChain(f, c.start)
      case Err(e) => Err(e)
      case Ok(cs) => Ok(|cs|)
  }

  /** A counted chain exists, and every chain from its first cluster has
      as many clusters as counted. */
  lemma ChainLengthCounts(f: Fat.Fat, c: Chain)
    requires c.start != 0 && ChainLength(f, c).Ok?
    ensures exists cs :: Fat.IsChain(f, c.start, cs)
    ensures forall cs :: Fat.IsChain(f, c.start, cs) ==> |cs| == ChainLength(f, c).value
  {
    var cs := Fat.GetChain(f, c.start).value;
    forall other | Fat.IsChain(f, c.start, other)
      ensures |other| == |cs|
    {
      Fat.ChainUnique(f, c.start, cs, other);
    }
  }

  /** `getLengthOnDisk`: the bytes the chain's clusters hold. */
  function LengthOnDisk(f: Fat.Fat, c: Chain): (r: Result<int>)
    ensures r.Ok? <==> ChainLength(f, c).Ok?
    ensures r.Ok? ==> r.value == ChainLength(f, c).value * c.clusterSize
    ensures c.start == 0 ==> r == Ok(0)
  {
    if c.start == 0 then Ok(0)
    else
      match ChainLength(f, c)
      case Err(e) => Err(e)
      case Ok(n) => Ok(n * c.clusterSize)
  }

  // ------------------------------------------------------------ resizing

  /** A table that agrees with `f` on the entries of a chain's clusters
      holds the same chain. */
  lemma ChainFrame(f: Fat.Fat, g: Fat.Fat, s: int, cs: seq<int>)
    requires Fat.IsChain(f, s, cs) && g.kind == f.kind && |g.entries| == |f.entries|
    requires forall i :: 0 <= i < |cs| ==> g.entries[cs[i]] == f.entries[cs[i]]
    ensures Fat.IsChain(g, s, cs)
  {
    forall i | 0 <= i < |cs| - 1
      ensures Fat.Linked(g, cs, i)
    {
      assert Fat.Linked(f, cs, i);
    }
  }

  /** One `allocAppend(startCluster)` on a data chain with a free cluster
      left: the chain gains one data cluster and the free count drops by
      one. */
  lemma GrowStep(f: Fat.Fat, s: int)
    requires f.Valid()
    ensures Growable(f, s, 1) ==>
              && Fat.AllocAppend(f, s).Ok?
              && var (g, n) := Fat.AllocAppend(f, s).value;
                 && Fat.GetChain(g, s) == Ok(Fat.GetChain(f, s).value + [n])
                 && Fat.DataChain(g, Fat.GetChain(f, s).value + [n])
                 && Fat.FreeCount(g) == Fat.FreeCount(f) - 1
  {
    if Growable(f, s, 1) {
      var cs := Fat.GetChain(f, s).value;
      Fat.AllocAppendExtends(f, cs, 0);
      var (g, n) := Fat.AllocAppend(f, s).value;
      Fat.GetChainComplete(g, s, cs + [n]);
    }
  }

  /** The chain from `s` is a data chain, the cluster numbers stay below
      the end-of-chain values, and `count` clusters are free. */
  ghost predicate Growable(f: Fat.Fat, s: int, count: nat)
    requires f.Valid()
  {
    && Fat.GetChain(f, s).Ok? && Fat.DataChain(f, Fat.GetChain(f, s).value)
    && f.lastClusterIndex <= FatType.EofCluster(f.kind)
    && count <= Fat.FreeCount(f)
  }

  /** `h` holds the chain from `s` in `f` lengthened by `count` data
      clusters, with `count` fewer free clusters. */
  ghost predicate Grown(f: Fat.Fat, s: int, count: nat, h: Fat.Fat)
    requires f.Valid() && h.Valid() && Fat.GetChain(f, s).Ok?
  {
    && Fat.GetChain(h, s).Ok?
    && var before, after := Fat.GetChain(f, s).value, Fat.GetChain(h, s).value;
       && |after| == |before| + count && after[..|before|] == before
       && Fat.DataChain(h, after)
       && Fat.FreeCount(h) == Fat.FreeCount(f) - count
  }

  /** The growing loop of `setChainLength`: `count` times
      `allocAppend(startCluster)`, each walking the chain from its start.
      A failure leaves the clusters appended so far in place. */
  function Grow(f: Fat.Fat, s: int, count: nat): (r: Partial<Fat.Fat, ()>)
    requires f.Valid()
    ensures r.state.Valid() && r.state == f.(entries := r.state.entries, cursor := r.state.cursor)
    ensures |r.state.entries| == |f.entries|
    ensures r.Aborted? ==> r.fault in {InvalidCluster, CorruptChain, FatFull}
    ensures Growable(f, s, count) ==> r.Done? && Grown(f, s, count, r.state)
    decreases count
  {
    if count == 0 then
      assert Growable(f, s, count) ==> Grown(f, s, count, f) by {
        if Growable(f, s, count) {
          var cs := Fat.GetChain(f, s).value;
          assert cs[..|cs|] == cs;
        }
      }
      Done(f, ())
    else
      match Fat.AllocAppend(f, s)
      case Err(e) =>
        GrowStep(f, s);
        Aborted(f, e)
      case Ok(p) =>
        var r := Grow(p.0, s, count - 1);
        GrowInduct(f, s, count, p.0, p.1, r);
        r
  }

  /** The inductive step of `Grow`. */
  lemma GrowInduct(f: Fat.Fat, s: int, count: nat, g: Fat.Fat, n: int, r: Partial<Fat.Fat, ()>)
    requires f.Valid() && g.Valid() && r.state.Valid() && count > 0
    requires Fat.AllocAppend(f, s) == Ok((g, n))
    requires Growable(g, s, count - 1) ==> r.Done? && Grown(g, s, count - 1, r.state)
    ensures Growable(f, s, count) ==> r.Done? && Grown(f, s, count, r.state)
  {
    if Growable(f, s, count) {
      GrowStep(f, s);
      var before := Fat.GetChain(f, s).value;
      assert Growable(g, s, count - 1);
      var after := Fat.GetChain(r.state, s).value;
      assert after[..|before|] == after[..|before| + 1][..|before|];
    }
  }

  /** `setFree` on each cluster in order; a cluster number out of range
      stops the loop with the earlier ones already freed. */
  function FreeAll(f: Fat.Fat, cs: seq<int>): (r: Partial<Fat.Fat, ()>)
    requires f.Valid()
    ensures r.state.Valid() && r.state == f.(entries := r.state.entries)
    ensures |r.state.entries| == |f.entries|
    ensures r.Done? <==> forall i :: 0 <= i < |cs| ==> Fat.FIRST_CLUSTER <= cs[i] < |f.entries|
    ensures r.Aborted? ==> r.fault == InvalidCluster
    ensures r.Done? ==> forall i :: 0 <= i < |cs| ==> r.state.entries[cs[i]] == 0
    ensures forall i :: 0 <= i < |f.entries| && i !in cs ==> r.state.entries[i] == f.entries[i]
    decreases |cs|
  {
    if cs == [] then Done(f, ())
    else
      match Fat.SetFree(f, cs[0])
      case Err(e) => Aborted(f, e)
      case Ok(g) =>
        var r := FreeAll(g, cs[1..]);
        assert forall i :: 1 <= i < |cs| ==> cs[i] == cs[1..][i - 1];
        if r.Done? then
          assert r.state.entries[cs[0]] == 0 by {
            if cs[0] in cs[1..] {
              var j :| 0 <= j < |cs[1..]| && cs[1..][j] == cs[0];
            }
          }
          r
        else r
  }

  /** Ending a chain early: entry `n - 1` becomes an end-of-chain value
      and the entries before it keep their links. */
  lemma TruncateChain(f: Fat.Fat, g: Fat.Fat, cs: seq<int>, n: nat)
    requires 0 < n <= |cs| && Fat.IsChain(f, cs[0], cs)
    requires g.kind == f.kind && |g.entries| == |f.entries|
    requires Fat.IsEof(g, g.entries[cs[n - 1]])
    requires forall i :: 0 <= i < n - 1 ==> g.entries[cs[i]] == f.entries[cs[i]]
    ensures Fat.IsChain(g, cs[0], cs[..n])
  {
    var t := cs[..n];
    forall i | 0 <= i < |t| - 1
      ensures Fat.Linked(g, t, i)
    {
      assert Fat.Linked(f, cs, i);
    }
  }

  /** The shrinking branch of `setChainLength` for `0 < n < |cs|`: ends the
      chain at `cs[n - 1]` and frees the clusters after it. */
  function Shrink(f: Fat.Fat, cs: seq<int>, n: nat): (r: Partial<Fat.Fat, ()>)
    requires f.Valid() && 0 < n < |cs|
    ensures r.state.Valid() && r.state == f.(entries := r.state.entries)
    ensures |r.state.entries| == |f.entries|
    ensures r.Aborted? ==> r.fault == InvalidCluster
    ensures Fat.DataChain(f, cs) ==>
              && r.Done?
              && Fat.GetChain(r.state, cs[0]) == Ok(cs[..n])
              && Fat.DataChain(r.state, cs[..n])
              && (forall i :: n <= i < |cs| ==> Fat.IsFree(r.state, cs[i]))
  {
    match Fat.SetEof(f, cs[n - 1])
    case Err(e) => Aborted(f, e)
    case Ok(g) =>
      var r := FreeAll(g, cs[n..]);
      ShrinkKeepsHead(f, cs, n, g, r.state);
      r
  }

  /** After `Shrink`, the first `n` clusters still form the chain. */
  lemma ShrinkKeepsHead(f: Fat.Fat, cs: seq<int>, n: nat, g: Fat.Fat, h: Fat.Fat)
    requires f.Valid() && 0 < n < |cs|
    requires Fat.SetEof(f, cs[n - 1]) == Ok(g)
    requires FreeAll(g, cs[n..]).state == h
    ensures Fat.DataChain(f, cs) ==>
              && FreeAll(g, cs[n..]).Done?
              && Fat.GetChain(h, cs[0]) == Ok(cs[..n])
              && Fat.DataChain(h, cs[..n])
              && (forall i :: n <= i < |cs| ==> Fat.IsFree(h, cs[i]))
  {
    if Fat.DataChain(f, cs) {
      ShrinkFrees(f, cs, n, g, h);
      Fat.ChainDistinct(f, cs[0], cs);
      TruncateChain(f, g, cs, n);
      forall i | 0 <= i < n
        ensures cs[i] !in cs[n..]
      {
        assert forall j :: n <= j < |cs| ==> cs[j] != cs[i];
      }
      ChainFrame(g, h, cs[0], cs[..n]);
      Fat.GetChainComplete(h, cs[0], cs[..n]);
    }
  }

  /** After `Shrink`, the clusters past the first `n` are free. */
  lemma ShrinkFrees(f: Fat.Fat, cs: seq<int>, n: nat, g: Fat.Fat, h: Fat.Fat)
    requires f.Valid() && 0 < n < |cs| && Fat.DataChain(f, cs)
    requires Fat.SetEof(f, cs[n - 1]) == Ok(g)
    requires FreeAll(g, cs[n..]).state == h
    ensures FreeAll(g, cs[n..]).Done?
    ensures forall i :: n <= i < |cs| ==> Fat.IsFree(h, cs[i])
  {
    assert forall i :: n <= i < |cs| ==> cs[i] == cs[n..][i - n];
  }

  /** A table operation's outcome with the chain it leaves. */
  function WithChain(r: Partial<Fat.Fat, ()>, c: Chain): (q: Partial<(Fat.Fat, Chain), ()>)
    ensures q.state == (r.state, c) && q.Done? == r.Done?
    ensures q.Aborted? ==> q.fault == r.fault
  {
    match r
    case Done(g, _) => Done((g, c), ())
    case Aborted(g, e) => Aborted((g, c), e)
  }

  /** `setChainLength(nrClusters)`: a negative count is refused; an empty
      chain is given `nrClusters` new clusters by `allocNew(n)`; a chain
      with clusters is walked once and then grown by appending, cut short
      by marking the new last cluster end-of-chain and freeing the rest,
      or, for a count of 0, freed entirely and emptied. */
  function SetChainLength(f: Fat.Fat, c: Chain, n: int): (r: Partial<(Fat.Fat, Chain), ()>)
    requires f.Valid()
    ensures r.state.0.Valid() && r.state.0 == f.(entries := r.state.0.entries, cursor := r.state.0.cursor)
    ensures |r.state.0.entries| == |f.entries|
    ensures r.state.1 == c.(start := r.state.1.start)
    ensures r.Aborted? && r.fault == NegativeCount <==> n < 0
    ensures n < 0 ==> r.state == (f, c)
    ensures r.Aborted? ==> r.state.1 == c
  {
    if n < 0 then Aborted((f, c), NegativeCount)
    else if c.start == 0 && n == 0 then Done((f, c), ())
    else if c.start == 0 then
      match Fat.AllocNewN(f, n)
      case Done(g, rc) => Done((g, c.(start := rc[0])), ())
      case Aborted(g, e) => Aborted((g, c), e)
    else
      match Fat.GetChain(f, c.start)
      case Err(e) => Aborted((f, c), e)
      case Ok(cs) => Resize(f, c, cs, n)
  }

  /** The branch of `setChainLength` for a chain with clusters `cs`. */
  function Resize(f: Fat.Fat, c: Chain, cs: seq<int>, n: nat): (r: Partial<(Fat.Fat, Chain), ()>)
    requires f.Valid() && |cs| > 0
    ensures r.state.0.Valid() && r.state.0 == f.(entries := r.state.0.entries, cursor := r.state.0.cursor)
    ensures |r.state.0.entries| == |f.entries|
    ensures r.state.1 == c.(start := r.state.1.start)
    ensures r.Aborted? ==> r.fault != NegativeCount && r.state.1 == c
  {
    if n == |cs| then Done((f, c), ())
    else if n > |cs| then WithChain(Grow(f, c.start, n - |cs|), c)
    else if n > 0 then WithChain(Shrink(f, cs, n), c)
    else
      match FreeAll(f, cs)
      case Done(g, _) => Done((g, c.(start := 0)), ())
      case Aborted(g, e) => Aborted((g, c), e)
  }

  /** The conditions under which `setChainLength(n)` succeeds: a
      non-negative count, a chain that reads back as data clusters, cluster
      numbers below the end-of-chain values, and enough free clusters for
      the growth. */
  ghost predicate Resizable(f: Fat.Fat, c: Chain, n: int)
    requires f.Valid()
  {
    && n >= 0 && f.lastClusterIndex <= FatType.EofCluster(f.kind) && Sound(f, c)
    && (c.start == 0 ==> n <= Fat.FreeCount(f))
    && (c.start != 0 ==> n - |Fat.GetChain(f, c.start).value| <= Fat.FreeCount(f))
  }

  /** `h` and `d` hold a sound chain of `n` clusters that keeps the first
      clusters of the chain `c` had in `f`, and the clusters added were
      taken from the free ones. */
  ghost predicate Resized(f: Fat.Fat, c: Chain, n: nat, h: Fat.Fat, d: Chain)
    requires f.Valid() && h.Valid() && Sound(f, c)
  {
    && Sound(h, d) && ChainLength(h, d) == Ok(n)
    && (d.start == 0 <==> n == 0)
    && var before := ChainLength(f, c).value;
       && (c.start != 0 && n > 0 ==>
             && d.start == c.start
             && var m := if n < before then n else before;
                Fat.GetChain(h, d.start).value[..m] == Fat.GetChain(f, c.start).value[..m])
       && (n >= before ==> Fat.FreeCount(h) == Fat.FreeCount(f) - (n - before))
  }

  /** `setChainLength(n)` on a resizable chain succeeds and leaves a chain
      of exactly `n` clusters. */
  lemma SetChainLengthResizes(f: Fat.Fat, c: Chain, n: int)
    requires f.Valid() && Resizable(f, c, n)
    ensures SetChainLength(f, c, n).Done?
    ensures var r := SetChainLength(f, c, n); Resized(f, c, n, r.state.0, r.state.1)
  {
    if c.start == 0 {
      ResizeEmpty(f, c, n);
    } else {
      var cs := Fat.GetChain(f, c.start).value;
      if n > |cs| {
        ResizeGrow(f, c, n);
        GrowBranch(f, c, n);
      } else if n == |cs| {
        assert cs[..n] == cs;
      } else if n > 0 {
        ResizeShrink(f, c, n);
        ShrinkBranch(f, c, n);
      } else {
        ResizeFree(f, c);
      }
    }
  }

  /** The case of `SetChainLengthResizes` for an empty chain. */
  lemma ResizeEmpty(f: Fat.Fat, c: Chain, n: int)
    requires f.Valid() && Resizable(f, c, n) && c.start == 0
    ensures SetChainLength(f, c, n).Done?
    ensures var r := SetChainLength(f, c, n); Resized(f, c, n, r.state.0, r.state.1)
  {
    if n > 0 {
      Fat.AllocNewNChain(f, n);
    }
  }

  /** The case of `SetChainLengthResizes` for growing a chain. */
  lemma ResizeGrow(f: Fat.Fat, c: Chain, n: int)
    requires f.Valid() && Resizable(f, c, n) && c.start != 0
    requires n > |Fat.GetChain(f, c.start).value|
    ensures var g := Grow(f, c.start, n - |Fat.GetChain(f, c.start).value|);
            g.Done? && Resized(f, c, n, g.state, c)
  {
    var cs := Fat.GetChain(f, c.start).value;
    assert Growable(f, c.start, n - |cs|);
    var g := Grow(f, c.start, n - |cs|);
    var h := g.state;
    assert Grown(f, c.start, n - |cs|, h);
    LengthOfChain(f, c);
    LengthOfChain(h, c);
    var after := Fat.GetChain(h, c.start).value;
    assert |after| == n;
    assert after[..|cs|] == cs;
  }

  /** `ChainLength` of a non-empty chain is the length of the walk. */
  lemma LengthOfChain(f: Fat.Fat, c: Chain)
    requires c.start != 0 && Fat.GetChain(f, c.start).Ok?
    ensures ChainLength(f, c) == Ok(|Fat.GetChain(f, c.start).value|)
  {
  }

  /** `SetChainLength` past the current length takes the growing branch. */
  lemma GrowBranch(f: Fat.Fat, c: Chain, n: int)
    requires f.Valid() && c.start != 0 && Fat.GetChain(f, c.start).Ok?
    requires n > |Fat.GetChain(f, c.start).value|
    ensures SetChainLength(f, c, n) == WithChain(Grow(f, c.start, n - |Fat.GetChain(f, c.start).value|), c)
  {
    assert SetChainLength(f, c, n) == Resize(f, c, Fat.GetChain(f, c.start).value, n);
  }

  /** The case of `SetChainLengthResizes` for shortening a chain to a
      positive length. */
  lemma ResizeShrink(f: Fat.Fat, c: Chain, n: int)
    requires f.Valid() && Resizable(f, c, n) && c.start != 0
    requires 0 < n < |Fat.GetChain(f, c.start).value|
    ensures var g := Shrink(f, Fat.GetChain(f, c.start).value, n);
            g.Done? && Resized(f, c, n, g.state, c)
  {
    var cs := Fat.GetChain(f, c.start).value;
    var h := Shrink(f, cs, n).state;
    assert Fat.GetChain(h, c.start).value == cs[..n];
    LengthOfChain(f, c);
    LengthOfChain(h, c);
    assert cs[..n][..n] == cs[..n];
  }

  /** `SetChainLength` below the current length, but above 0, takes the
      shrinking branch. */
  lemma ShrinkBranch(f: Fat.Fat, c: Chain, n: int)
    requires f.Valid() && c.start != 0 && Fat.GetChain(f, c.start).Ok?
    requires 0 < n < |Fat.GetChain(f, c.start).value|
    ensures SetChainLength(f, c, n) == WithChain(Shrink(f, Fat.GetChain(f, c.start).value, n), c)
  {
    assert SetChainLength(f, c, n) == Resize(f, c, Fat.GetChain(f, c.start).value, n);
  }

  /** The case of `SetChainLengthResizes` for freeing a whole chain. */
  lemma ResizeFree(f: Fat.Fat, c: Chain)
    requires f.Valid() && Resizable(f, c, 0) && c.start != 0
    ensures SetChainLength(f, c, 0).Done?
    ensures var r := SetChainLength(f, c, 0); Resized(f, c, 0, r.state.0, r.state.1)
  {
  }

  /** The cluster count `setSize(size)` asks for: `size` rounded up to
      whole clusters with C's truncating division. */
  function ClustersFor(size: int, clusterSize: int): int
    requires clusterSize != 0
  {
    CDiv(size + clusterSize - 1, clusterSize)
  }

  /** For a non-negative size the cluster count covers the size with less
      than one cluster to spare. */
  lemma RoundUp(size: int, clusterSize: int)
    requires size >= 0 && clusterSize > 0
    ensures var n := ClustersFor(size, clusterSize);
            n >= 0 && size <= n * clusterSize < size + clusterSize
  {
    var a := size + clusterSize - 1;
    assert a == (a / clusterSize) * clusterSize + a % clusterSize;
  }

  /** `setSize(size)`: the rounded-up cluster count is refused above
      `INT_MAX`, narrowed to `int` and handed to `setChainLength`; the
      result is the count times the cluster size. */
  function SetSize(f: Fat.Fat, c: Chain, size: int): (r: Partial<(Fat.Fat, Chain), int>)
    requires f.Valid() && c.clusterSize != 0
    ensures r.state.0.Valid() && r.state.0 == f.(entries := r.state.0.entries, cursor := r.state.0.cursor)
    ensures |r.state.0.entries| == |f.entries|
    ensures r.state.1 == c.(start := r.state.1.start)
    ensures ClustersFor(size, c.clusterSize) > INT_MAX ==> r == Aborted((f, c), TooManyClusters)
    ensures r.Done? ==> r.value == c.clusterSize * ClustersFor(size, c.clusterSize)
  {
    var n := ClustersFor(size, c.clusterSize);
    if n > INT_MAX then Aborted((f, c), TooManyClusters)
    else
      match SetChainLength(f, c, Int32(n))
      case Done(s, _) => Done(s, c.clusterSize * n)
      case Aborted(s, e) => Aborted(s, e)
  }

  /** `setSize` on a resizable chain succeeds; the chain then holds the
      size rounded up to whole clusters, and its length on disk is the
      value returned. */
  lemma SetSizeResizes(f: Fat.Fat, c: Chain, size: int)
    requires f.Valid() && size >= 0 && c.clusterSize > 0
    requires ClustersFor(size, c.clusterSize) <= INT_MAX
    requires Resizable(f, c, ClustersFor(size, c.clusterSize))
    ensures var r := SetSize(f, c, size);
            && r.Done? && Resized(f, c, ClustersFor(size, c.clusterSize), r.state.0, r.state.1)
            && size <= r.value < size + c.clusterSize
            && LengthOnDisk(r.state.0, r.state.1) == Ok(r.value)
  {
    var n := ClustersFor(size, c.clusterSize);
    RoundUp(size, c.clusterSize);
    SetChainLengthResizes(f, c, n);
    var r := SetSize(f, c, size);
    assert r.state == SetChainLength(f, c, n).state;
  }

  // ------------------------------------------------------- data transfer

  /** `getDevOffset(cluster, clusterOffset)`: where a byte of a cluster
      lies on the device. */
  function DevOffset(c: Chain, cluster: int, clusOfs: int): int
  {
    c.dataOffset + clusOfs + Times(cluster - Fat.FIRST_CLUSTER, c.clusterSize)
  }

  /** `a / m` for a non-negative `a`, by repeated subtraction, and the
      matching remainder.  Chain positions go through them for the same
      reason device offsets go through `Times`; `QuotRemIs` gives the
      operators back. */
  function Quot(a: nat, m: int): nat
    requires m > 0
    decreases a
  {
    if a < m then 0 else 1 + Quot(a - m, m)
  }

  function Rem(a: nat, m: int): (r: int)
    requires m > 0
    ensures 0 <= r < m
    decreases a
  {
    if a < m then a else Rem(a - m, m)
  }

  lemma {:induction false} QuotRemIs(a: nat, m: int)
    requires m > 0
    ensures Quot(a, m) == a / m && Rem(a, m) == a % m
    decreases a
  {
    if a >= m {
      QuotRemIs(a - m, m);
      assert a == (a - m) / m * m + (a - m) % m + m;
      SplitUnique(a / m, a % m, (a - m) / m + 1, (a - m) % m, m);
    }
  }

  /** Device offset `x` lies in cluster `cluster`. */
  predicate InCluster(c: Chain, cluster: int, x: int)
  {
    DevOffset(c, cluster, 0) <= x < DevOffset(c, cluster, 0) + c.clusterSize
  }

  /** Distinct clusters occupy disjoint device ranges. */
  lemma ClustersApart(c: Chain, a: int, b: int, x: int)
    requires c.clusterSize > 0 && a != b && InCluster(c, a, x)
    ensures !InCluster(c, b, x)
  {
    if InCluster(c, b, x) {
      TimesIs(a - Fat.FIRST_CLUSTER, c.clusterSize);
      TimesIs(b - Fat.FIRST_CLUSTER, c.clusterSize);
      var m, base := c.clusterSize, x - c.dataOffset;
      SplitUnique(a - Fat.FIRST_CLUSTER, base - (a - Fat.FIRST_CLUSTER) * m,
                  b - Fat.FIRST_CLUSTER, base - (b - Fat.FIRST_CLUSTER) * m, m);
    }
  }

  /** Device offset `x` lies in none of the clusters `cs[i..]`. */
  ghost predicate Outside(c: Chain, cs: seq<int>, i: nat, x: int)
  {
    forall j :: i <= j < |cs| ==> !InCluster(c, cs[j], x)
  }

  /** The clusters of `cs` are pairwise distinct. */
  predicate Distinct(cs: seq<int>)
  {
    forall i, j :: 0 <= i < j < |cs| ==> cs[i] != cs[j]
  }

  /** The size of the piece that starts at byte `k` of a cluster when
      `len` bytes are left: up to the cluster boundary, at most `len`. */
  function PieceSize(c: Chain, k: int, len: int): (size: int)
    ensures size <= len && size <= c.clusterSize - k
    ensures size == len || size == c.clusterSize - k
  {
    Min(len, c.clusterSize - k)
  }

  /** The checks one device transfer of a piece makes: the chain reaches
      cluster index `i`, and the device offset plus the buffer's
      `remaining()` (capacity minus position) lies within the device. */
  predicate PieceFits(c: Chain, cs: seq<int>, i: nat, k: int, pos: int, cap: int, devSize: int)
  {
    && i < |cs|
    && 0 <= DevOffset(c, cs[i], k)
    && DevOffset(c, cs[i], k) + (cap - pos) <= devSize
  }

  /** The checks of the whole-cluster loop of `readData`/`writeData` for
      `len` bytes from cluster index `i` and buffer position `pos`. */
  predicate RunFits(c: Chain, cs: seq<int>, i: nat, len: int, pos: int, cap: int, devSize: int)
    requires c.clusterSize > 0
    decreases len
  {
    var size := PieceSize(c, 0, len);
    len <= 0 || (PieceFits(c, cs, i, 0, pos, cap, devSize) && RunFits(c, cs, i + 1, len - size, pos + size, cap, devSize))
  }

  /** The checks of a whole transfer from byte `k` of cluster index `i`: a
      leading piece up to the cluster boundary when `k` is not 0, then the
      loop. */
  predicate SpanFits(c: Chain, cs: seq<int>, i: nat, k: int, len: int, pos: int, cap: int, devSize: int)
    requires 0 <= k < c.clusterSize
  {
    var size := PieceSize(c, k, len);
    if k != 0 then PieceFits(c, cs, i, k, pos, cap, devSize) && RunFits(c, cs, i + 1, len - size, pos + size, cap, devSize)
    else RunFits(c, cs, i, len, pos, cap, devSize)
  }

  /** The `size` bytes from byte `k` of cluster index `i` lie in a cluster
      of `cs` and inside a device of `devSize` bytes. */
  predicate PieceOnDevice(devSize: int, c: Chain, cs: seq<int>, i: nat, k: int, size: int)
  {
    i < |cs| && 0 <= DevOffset(c, cs[i], k) && DevOffset(c, cs[i], k) + size <= devSize
  }

  /** The device bytes of such a piece. */
  function Piece(d: Device.Device, c: Chain, cs: seq<int>, i: nat, k: int, size: nat): (r: seq<Byte>)
    requires PieceOnDevice(|d.data|, c, cs, i, k, size)
    ensures |r| == size
  {
    var off := DevOffset(c, cs[i], k);
    d.data[off..off + size]
  }

  /** The `len` chain bytes from byte `k` of cluster index `i` onwards lie
      in clusters of `cs` and inside a device of `devSize` bytes. */
  predicate OnDevice(devSize: int, c: Chain, cs: seq<int>, i: nat, k: int, len: int)
    requires 0 <= k < c.clusterSize
    decreases len
  {
    var size := PieceSize(c, k, len);
    len <= 0 || (PieceOnDevice(devSize, c, cs, i, k, size) && OnDevice(devSize, c, cs, i + 1, 0, len - size))
  }

  /** The device bytes of the `len` chain bytes from byte `k` of cluster
      index `i` onwards, in chain order. */
  function Span(d: Device.Device, c: Chain, cs: seq<int>, i: nat, k: int, len: nat): (r: seq<Byte>)
    requires 0 <= k < c.clusterSize && OnDevice(|d.data|, c, cs, i, k, len)
    ensures |r| == len
    decreases len
  {
    if len == 0 then []
    else
      var size := PieceSize(c, k, len);
      Piece(d, c, cs, i, k, size) + Span(d, c, cs, i + 1, 0, len - size)
  }

  /** A non-empty span is its first piece followed by the span from the
      start of the next cluster. */
  lemma SpanCons(d: Device.Device, c: Chain, cs: seq<int>, i: nat, k: int, len: nat, size: nat)
    requires 0 <= k < c.clusterSize && len > 0 && size == PieceSize(c, k, len)
    requires PieceOnDevice(|d.data|, c, cs, i, k, size) && OnDevice(|d.data|, c, cs, i + 1, 0, len - size)
    ensures OnDevice(|d.data|, c, cs, i, k, len)
    ensures Span(d, c, cs, i, k, len) == Piece(d, c, cs, i, k, size) + Span(d, c, cs, i + 1, 0, len - size)
  {
  }

  // ---------------------------------------------------------- reading

  /** One device read of `size` bytes from byte `k` of cluster index `i`
      into the buffer at its position, after setting the limit to position
      plus `size`.  An index past the chain reads outside the chain vector
      in the source; a negative device offset seeks before the image. */
  function ReadPiece(d: Device.Device, c: Chain, cs: seq<int>, i: nat, k: int, size: nat, b: ByteBuffer.Buffer): (r: Result<ByteBuffer.Buffer>)
    requires 0 <= b.pos && b.pos + size <= b.Capacity()
    ensures r.Ok? <==> PieceFits(c, cs, i, k, b.pos, b.Capacity(), |d.data|)
    ensures r.Err? ==> r.fault in {LengthBeyondChain, DevicePastEnd}
    ensures r.Ok? ==> r.value.pos == b.pos + size && r.value.Capacity() == b.Capacity()
  {
    if i >= |cs| then Err(LengthBeyondChain)
    else
      var off := DevOffset(c, cs[i], k);
      if off < 0 then Err(DevicePastEnd)
      else Device.Read(d, off, ByteBuffer.SetLimit(b, b.pos + size))
  }

  /** A successful piece read puts the piece's device bytes at the buffer
      position. */
  lemma ReadPieceReads(d: Device.Device, c: Chain, cs: seq<int>, i: nat, k: int, size: nat, b: ByteBuffer.Buffer)
    requires 0 <= b.pos && b.pos + size <= b.Capacity()
    requires ReadPiece(d, c, cs, i, k, size, b).Ok?
    ensures PieceOnDevice(|d.data|, c, cs, i, k, size)
    ensures ReadPiece(d, c, cs, i, k, size, b).value.buf == Device.Splice(b.buf, b.pos, Piece(d, c, cs, i, k, size))
  {
  }

  /** The whole-cluster loop of `readData`: from cluster index `i`, pieces
      of `min(clusterSize, len)` bytes until `len` is used up. */
  function ReadRun(d: Device.Device, c: Chain, cs: seq<int>, i: nat, len: nat, b: ByteBuffer.Buffer): (r: Result<ByteBuffer.Buffer>)
    requires c.clusterSize > 0 && 0 <= b.pos && b.pos + len <= b.Capacity()
    ensures r.Err? ==> r.fault in {LengthBeyondChain, DevicePastEnd}
    ensures r.Ok? ==> r.value.pos == b.pos + len && r.value.Capacity() == b.Capacity()
    decreases len
  {
    if len == 0 then Ok(b)
    else
      var size := PieceSize(c, 0, len);
      match ReadPiece(d, c, cs, i, 0, size, b)
      case Err(e) => Err(e)
      case Ok(b1) => ReadRun(d, c, cs, i + 1, len - size, b1)
  }

  /** `ReadRun` succeeds exactly when every piece passes the device
      checks. */
  lemma {:induction false} ReadRunFits(d: Device.Device, c: Chain, cs: seq<int>, i: nat, len: nat, b: ByteBuffer.Buffer)
    requires c.clusterSize > 0 && 0 <= b.pos && b.pos + len <= b.Capacity()
    ensures ReadRun(d, c, cs, i, len, b).Ok? <==> RunFits(c, cs, i, len, b.pos, b.Capacity(), |d.data|)
    decreases len
  {
    if len > 0 {
      var size := PieceSize(c, 0, len);
      var p := ReadPiece(d, c, cs, i, 0, size, b);
      if p.Ok? {
        ReadRunFits(d, c, cs, i + 1, len - size, p.value);
      }
    }
  }

  /** One turn of the whole-cluster loop: the first piece of `size` bytes
      leaves the buffer `b1`, and the run goes on from the next cluster. */
  ghost predicate ReadStep(d: Device.Device, c: Chain, cs: seq<int>, i: nat, len: nat, b: ByteBuffer.Buffer, size: nat, b1: ByteBuffer.Buffer)
    requires c.clusterSize > 0 && 0 <= b.pos && b.pos + len <= b.Capacity()
  {
    && size == PieceSize(c, 0, len) && 0 < size <= len
    && ReadPiece(d, c, cs, i, 0, size, b) == Ok(b1)
    && b1.pos == b.pos + size && b1.Capacity() == b.Capacity()
    && ReadRun(d, c, cs, i, len, b) == ReadRun(d, c, cs, i + 1, len - size, b1)
  }

  /** The first turn of a successful run with something left to read. */
  lemma ReadRunStep(d: Device.Device, c: Chain, cs: seq<int>, i: nat, len: nat, b: ByteBuffer.Buffer)
      returns (size: nat, b1: ByteBuffer.Buffer)
    requires c.clusterSize > 0 && 0 <= b.pos && b.pos + len <= b.Capacity() && len > 0
    requires ReadRun(d, c, cs, i, len, b).Ok?
    ensures 0 < size <= len && b1.pos == b.pos + size && b1.Capacity() == b.Capacity()
    ensures ReadStep(d, c, cs, i, len, b, size, b1)
  {
    size := PieceSize(c, 0, len);
    b1 := ReadPiece(d, c, cs, i, 0, size, b).value;
  }

  /** What `ReadRunReads` states, as one fact about a run. */
  ghost predicate ReadsSpan(d: Device.Device, c: Chain, cs: seq<int>, i: nat, len: nat, b: ByteBuffer.Buffer)
    requires c.clusterSize > 0 && 0 <= b.pos && b.pos + len <= b.Capacity()
  {
    ReadRun(d, c, cs, i, len, b).Ok? ==>
      && OnDevice(|d.data|, c, cs, i, 0, len)
      && ReadRun(d, c, cs, i, len, b).value.buf == Device.Splice(b.buf, b.pos, Span(d, c, cs, i, 0, len))
  }

  /** The inductive step of `ReadRunSpans`: the first piece followed by
      the rest of the run fills the whole span. */
  lemma ReadRunJoin(d: Device.Device, c: Chain, cs: seq<int>, i: nat, len: nat, b: ByteBuffer.Buffer, size: nat, b1: ByteBuffer.Buffer)
    requires c.clusterSize > 0 && 0 <= b.pos && b.pos + len <= b.Capacity() && len > 0
    requires 0 < size <= len && b1.pos == b.pos + size && b1.Capacity() == b.Capacity()
    requires ReadStep(d, c, cs, i, len, b, size, b1)
    requires ReadRun(d, c, cs, i, len, b).Ok?
    requires ReadsSpan(d, c, cs, i + 1, len - size, b1)
    ensures ReadsSpan(d, c, cs, i, len, b)
  {
    ReadPieceReads(d, c, cs, i, 0, size, b);
    SpanCons(d, c, cs, i, 0, len, size);
    Device.SpliceChain(b.buf, b.pos, Piece(d, c, cs, i, 0, size), Span(d, c, cs, i + 1, 0, len - size), b1.buf, b1.pos,
                       ReadRun(d, c, cs, i + 1, len - size, b1).value.buf, Span(d, c, cs, i, 0, len));
  }

  /** `ReadsSpan` holds of every run, by induction on its length. */
  lemma {:induction false} ReadRunSpans(d: Device.Device, c: Chain, cs: seq<int>, i: nat, len: nat, b: ByteBuffer.Buffer)
    requires c.clusterSize > 0 && 0 <= b.pos && b.pos + len <= b.Capacity()
    ensures ReadsSpan(d, c, cs, i, len, b)
    decreases len
  {
    if len == 0 {
      Device.SpliceNothing(b.buf, b.pos);
    } else if ReadRun(d, c, cs, i, len, b).Ok? {
      var size, b1 := ReadRunStep(d, c, cs, i, len, b);
      ReadRunSpans(d, c, cs, i + 1, len - size, b1);
      ReadRunJoin(d, c, cs, i, len, b, size, b1);
    }
  }

  /** A successful `ReadRun` puts the device bytes of the `len` chain bytes
      from cluster index `i` at the buffer position and changes no other
      buffer byte. */
  lemma ReadRunReads(d: Device.Device, c: Chain, cs: seq<int>, i: nat, len: nat, b: ByteBuffer.Buffer)
    requires c.clusterSize > 0 && 0 <= b.pos && b.pos + len <= b.Capacity()
    requires ReadRun(d, c, cs, i, len, b).Ok?
    ensures OnDevice(|d.data|, c, cs, i, 0, len)
    ensures ReadRun(d, c, cs, i, len, b).value.buf == Device.Splice(b.buf, b.pos, Span(d, c, cs, i, 0, len))
  {
    ReadRunSpans(d, c, cs, i, len, b);
  }

  /** The pieces of `readData` once the chain is known: a leading piece
      from byte `k` up to the cluster boundary when `k` is not 0, then the
      whole-cluster loop from the next cluster. */
  function ReadFrom(d: Device.Device, c: Chain, cs: seq<int>, i: nat, k: int, len: nat, b: ByteBuffer.Buffer): (r: Result<ByteBuffer.Buffer>)
    requires 0 <= k < c.clusterSize && 0 <= b.pos && b.pos + len <= b.Capacity()
    ensures r.Err? ==> r.fault in {LengthBeyondChain, DevicePastEnd}
    ensures r.Ok? ==> r.value.pos == b.pos + len && r.value.Capacity() == b.Capacity()
  {
    if k != 0 then
      var size := PieceSize(c, k, len);
      match ReadPiece(d, c, cs, i, k, size, b)
      case Err(e) => Err(e)
      case Ok(b1) => ReadRun(d, c, cs, i + 1, len - size, b1)
    else ReadRun(d, c, cs, i, len, b)
  }

  /** `ReadFrom` succeeds exactly when every piece passes the device
      checks. */
  lemma ReadFromFits(d: Device.Device, c: Chain, cs: seq<int>, i: nat, k: int, len: nat, b: ByteBuffer.Buffer)
    requires 0 <= k < c.clusterSize && 0 <= b.pos && b.pos + len <= b.Capacity()
    ensures ReadFrom(d, c, cs, i, k, len, b).Ok? <==> SpanFits(c, cs, i, k, len, b.pos, b.Capacity(), |d.data|)
  {
    if k != 0 {
      var size := PieceSize(c, k, len);
      var p := ReadPiece(d, c, cs, i, k, size, b);
      if p.Ok? {
        ReadRunFits(d, c, cs, i + 1, len - size, p.value);
      }
    } else {
      ReadRunFits(d, c, cs, i, len, b);
    }
  }

  /** A successful `ReadFrom` puts the span's device bytes at the buffer
      position and changes no other buffer byte. */
  lemma ReadFromReads(d: Device.Device, c: Chain, cs: seq<int>, i: nat, k: int, len: nat, b: ByteBuffer.Buffer)
    requires 0 <= k < c.clusterSize && 0 <= b.pos && b.pos + len <= b.Capacity()
    requires ReadFrom(d, c, cs, i, k, len, b).Ok?
    ensures OnDevice(|d.data|, c, cs, i, k, len)
    ensures ReadFrom(d, c, cs, i, k, len, b).value.buf == Device.Splice(b.buf, b.pos, Span(d, c, cs, i, k, len))
  {
    if k == 0 {
      ReadRunReads(d, c, cs, i, len, b);
    } else if len == 0 {
      ReadLeadEmpty(d, c, cs, i, k, b);
    } else {
      ReadLeadReads(d, c, cs, i, k, len, b);
    }
  }

  /** The case of `ReadFromReads` with a non-empty leading piece. */
  lemma ReadLeadReads(d: Device.Device, c: Chain, cs: seq<int>, i: nat, k: int, len: nat, b: ByteBuffer.Buffer)
    requires 0 < k < c.clusterSize && 0 <= b.pos && b.pos + len <= b.Capacity() && len > 0
    requires ReadFrom(d, c, cs, i, k, len, b).Ok?
    ensures OnDevice(|d.data|, c, cs, i, k, len)
    ensures ReadFrom(d, c, cs, i, k, len, b).value.buf == Device.Splice(b.buf, b.pos, Span(d, c, cs, i, k, len))
  {
    var size := PieceSize(c, k, len);
    var b1 := ReadPiece(d, c, cs, i, k, size, b).value;
    ReadRunSpans(d, c, cs, i + 1, len - size, b1);
    ReadLeadJoin(d, c, cs, i, k, len, b, size, b1);
  }

  /** An empty read with a leading piece reads nothing. */
  lemma ReadLeadEmpty(d: Device.Device, c: Chain, cs: seq<int>, i: nat, k: int, b: ByteBuffer.Buffer)
    requires 0 < k < c.clusterSize && 0 <= b.pos <= b.Capacity()
    requires ReadFrom(d, c, cs, i, k, 0, b).Ok?
    ensures ReadFrom(d, c, cs, i, k, 0, b).value.buf == b.buf
  {
    ReadPieceReads(d, c, cs, i, k, 0, b);
    Device.SpliceNothing(b.buf, b.pos);
  }

  /** The leading piece followed by the whole-cluster loop fills the whole
      span. */
  lemma ReadLeadJoin(d: Device.Device, c: Chain, cs: seq<int>, i: nat, k: int, len: nat, b: ByteBuffer.Buffer, size: nat, b1: ByteBuffer.Buffer)
    requires 0 < k < c.clusterSize && 0 <= b.pos && b.pos + len <= b.Capacity() && len > 0
    requires size == PieceSize(c, k, len) && ReadPiece(d, c, cs, i, k, size, b) == Ok(b1)
    requires b1.pos == b.pos + size && b1.Capacity() == b.Capacity()
    requires ReadRun(d, c, cs, i + 1, len - size, b1).Ok? && ReadsSpan(d, c, cs, i + 1, len - size, b1)
    ensures OnDevice(|d.data|, c, cs, i, k, len)
    ensures ReadRun(d, c, cs, i + 1, len - size, b1).value.buf == Device.Splice(b.buf, b.pos, Span(d, c, cs, i, k, len))
  {
    ReadPieceReads(d, c, cs, i, k, size, b);
    SpanCons(d, c, cs, i, k, len, size);
    Device.SpliceChain(b.buf, b.pos, Piece(d, c, cs, i, k, size), Span(d, c, cs, i + 1, 0, len - size), b1.buf, b1.pos,
                       ReadRun(d, c, cs, i + 1, len - size, b1).value.buf, Span(d, c, cs, i, k, len));
  }

  /** `readData(offset, dest)`: reads the buffer's `remaining()` bytes from
      chain byte `offset` on, first a piece up to the next cluster boundary
      when `offset` lies inside a cluster, then whole-cluster pieces.  An
      empty chain refuses a non-empty read, and an empty read from it still
      fails in `getChain(0)`. */
  function ReadData(f: Fat.Fat, d: Device.Device, c: Chain, offset: nat, b: ByteBuffer.Buffer): (r: Result<ByteBuffer.Buffer>)
    requires c.clusterSize > 0 && 0 <= b.pos <= b.Capacity()
    ensures r.Err? ==> r.fault in {EmptyChain, InvalidCluster, CorruptChain, LengthBeyondChain, DevicePastEnd}
    ensures c.start == 0 ==> r.Err?
    ensures r.Ok? ==> r.value.pos == b.Capacity() && r.value.Capacity() == b.Capacity()
    ensures r.Ok? ==> Fat.GetChain(f, c.start).Ok?
    ensures Fat.GetChain(f, c.start).Ok? && (c.start != 0 || b.pos == b.Capacity()) ==>
              r == ReadFrom(d, c, Fat.GetChain(f, c.start).value, Quot(offset, c.clusterSize), Rem(offset, c.clusterSize), b.Capacity() - b.pos, b)
  {
    var len := b.Capacity() - b.pos;
    if c.start == 0 && len > 0 then Err(EmptyChain)
    else
      match Fat.GetChain(f, c.start)
      case Err(e) => Err(e)
      case Ok(cs) => ReadFrom(d, c, cs, Quot(offset, c.clusterSize), Rem(offset, c.clusterSize), len, b)
  }

  // ---------------------------------------------------------- writing

  /** One device write of `size` bytes from the buffer position to byte `k`
      of cluster index `i`, after setting the limit to position plus
      `size`; the checks are those of `ReadPiece`. */
  function WritePiece(d: Device.Device, c: Chain, cs: seq<int>, i: nat, k: int, size: nat, b: ByteBuffer.Buffer): (r: Result<(Device.Device, ByteBuffer.Buffer)>)
    requires 0 <= b.pos && b.pos + size <= b.Capacity()
    ensures r.Ok? <==> PieceFits(c, cs, i, k, b.pos, b.Capacity(), |d.data|)
    ensures r.Err? ==> r.fault in {LengthBeyondChain, DevicePastEnd}
    ensures r.Ok? ==> |r.value.0.data| == |d.data| && r.value.1.buf == b.buf && r.value.1.pos == b.pos + size
  {
    if i >= |cs| then Err(LengthBeyondChain)
    else
      var off := DevOffset(c, cs[i], k);
      if off < 0 then Err(DevicePastEnd)
      else Device.Write(d, off, ByteBuffer.SetLimit(b, b.pos + size))
  }

  /** A successful piece write stores the `size` buffer bytes from the
      position at the piece's device offset. */
  lemma WritePieceWrites(d: Device.Device, c: Chain, cs: seq<int>, i: nat, k: int, size: nat, b: ByteBuffer.Buffer)
    requires 0 <= b.pos && b.pos + size <= b.Capacity()
    requires WritePiece(d, c, cs, i, k, size, b).Ok?
    ensures PieceOnDevice(|d.data|, c, cs, i, k, size)
    ensures WritePiece(d, c, cs, i, k, size, b).value.0.data == Device.Splice(d.data, DevOffset(c, cs[i], k), b.buf[b.pos..b.pos + size])
  {
  }

  /** `e` has the length of `d` and agrees with it on every byte outside
      the clusters `cs[i..]`. */
  ghost predicate Kept(d: Device.Device, e: Device.Device, c: Chain, cs: seq<int>, i: nat)
  {
    && |e.data| == |d.data|
    && forall x :: 0 <= x < |d.data| && Outside(c, cs, i, x) ==> e.data[x] == d.data[x]
  }

  /** Keeping the bytes outside `cs[i..]` and then those outside
      `cs[i + 1..]` keeps the bytes outside `cs[i..]`. */
  lemma KeptThen(d: Device.Device, d1: Device.Device, e: Device.Device, c: Chain, cs: seq<int>, i: nat)
    requires Kept(d, d1, c, cs, i) && Kept(d1, e, c, cs, i + 1)
    ensures Kept(d, e, c, cs, i)
  {
    forall x | 0 <= x < |d.data| && Outside(c, cs, i, x)
      ensures e.data[x] == d.data[x]
    {
      assert Outside(c, cs, i + 1, x);
    }
  }

  /** A piece that ends at or before its cluster boundary lies in its
      cluster. */
  lemma PieceInCluster(c: Chain, cluster: int, k: int, size: nat, x: int)
    requires 0 <= k && k + size <= c.clusterSize
    requires DevOffset(c, cluster, k) <= x < DevOffset(c, cluster, k) + size
    ensures InCluster(c, cluster, x)
  {
  }

  /** A piece write changes no byte outside the piece's cluster. */
  lemma WritePieceKeeps(d: Device.Device, c: Chain, cs: seq<int>, i: nat, k: int, size: nat, b: ByteBuffer.Buffer)
    requires 0 <= k && k + size <= c.clusterSize && 0 <= b.pos && b.pos + size <= b.Capacity()
    requires WritePiece(d, c, cs, i, k, size, b).Ok?
    ensures Kept(d, WritePiece(d, c, cs, i, k, size, b).value.0, c, cs, i)
  {
    WritePieceWrites(d, c, cs, i, k, size, b);
    var off := DevOffset(c, cs[i], k);
    Device.SpliceAt(d.data, off, b.buf[b.pos..b.pos + size]);
    var e := WritePiece(d, c, cs, i, k, size, b).value.0;
    forall x | 0 <= x < |d.data| && Outside(c, cs, i, x)
      ensures e.data[x] == d.data[x]
    {
      if off <= x < off + size {
        PieceInCluster(c, cs[i], k, size, x);
      }
    }
  }

  /** The whole-cluster loop of `writeData`.  A failing piece ends the
      loop with the earlier pieces already on the device. */
  function WriteRun(d: Device.Device, c: Chain, cs: seq<int>, i: nat, len: nat, b: ByteBuffer.Buffer): (r: Partial<Device.Device, ByteBuffer.Buffer>)
    requires c.clusterSize > 0 && 0 <= b.pos && b.pos + len <= b.Capacity()
    ensures |r.state.data| == |d.data|
    ensures r.Aborted? ==> r.fault in {LengthBeyondChain, DevicePastEnd}
    ensures r.Done? ==> r.value.buf == b.buf && r.value.pos == b.pos + len
    decreases len
  {
    if len == 0 then Done(d, b)
    else
      var size := PieceSize(c, 0, len);
      match WritePiece(d, c, cs, i, 0, size, b)
      case Err(e) => Aborted(d, e)
      case Ok(p) => WriteRun(p.0, c, cs, i + 1, len - size, p.1)
  }

  /** `WriteRun` completes exactly when every piece passes the device
      checks, the same checks as `ReadRun`. */
  lemma {:induction false} WriteRunFits(d: Device.Device, c: Chain, cs: seq<int>, i: nat, len: nat, b: ByteBuffer.Buffer)
    requires c.clusterSize > 0 && 0 <= b.pos && b.pos + len <= b.Capacity()
    ensures WriteRun(d, c, cs, i, len, b).Done? <==> RunFits(c, cs, i, len, b.pos, b.Capacity(), |d.data|)
    decreases len
  {
    if len > 0 {
      var size := PieceSize(c, 0, len);
      var p := WritePiece(d, c, cs, i, 0, size, b);
      if p.Ok? {
        WriteRunFits(p.value.0, c, cs, i + 1, len - size, p.value.1);
      }
    }
  }

  /** Whatever its outcome, `WriteRun` changes no byte outside the clusters
      `cs[i..]`. */
  lemma {:induction false} WriteRunKeeps(d: Device.Device, c: Chain, cs: seq<int>, i: nat, len: nat, b: ByteBuffer.Buffer)
    requires c.clusterSize > 0 && 0 <= b.pos && b.pos + len <= b.Capacity()
    ensures Kept(d, WriteRun(d, c, cs, i, len, b).state, c, cs, i)
    decreases len
  {
    if len > 0 {
      var size := PieceSize(c, 0, len);
      var p := WritePiece(d, c, cs, i, 0, size, b);
      if p.Ok? {
        WritePieceKeeps(d, c, cs, i, 0, size, b);
        WriteRunKeeps(p.value.0, c, cs, i + 1, len - size, p.value.1);
        KeptThen(d, p.value.0, WriteRun(d, c, cs, i, len, b).state, c, cs, i);
      }
    }
  }

  /** One turn of the whole-cluster write loop. */
  ghost predicate WriteStep(d: Device.Device, c: Chain, cs: seq<int>, i: nat, len: nat, b: ByteBuffer.Buffer, size: nat, d1: Device.Device, b1: ByteBuffer.Buffer)
    requires c.clusterSize > 0 && 0 <= b.pos && b.pos + len <= b.Capacity()
  {
    && size == PieceSize(c, 0, len) && 0 < size <= len
    && WritePiece(d, c, cs, i, 0, size, b) == Ok((d1, b1))
    && b1.pos == b.pos + size && b1.buf == b.buf && |d1.data| == |d.data|
    && WriteRun(d, c, cs, i, len, b) == WriteRun(d1, c, cs, i + 1, len - size, b1)
  }

  /** The first turn of a completed write loop with something left to
      write. */
  lemma WriteRunStep(d: Device.Device, c: Chain, cs: seq<int>, i: nat, len: nat, b: ByteBuffer.Buffer)
      returns (size: nat, d1: Device.Device, b1: ByteBuffer.Buffer)
    requires c.clusterSize > 0 && 0 <= b.pos && b.pos + len <= b.Capacity() && len > 0
    requires WriteRun(d, c, cs, i, len, b).Done?
    ensures 0 < size <= len && b1.pos == b.pos + size && b1.buf == b.buf && |d1.data| == |d.data|
    ensures WriteStep(d, c, cs, i, len, b, size, d1, b1)
  {
    size := PieceSize(c, 0, len);
    var p := WritePiece(d, c, cs, i, 0, size, b).value;
    d1, b1 := p.0, p.1;
  }

  /** What `WriteRunWrites` states, as one fact about a run. */
  ghost predicate WritesSpan(d: Device.Device, c: Chain, cs: seq<int>, i: nat, len: nat, b: ByteBuffer.Buffer)
    requires c.clusterSize > 0 && 0 <= b.pos && b.pos + len <= b.Capacity()
  {
    WriteRun(d, c, cs, i, len, b).Done? ==>
      && OnDevice(|d.data|, c, cs, i, 0, len)
      && Span(WriteRun(d, c, cs, i, len, b).state, c, cs, i, 0, len) == b.buf[b.pos..b.pos + len]
  }

  /** A piece stays on the device while later writes keep to the other
      clusters of a chain with distinct clusters. */
  lemma PieceKept(d: Device.Device, e: Device.Device, c: Chain, cs: seq<int>, i: nat, k: int, size: nat)
    requires 0 <= k && k + size <= c.clusterSize && Distinct(cs)
    requires PieceOnDevice(|d.data|, c, cs, i, k, size) && Kept(d, e, c, cs, i + 1)
    ensures PieceOnDevice(|e.data|, c, cs, i, k, size)
    ensures Piece(e, c, cs, i, k, size) == Piece(d, c, cs, i, k, size)
  {
    var off := DevOffset(c, cs[i], k);
    forall x | off <= x < off + size
      ensures e.data[x] == d.data[x]
    {
      PieceInCluster(c, cs[i], k, size, x);
      forall j | i + 1 <= j < |cs|
        ensures !InCluster(c, cs[j], x)
      {
        ClustersApart(c, cs[i], cs[j], x);
      }
      assert Outside(c, cs, i + 1, x);
    }
  }

  /** After the first piece and the rest of a run, the first piece's
      cluster still holds the bytes written to it. */
  lemma FirstPieceStays(d: Device.Device, c: Chain, cs: seq<int>, i: nat, k: int, size: nat, b: ByteBuffer.Buffer, d1: Device.Device, e: Device.Device)
    requires 0 <= k && k + size <= c.clusterSize && Distinct(cs) && 0 <= b.pos && b.pos + size <= b.Capacity()
    requires WritePiece(d, c, cs, i, k, size, b).Ok? && WritePiece(d, c, cs, i, k, size, b).value.0 == d1
    requires Kept(d1, e, c, cs, i + 1)
    ensures PieceOnDevice(|e.data|, c, cs, i, k, size)
    ensures Piece(e, c, cs, i, k, size) == b.buf[b.pos..b.pos + size]
  {
    WritePieceWrites(d, c, cs, i, k, size, b);
    Device.SpliceSlice(d.data, DevOffset(c, cs[i], k), b.buf[b.pos..b.pos + size]);
    PieceKept(d1, e, c, cs, i, k, size);
  }

  /** The inductive step of `WriteRunSpans`. */
  lemma WriteRunJoin(d: Device.Device, c: Chain, cs: seq<int>, i: nat, len: nat, b: ByteBuffer.Buffer, size: nat, d1: Device.Device, b1: ByteBuffer.Buffer)
    requires c.clusterSize > 0 && 0 <= b.pos && b.pos + len <= b.Capacity() && len > 0 && Distinct(cs)
    requires 0 < size <= len && b1.pos == b.pos + size && b1.buf == b.buf && |d1.data| == |d.data|
    requires WriteStep(d, c, cs, i, len, b, size, d1, b1) && WriteRun(d, c, cs, i, len, b).Done?
    requires WritesSpan(d1, c, cs, i + 1, len - size, b1)
    ensures WritesSpan(d, c, cs, i, len, b)
  {
    WriteRunKeeps(d1, c, cs, i + 1, len - size, b1);
    var e := WriteRun(d1, c, cs, i + 1, len - size, b1).state;
    FirstPieceStays(d, c, cs, i, 0, size, b, d1, e);
    SpanBytes(e, c, cs, i, 0, len, size, b.buf, b.pos);
  }

  /** A piece holding the first `size` of `len` bytes followed by a span
      holding the rest makes a span holding all `len`. */
  lemma SpanBytes(e: Device.Device, c: Chain, cs: seq<int>, i: nat, k: int, len: nat, size: nat, s: seq<Byte>, p: nat)
    requires 0 <= k < c.clusterSize && len > 0 && size == PieceSize(c, k, len) && p + len <= |s|
    requires PieceOnDevice(|e.data|, c, cs, i, k, size) && Piece(e, c, cs, i, k, size) == s[p..p + size]
    requires OnDevice(|e.data|, c, cs, i + 1, 0, len - size) && Span(e, c, cs, i + 1, 0, len - size) == s[p + size..p + len]
    ensures OnDevice(|e.data|, c, cs, i, k, len)
    ensures Span(e, c, cs, i, k, len) == s[p..p + len]
  {
    SpanCons(e, c, cs, i, k, len, size);
    assert s[p..p + len] == s[p..p + size] + s[p + size..p + len];
  }

  /** `WritesSpan` holds of every run on a chain with distinct clusters. */
  lemma {:induction false} WriteRunSpans(d: Device.Device, c: Chain, cs: seq<int>, i: nat, len: nat, b: ByteBuffer.Buffer)
    requires c.clusterSize > 0 && 0 <= b.pos && b.pos + len <= b.Capacity() && Distinct(cs)
    ensures WritesSpan(d, c, cs, i, len, b)
    decreases len
  {
    if len > 0 && WriteRun(d, c, cs, i, len, b).Done? {
      var size, d1, b1 := WriteRunStep(d, c, cs, i, len, b);
      WriteRunSpans(d1, c, cs, i + 1, len - size, b1);
      WriteRunJoin(d, c, cs, i, len, b, size, d1, b1);
    }
  }

  /** A completed `WriteRun` on a chain with distinct clusters leaves the
      `len` buffer bytes from the position as the device bytes of the
      `len` chain bytes from cluster index `i`. */
  lemma WriteRunWrites(d: Device.Device, c: Chain, cs: seq<int>, i: nat, len: nat, b: ByteBuffer.Buffer)
    requires c.clusterSize > 0 && 0 <= b.pos && b.pos + len <= b.Capacity() && Distinct(cs)
    requires WriteRun(d, c, cs, i, len, b).Done?
    ensures OnDevice(|d.data|, c, cs, i, 0, len)
    ensures Span(WriteRun(d, c, cs, i, len, b).state, c, cs, i, 0, len) == b.buf[b.pos..b.pos + len]
  {
    WriteRunSpans(d, c, cs, i, len, b);
  }

  /** The transfer of `writeData` from byte `k` of cluster index `i`: a
      leading piece up to the cluster boundary when `k` is not 0, then the
      whole-cluster loop. */
  function WriteFrom(d: Device.Device, c: Chain, cs: seq<int>, i: nat, k: int, len: nat, b: ByteBuffer.Buffer): (r: Partial<Device.Device, ByteBuffer.Buffer>)
    requires 0 <= k < c.clusterSize && 0 <= b.pos && b.pos + len <= b.Capacity()
    ensures |r.state.data| == |d.data|
    ensures r.Aborted? ==> r.fault in {LengthBeyondChain, DevicePastEnd}
    ensures r.Done? ==> r.value.buf == b.buf && r.value.pos == b.pos + len
  {
    if k != 0 then
      var size := PieceSize(c, k, len);
      match WritePiece(d, c, cs, i, k, size, b)
      case Err(e) => Aborted(d, e)
      case Ok(p) => WriteRun(p.0, c, cs, i + 1, len - size, p.1)
    else WriteRun(d, c, cs, i, len, b)
  }

  /** `WriteFrom` completes exactly when every piece passes the device
      checks: the same condition under which `ReadFrom` succeeds. */
  lemma WriteFromFits(d: Device.Device, c: Chain, cs: seq<int>, i: nat, k: int, len: nat, b: ByteBuffer.Buffer)
    requires 0 <= k < c.clusterSize && 0 <= b.pos && b.pos + len <= b.Capacity()
    ensures WriteFrom(d, c, cs, i, k, len, b).Done? <==> SpanFits(c, cs, i, k, len, b.pos, b.Capacity(), |d.data|)
  {
    if k != 0 {
      var size := PieceSize(c, k, len);
      var p := WritePiece(d, c, cs, i, k, size, b);
      if p.Ok? {
        WriteRunFits(p.value.0, c, cs, i + 1, len - size, p.value.1);
      }
    } else {
      WriteRunFits(d, c, cs, i, len, b);
    }
  }

  /** Whatever its outcome, `WriteFrom` changes no device byte outside the
      clusters `cs[i..]`. */
  lemma WriteFromKeeps(d: Device.Device, c: Chain, cs: seq<int>, i: nat, k: int, len: nat, b: ByteBuffer.Buffer)
    requires 0 <= k < c.clusterSize && 0 <= b.pos && b.pos + len <= b.Capacity()
    ensures Kept(d, WriteFrom(d, c, cs, i, k, len, b).state, c, cs, i)
  {
    if k != 0 {
      var size := PieceSize(c, k, len);
      var p := WritePiece(d, c, cs, i, k, size, b);
      if p.Ok? {
        WritePieceKeeps(d, c, cs, i, k, size, b);
        WriteRunKeeps(p.value.0, c, cs, i + 1, len - size, p.value.1);
        KeptThen(d, p.value.0, WriteFrom(d, c, cs, i, k, len, b).state, c, cs, i);
      }
    } else {
      WriteRunKeeps(d, c, cs, i, len, b);
    }
  }

  /** A completed `WriteFrom` on a chain with distinct clusters leaves the
      `len` buffer bytes from the position as the device bytes of the span
      from byte `k` of cluster index `i`. */
  lemma WriteFromWrites(d: Device.Device, c: Chain, cs: seq<int>, i: nat, k: int, len: nat, b: ByteBuffer.Buffer)
    requires 0 <= k < c.clusterSize && 0 <= b.pos && b.pos + len <= b.Capacity() && Distinct(cs)
    requires WriteFrom(d, c, cs, i, k, len, b).Done?
    ensures OnDevice(|d.data|, c, cs, i, k, len)
    ensures Span(WriteFrom(d, c, cs, i, k, len, b).state, c, cs, i, k, len) == b.buf[b.pos..b.pos + len]
  {
    if k == 0 {
      WriteRunWrites(d, c, cs, i, len, b);
    } else if len > 0 {
      WriteLeadWrites(d, c, cs, i, k, len, b);
    }
  }

  /** The case of `WriteFromWrites` with a non-empty leading piece. */
  lemma WriteLeadWrites(d: Device.Device, c: Chain, cs: seq<int>, i: nat, k: int, len: nat, b: ByteBuffer.Buffer)
    requires 0 < k < c.clusterSize && 0 <= b.pos && b.pos + len <= b.Capacity() && Distinct(cs) && len > 0
    requires WriteFrom(d, c, cs, i, k, len, b).Done?
    ensures OnDevice(|d.data|, c, cs, i, k, len)
    ensures Span(WriteFrom(d, c, cs, i, k, len, b).state, c, cs, i, k, len) == b.buf[b.pos..b.pos + len]
  {
    var size, d1, b1 := WriteLeadStep(d, c, cs, i, k, len, b);
    var e := WriteRunResult(d1, c, cs, i + 1, len - size, b1);
    WriteLeadJoin(d, c, cs, i, k, len, b, size, d1, b1, e);
  }

  /** The leading piece of a completed `WriteFrom` and what is left for
      the whole-cluster loop. */
  lemma WriteLeadStep(d: Device.Device, c: Chain, cs: seq<int>, i: nat, k: int, len: nat, b: ByteBuffer.Buffer)
      returns (size: nat, d1: Device.Device, b1: ByteBuffer.Buffer)
    requires 0 < k < c.clusterSize && 0 <= b.pos && b.pos + len <= b.Capacity()
    requires WriteFrom(d, c, cs, i, k, len, b).Done?
    ensures size == PieceSize(c, k, len) && size <= len
    ensures WritePiece(d, c, cs, i, k, size, b).Ok? && WritePiece(d, c, cs, i, k, size, b).value.0 == d1
    ensures b1.pos == b.pos + size && b1.buf == b.buf && |d1.data| == |d.data|
    ensures WriteRun(d1, c, cs, i + 1, len - size, b1).Done?
    ensures WriteFrom(d, c, cs, i, k, len, b).state == WriteRun(d1, c, cs, i + 1, len - size, b1).state
  {
    size := PieceSize(c, k, len);
    var p := WritePiece(d, c, cs, i, k, size, b).value;
    d1, b1 := p.0, p.1;
  }

  /** `e` keeps the bytes of `d` outside the clusters `cs[i..]` and holds
      the `len` buffer bytes from the position as the span from cluster
      index `i`. */
  ghost predicate RunResult(d: Device.Device, e: Device.Device, c: Chain, cs: seq<int>, i: nat, len: nat, b: ByteBuffer.Buffer)
    requires c.clusterSize > 0 && 0 <= b.pos && b.pos + len <= b.Capacity()
  {
    && Kept(d, e, c, cs, i)
    && OnDevice(|e.data|, c, cs, i, 0, len) && Span(e, c, cs, i, 0, len) == b.buf[b.pos..b.pos + len]
  }

  /** The device a completed `WriteRun` leaves, with what it holds and
      what it keeps. */
  lemma WriteRunResult(d: Device.Device, c: Chain, cs: seq<int>, i: nat, len: nat, b: ByteBuffer.Buffer) returns (e: Device.Device)
    requires c.clusterSize > 0 && 0 <= b.pos && b.pos + len <= b.Capacity() && Distinct(cs)
    requires WriteRun(d, c, cs, i, len, b).Done?
    ensures e == WriteRun(d, c, cs, i, len, b).state && RunResult(d, e, c, cs, i, len, b)
  {
    e := WriteRun(d, c, cs, i, len, b).state;
    WriteRunWrites(d, c, cs, i, len, b);
    WriteRunKeeps(d, c, cs, i, len, b);
  }

  /** The leading piece, followed by a device `e` that keeps it and holds
      the rest of the bytes in the following clusters, holds the whole
      span. */
  lemma WriteLeadJoin(d: Device.Device, c: Chain, cs: seq<int>, i: nat, k: int, len: nat, b: ByteBuffer.Buffer, size: nat, d1: Device.Device, b1: ByteBuffer.Buffer, e: Device.Device)
    requires 0 < k < c.clusterSize && 0 <= b.pos && b.pos + len <= b.Capacity() && Distinct(cs) && len > 0
    requires size == PieceSize(c, k, len) && size <= len
    requires WritePiece(d, c, cs, i, k, size, b).Ok? && WritePiece(d, c, cs, i, k, size, b).value.0 == d1
    requires b1.pos == b.pos + size && b1.buf == b.buf && |d1.data| == |d.data|
    requires RunResult(d1, e, c, cs, i + 1, len - size, b1)
    ensures OnDevice(|d.data|, c, cs, i, k, len)
    ensures Span(e, c, cs, i, k, len) == b.buf[b.pos..b.pos + len]
  {
    FirstPieceStays(d, c, cs, i, k, size, b, d1, e);
    SpanBytes(e, c, cs, i, k, len, size, b.buf, b.pos);
  }

  /** The first step of a non-empty `writeData`: when the chain's length
      on disk is short of `minSize`, `setSize(minSize)` grows it.  On a
      resizable chain it succeeds and leaves a sound chain of at least
      `minSize` bytes. */
  method Extend(f: Fat.Fat, c: Chain, minSize: int) returns (r: Partial<(Fat.Fat, Chain), ()>)
    requires f.Valid() && c.clusterSize > 0
    ensures r.state.0.Valid() && r.state.0 == f.(entries := r.state.0.entries, cursor := r.state.0.cursor)
    ensures r.state.1 == c.(start := r.state.1.start)
    ensures LengthOnDisk(f, c).Err? ==> r == Aborted((f, c), LengthOnDisk(f, c).fault)
    ensures LengthOnDisk(f, c).Ok? && minSize <= LengthOnDisk(f, c).value ==> r == Done((f, c), ())
    ensures minSize >= 0 && Sound(f, c) && ClustersFor(minSize, c.clusterSize) <= INT_MAX
            && Resizable(f, c, ClustersFor(minSize, c.clusterSize)) ==>
              && r.Done? && Sound(r.state.0, r.state.1)
              && LengthOnDisk(r.state.0, r.state.1).Ok? && minSize <= LengthOnDisk(r.state.0, r.state.1).value
  {
    var onDisk := LengthOnDisk(f, c);
    if onDisk.Err? {
      return Aborted((f, c), onDisk.fault);
    }
    if onDisk.value < minSize {
      var grown := SetSize(f, c, minSize);
      if minSize >= 0 && Sound(f, c) && ClustersFor(minSize, c.clusterSize) <= INT_MAX
         && Resizable(f, c, ClustersFor(minSize, c.clusterSize)) {
        SetSizeResizes(f, c, minSize);
      }
      r := if grown.Done? then Done(grown.state, ()) else Aborted(grown.state, grown.fault);
    } else {
      r := Done((f, c), ());
    }
  }

  /** The rest of a non-empty `writeData` once the chain is long enough:
      the chain's clusters are read again and the transfer runs from chain
      byte `offset`. */
  function Transfer(g: Fat.Fat, c: Chain, d: Device.Device, offset: nat, b: ByteBuffer.Buffer): (r: Partial<(Fat.Fat, Chain, Device.Device), ByteBuffer.Buffer>)
    requires c.clusterSize > 0 && 0 <= b.pos <= b.Capacity()
    ensures r.state.0 == g && r.state.1 == c && |r.state.2.data| == |d.data|
    ensures Fat.GetChain(g, c.start).Err? ==> r == Aborted((g, c, d), Fat.GetChain(g, c.start).fault)
    ensures r.Done? ==> r.value.buf == b.buf && r.value.pos == b.Capacity()
  {
    match Fat.GetChain(g, c.start)
    case Err(e) => Aborted((g, c, d), e)
    case Ok(cs) =>
      match WriteFrom(d, c, cs, Quot(offset, c.clusterSize), Rem(offset, c.clusterSize), b.Capacity() - b.pos, b)
      case Done(e, b2) => Done((g, c, e), b2)
      case Aborted(e, fault) => Aborted((g, c, e), fault)
  }

  /** Bytes kept outside the clusters `cs[j..]` are kept outside the
      clusters `cs[i..]` for any `i <= j`. */
  lemma KeptFrom(d: Device.Device, e: Device.Device, c: Chain, cs: seq<int>, i: nat, j: nat)
    requires i <= j && Kept(d, e, c, cs, j)
    ensures Kept(d, e, c, cs, i)
  {
    forall x | 0 <= x < |d.data| && Outside(c, cs, i, x)
      ensures e.data[x] == d.data[x]
    {
      assert Outside(c, cs, j, x);
    }
  }

  /** The transfer `w` from chain byte `offset` over the clusters `cs` is
      what `Transfer` runs. */
  ghost predicate TransferOf(g: Fat.Fat, c: Chain, d: Device.Device, offset: nat, b: ByteBuffer.Buffer, cs: seq<int>, w: Partial<Device.Device, ByteBuffer.Buffer>)
    requires c.clusterSize > 0 && 0 <= b.pos <= b.Capacity()
  {
    && Fat.GetChain(g, c.start) == Ok(cs)
    && w == WriteFrom(d, c, cs, Quot(offset, c.clusterSize), Rem(offset, c.clusterSize), b.Capacity() - b.pos, b)
    && Transfer(g, c, d, offset, b).state.2 == w.state
    && Transfer(g, c, d, offset, b).Done? == w.Done?
  }

  /** The transfer of a chain whose clusters read back. */
  lemma TransferStep(g: Fat.Fat, c: Chain, d: Device.Device, offset: nat, b: ByteBuffer.Buffer) returns (cs: seq<int>, w: Partial<Device.Device, ByteBuffer.Buffer>)
    requires c.clusterSize > 0 && 0 <= b.pos <= b.Capacity()
    requires Fat.GetChain(g, c.start).Ok?
    ensures Distinct(cs) && TransferOf(g, c, d, offset, b, cs, w)
  {
    cs := Fat.GetChain(g, c.start).value;
    Fat.ChainDistinct(g, c.start, cs);
    w := WriteFrom(d, c, cs, Quot(offset, c.clusterSize), Rem(offset, c.clusterSize), b.Capacity() - b.pos, b);
  }

  /** A transfer that reaches the chain changes no device byte outside
      its clusters. */
  lemma TransferKeeps(g: Fat.Fat, c: Chain, d: Device.Device, offset: nat, b: ByteBuffer.Buffer)
    requires c.clusterSize > 0 && 0 <= b.pos <= b.Capacity()
    requires Fat.GetChain(g, c.start).Ok?
    ensures Kept(d, Transfer(g, c, d, offset, b).state.2, c, Fat.GetChain(g, c.start).value, 0)
  {
    var cs, w := TransferStep(g, c, d, offset, b);
    var i := Quot(offset, c.clusterSize);
    WriteFromKeeps(d, c, cs, i, Rem(offset, c.clusterSize), b.Capacity() - b.pos, b);
    KeptFrom(d, w.state, c, cs, 0, i);
  }

  /** A completed transfer leaves the buffer's `remaining()` bytes as the
      device bytes of the chain from byte `offset` on. */
  lemma TransferWrites(g: Fat.Fat, c: Chain, d: Device.Device, offset: nat, b: ByteBuffer.Buffer)
    requires c.clusterSize > 0 && 0 <= b.pos <= b.Capacity()
    requires Transfer(g, c, d, offset, b).Done?
    ensures Fat.GetChain(g, c.start).Ok?
    ensures var cs, e := Fat.GetChain(g, c.start).value, Transfer(g, c, d, offset, b).state.2;
            var i, k := Quot(offset, c.clusterSize), Rem(offset, c.clusterSize);
            && OnDevice(|e.data|, c, cs, i, k, b.Capacity() - b.pos)
            && Span(e, c, cs, i, k, b.Capacity() - b.pos) == b.buf[b.pos..]
  {
    var cs, w := TransferStep(g, c, d, offset, b);
    var len := b.Capacity() - b.pos;
    WriteFromWrites(d, c, cs, Quot(offset, c.clusterSize), Rem(offset, c.clusterSize), len, b);
    assert b.buf[b.pos..b.pos + len] == b.buf[b.pos..];
  }

  /** After a completed transfer, `readData` from the same offset into a
      buffer with the same position and capacity succeeds and reads back
      the bytes written. */
  lemma TransferThenRead(g: Fat.Fat, c: Chain, d: Device.Device, offset: nat, b: ByteBuffer.Buffer, b2: ByteBuffer.Buffer)
    requires c.clusterSize > 0 && 0 <= b.pos < b.Capacity()
    requires b2.pos == b.pos && b2.Capacity() == b.Capacity()
    requires Transfer(g, c, d, offset, b).Done?
    ensures ReadData(g, Transfer(g, c, d, offset, b).state.2, c, offset, b2).Ok?
    ensures ReadData(g, Transfer(g, c, d, offset, b).state.2, c, offset, b2).value.buf[b.pos..] == b.buf[b.pos..]
  {
    var cs, w := TransferStep(g, c, d, offset, b);
    var i, k, len := Quot(offset, c.clusterSize), Rem(offset, c.clusterSize), b.Capacity() - b.pos;
    TransferWrites(g, c, d, offset, b);
    WriteFromFits(d, c, cs, i, k, len, b);
    ReadBack(g, c, w.state, offset, b2, cs, b.buf[b.pos..]);
  }

  /** `readData` over chain clusters `cs` whose span from `offset` holds
      `s`, passing the checks, reads `s`. */
  lemma ReadBack(g: Fat.Fat, c: Chain, e: Device.Device, offset: nat, b: ByteBuffer.Buffer, cs: seq<int>, s: seq<Byte>)
    requires c.clusterSize > 0 && 0 <= b.pos < b.Capacity() && Fat.GetChain(g, c.start) == Ok(cs)
    requires var i, k, len := Quot(offset, c.clusterSize), Rem(offset, c.clusterSize), b.Capacity() - b.pos;
             && SpanFits(c, cs, i, k, len, b.pos, b.Capacity(), |e.data|)
             && OnDevice(|e.data|, c, cs, i, k, len) && Span(e, c, cs, i, k, len) == s
    ensures ReadData(g, e, c, offset, b).Ok? && ReadData(g, e, c, offset, b).value.buf[b.pos..] == s
  {
    ReadDataFrom(g, c, e, offset, b, cs);
    ReadFromBack(e, c, cs, Quot(offset, c.clusterSize), Rem(offset, c.clusterSize), b.Capacity() - b.pos, b, s);
  }

  /** On a chain whose clusters `cs` read back, `readData` is the transfer
      from chain byte `offset`. */
  lemma ReadDataFrom(g: Fat.Fat, c: Chain, e: Device.Device, offset: nat, b: ByteBuffer.Buffer, cs: seq<int>)
    requires c.clusterSize > 0 && 0 <= b.pos <= b.Capacity() && Fat.GetChain(g, c.start) == Ok(cs)
    ensures ReadData(g, e, c, offset, b) == ReadFrom(e, c, cs, Quot(offset, c.clusterSize), Rem(offset, c.clusterSize), b.Capacity() - b.pos, b)
  {
  }

  /** `ReadFrom` of the rest of a buffer over a span that holds `s` and
      passes the checks reads `s`. */
  lemma ReadFromBack(e: Device.Device, c: Chain, cs: seq<int>, i: nat, k: int, len: nat, b: ByteBuffer.Buffer, s: seq<Byte>)
    requires 0 <= k < c.clusterSize && 0 <= b.pos && b.pos + len == b.Capacity()
    requires SpanFits(c, cs, i, k, len, b.pos, b.Capacity(), |e.data|)
    requires OnDevice(|e.data|, c, cs, i, k, len) && Span(e, c, cs, i, k, len) == s
    ensures ReadFrom(e, c, cs, i, k, len, b).Ok? && ReadFrom(e, c, cs, i, k, len, b).value.buf[b.pos..] == s
  {
    ReadFromFits(e, c, cs, i, k, len, b);
    ReadFromReads(e, c, cs, i, k, len, b);
    Device.SpliceSlice(b.buf, b.pos, s);
  }

  /** `writeData(offset, srcBuf)`: an empty write does nothing; otherwise
      the chain is grown by `Extend` to reach the end of the write, and the
      buffer's `remaining()` bytes are written from chain byte `offset` on,
      in the pieces of `readData`.  The table, the chain and the device
      are returned as the source leaves them, also when a step fails part
      way: no device byte outside the clusters of the resulting chain
      changes.  A completed write reads back: `readData` from the same
      offset into any buffer with the same position and capacity succeeds
      and returns the bytes written. */
  method WriteData(f: Fat.Fat, d: Device.Device, c: Chain, offset: nat, b: ByteBuffer.Buffer)
    returns (r: Partial<(Fat.Fat, Chain, Device.Device), ByteBuffer.Buffer>)
    requires f.Valid() && c.clusterSize > 0 && 0 <= b.pos <= b.Capacity()
    ensures b.pos == b.Capacity() ==> r == Done((f, c, d), b)
    ensures r.state.0.Valid() && r.state.0 == f.(entries := r.state.0.entries, cursor := r.state.0.cursor)
    ensures r.state.1 == c.(start := r.state.1.start) && |r.state.2.data| == |d.data|
    ensures LengthOnDisk(f, c).Ok? && offset + (b.Capacity() - b.pos) <= LengthOnDisk(f, c).value ==>
              r.state.0 == f && r.state.1 == c
    ensures r.Done? ==> r.value.buf == b.buf && r.value.pos == b.Capacity()
    ensures || r.state.2 == d
            || (Fat.GetChain(r.state.0, r.state.1.start).Ok?
                && Kept(d, r.state.2, r.state.1, Fat.GetChain(r.state.0, r.state.1.start).value, 0))
    ensures r.Done? && b.pos < b.Capacity() ==>
              forall b2: ByteBuffer.Buffer | b2.pos == b.pos && b2.Capacity() == b.Capacity() ::
                && ReadData(r.state.0, r.state.2, r.state.1, offset, b2).Ok?
                && ReadData(r.state.0, r.state.2, r.state.1, offset, b2).value.buf[b.pos..] == b.buf[b.pos..]
  {
    if b.pos == b.Capacity() {
      return Done((f, c, d), b);
    }
    var s := Extend(f, c, offset + (b.Capacity() - b.pos));
    if s.Aborted? {
      return Aborted((s.state.0, s.state.1, d), s.fault);
    }
    var (g, c2) := s.state;
    r := Transfer(g, c2, d, offset, b);
    if Fat.GetChain(g, c2.start).Ok? {
      TransferKeeps(g, c2, d, offset, b);
    }
    if r.Done? {
      forall b2: ByteBuffer.Buffer | b2.pos == b.pos && b2.Capacity() == b.Capacity()
        ensures && ReadData(g, r.state.2, c2, offset, b2).Ok?
                && ReadData(g, r.state.2, c2, offset, b2).value.buf[b.pos..] == b.buf[b.pos..]
      {
        TransferThenRead(g, c2, d, offset, b, b2);
      }
    }
  }
}
